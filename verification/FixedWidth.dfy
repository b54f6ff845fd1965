/** The fixed-width r || s signature encoding (testdata/gen/main.go; section 3.4 of RFC 7518):
    two numbers below 2^256, right-aligned in the halves of a 64-byte buffer. */
module FixedWidth {
  import opened Prelude

  const KEY_BYTES: nat := 32

  // The big-endian value of a byte string.
  ghost function Value(b: bytes): nat {
    if b == [] then 0 else Value(b[..|b| - 1]) * 256 + b[|b| - 1]
  }

  // big.Int.Bytes: the shortest big-endian form, empty for zero.
  function MinimalBytes(n: nat): bytes {
    if n == 0 then [] else MinimalBytes(n / 256) + [n % 256]
  }

  ghost function Power256(k: nat): nat {
    if k == 0 then 1 else 256 * Power256(k - 1)
  }

  lemma {:induction false} MinimalBytesValue(n: nat)
    ensures Value(MinimalBytes(n)) == n
    ensures n > 0 ==> MinimalBytes(n)[0] != 0
  {
    if n > 0 {
      MinimalBytesValue(n / 256);
      assert (MinimalBytes(n / 256) + [n % 256])[..|MinimalBytes(n / 256)|] == MinimalBytes(n / 256);
    }
  }

  // A number below 256^k fits in k bytes: the copies below never start before the buffer.
  lemma {:induction false} MinimalBytesFit(n: nat, k: nat)
    requires n < Power256(k)
    ensures |MinimalBytes(n)| <= k
  {
    if n > 0 && k > 0 {
      MinimalBytesFit(n / 256, k - 1);
    }
  }

  ghost function Zeros(k: nat): bytes {
    seq(k, _ => 0)
  }

  lemma {:induction false} LeadingZeros(k: nat, b: bytes)
    ensures Value(Zeros(k) + b) == Value(b)
  {
    if b == [] {
      assert Zeros(k) + b == Zeros(k);
      if k > 0 {
        assert Zeros(k)[..k - 1] == Zeros(k - 1);
        LeadingZeros(k - 1, []);
        assert Zeros(k - 1) + [] == Zeros(k - 1);
      }
    } else {
      assert (Zeros(k) + b)[..k + |b| - 1] == Zeros(k) + b[..|b| - 1];
      LeadingZeros(k, b[..|b| - 1]);
    }
  }

  // copy(out[at:], b)
  method Copy(out: array<byte>, at: nat, b: bytes)
    requires at + |b| <= out.Length
    modifies out
    ensures out[..] == old(out[..at]) + b + old(out[at + |b|..])
  {
    for i := 0 to |b|
      invariant out[..] == old(out[..at]) + b[..i] + old(out[at + i..])
    {
      out[at + i] := b[i];
      assert b[..i + 1] == b[..i] + [b[i]];
    }
  }

  /** The encoding part of SignPayload, after the ASN.1 signature has been parsed. */
  method EncodeSignature(r: nat, s: nat) returns (out: array<byte>)
    requires r < Power256(32) && s < Power256(32)
    ensures fresh(out) && out.Length == 64
    ensures Value(out[..32]) == r && Value(out[32..]) == s
  {
    hide Value, Power256, MinimalBytes;
    out := new byte[2 * KEY_BYTES](_ => 0);
    var rb := MinimalBytes(r);
    var sb := MinimalBytes(s);
    MinimalBytesFit(r, KEY_BYTES);
    MinimalBytesFit(s, KEY_BYTES);
    assert out[..] == Zeros(2 * KEY_BYTES);
    Copy(out, KEY_BYTES - |rb|, rb);
    assert out[..] == Zeros(KEY_BYTES - |rb|) + rb + Zeros(KEY_BYTES);
    Copy(out, 2 * KEY_BYTES - |sb|, sb);
    assert out[..KEY_BYTES] == Zeros(KEY_BYTES - |rb|) + rb;
    assert out[KEY_BYTES..] == Zeros(KEY_BYTES - |sb|) + sb;
    MinimalBytesValue(r);
    MinimalBytesValue(s);
    LeadingZeros(KEY_BYTES - |rb|, rb);
    LeadingZeros(KEY_BYTES - |sb|, sb);
  }

  lemma {:induction false} ValueBound(b: bytes)
    ensures Value(b) < Power256(|b|)
  {
    if b != [] {
      ValueBound(b[..|b| - 1]);
    }
  }

  lemma {:induction false} ValueDetermines(a: bytes, b: bytes)
    requires |a| == |b| && Value(a) == Value(b)
    ensures a == b
  {
    if a != [] {
      var n := |a| - 1;
      ValueDetermines(a[..n], b[..n]);
      assert a == a[..n] + [a[n]] && b == b[..n] + [b[n]];
    }
  }

  /** The contract of EncodeSignature is exact: the 64 bytes determine (r, s) and are
      determined by them, and every 64-byte string encodes some pair. */
  lemma EncodingIsABijection(a: bytes, b: bytes)
    requires |a| == |b| == 64
    ensures a == b <==> Value(a[..32]) == Value(b[..32]) && Value(a[32..]) == Value(b[32..])
    ensures Value(a[..32]) < Power256(32) && Value(a[32..]) < Power256(32)
  {
    ValueBound(a[..KEY_BYTES]);
    ValueBound(a[KEY_BYTES..]);
    if Value(a[..KEY_BYTES]) == Value(b[..KEY_BYTES]) && Value(a[KEY_BYTES..]) == Value(b[KEY_BYTES..]) {
      ValueDetermines(a[..KEY_BYTES], b[..KEY_BYTES]);
      ValueDetermines(a[KEY_BYTES..], b[KEY_BYTES..]);
      assert a == a[..KEY_BYTES] + a[KEY_BYTES..] && b == b[..KEY_BYTES] + b[KEY_BYTES..];
    }
  }
}
