/** encoding/base64 and encoding/hex as the repository uses them: padded, non-strict,
    line breaks skipped, standard or URL-safe alphabet (RFC 4648, sections 4, 5 and 8). */
module Encoding {
  import opened Prelude

  datatype Alphabet = Standard | UrlSafe

  type sextet = x: int | 0 <= x < 64

  // --- Alphabets ------------------------------------------------------------------

  function ToChar(a: Alphabet, v: sextet): char {
    if v < 26 then (65 + v) as char
    else if v < 52 then (71 + v) as char
    else if v < 62 then (v - 4) as char
    else if v == 62 then (if a.Standard? then '+' else '-')
    else (if a.Standard? then '/' else '_')
  }

  function FromChar(a: Alphabet, c: char): Option<sextet> {
    if 'A' <= c <= 'Z' then Some(c as int - 65)
    else if 'a' <= c <= 'z' then Some(c as int - 71)
    else if '0' <= c <= '9' then Some(c as int + 4)
    else if c == (if a.Standard? then '+' else '-') then Some(62)
    else if c == (if a.Standard? then '/' else '_') then Some(63)
    else None
  }

  lemma CharRoundTrip(a: Alphabet, v: sextet)
    ensures FromChar(a, ToChar(a, v)) == Some(v)
    ensures ToChar(a, v) !in "\r\n="
  {
  }

  // A character both alphabets read, they read alike.
  lemma AlphabetsAgree(c: char)
    requires FromChar(Standard, c).Some? && FromChar(UrlSafe, c).Some?
    ensures FromChar(Standard, c) == FromChar(UrlSafe, c)
  {
  }

  // --- Quanta ---------------------------------------------------------------------

  function Bytes3(a: sextet, b: sextet, c: sextet, d: sextet): bytes {
    [a * 4 + b / 16, b % 16 * 16 + c / 4, c % 4 * 64 + d]
  }

  function Bytes2(a: sextet, b: sextet, c: sextet): bytes {
    [a * 4 + b / 16, b % 16 * 16 + c / 4]
  }

  function Bytes1(a: sextet, b: sextet): bytes {
    [a * 4 + b / 16]
  }

  // --- Decoding -------------------------------------------------------------------

  // The decoder skips carriage returns and line feeds wherever they stand.
  function Strip(s: string): string {
    if s == "" then "" else (if s[0] in "\r\n" then "" else [s[0]]) + Strip(s[1..])
  }

  function DecodeQuanta(a: Alphabet, s: string): Option<bytes> {
    if s == "" then Some([])
    else if |s| < 4 then None
    else
      var v0, v1, v2, v3 := FromChar(a, s[0]), FromChar(a, s[1]), FromChar(a, s[2]), FromChar(a, s[3]);
      if v0.None? || v1.None? then None
      else if s[3] == '=' then
        if |s| != 4 then None
        else if s[2] == '=' then Some(Bytes1(v0.value, v1.value))
        else if v2.None? then None
        else Some(Bytes2(v0.value, v1.value, v2.value))
      else if v2.None? || v3.None? then None
      else
        var rest := DecodeQuanta(a, s[4..]);
        if rest.None? then None
        else Some(Bytes3(v0.value, v1.value, v2.value, v3.value) + rest.value)
  }

  // Byte i of what these characters carry, six bits each.
  ghost function ByteAt(a: Alphabet, body: string, i: nat): int
    requires i * 8 + 8 <= |body| * 6 && forall c | c in body :: FromChar(a, c).Some?
  {
    var v := (k: int) requires 0 <= k < |body| && FromChar(a, body[k]).Some? => FromChar(a, body[k]).value as int;
    var q := i / 3 * 4;
    assert forall k | 0 <= k < |body| :: body[k] in body;
    if i % 3 == 0 then v(q) * 4 + v(q + 1) / 16
    else if i % 3 == 1 then v(q + 1) % 16 * 16 + v(q + 2) / 4
    else v(q + 2) % 4 * 64 + v(q + 3)
  }

  // s is whole quanta of these characters, padded, and b is what they carry.
  ghost predicate Carries(a: Alphabet, s: string, body: string, pad: string, b: bytes) {
    && s == body + pad && pad in ["", "=", "=="] && |s| % 4 == 0
    && (forall c | c in body :: FromChar(a, c).Some?)
    && |b| == |body| * 6 / 8 && forall i | 0 <= i < |b| :: b[i] == ByteAt(a, body, i)
  }

  function Quantum(a: Alphabet, four: string): bytes
    requires |four| == 4 && forall c | c in four :: FromChar(a, c).Some?
  {
    assert four[0] in four && four[1] in four && four[2] in four && four[3] in four;
    Bytes3(FromChar(a, four[0]).value, FromChar(a, four[1]).value, FromChar(a, four[2]).value,
        FromChar(a, four[3]).value)
  }

  lemma FirstBytes(a: Alphabet, four: string, body: string)
    requires |four| == 4
    requires (forall c | c in body :: FromChar(a, c).Some?) && (forall c | c in four :: FromChar(a, c).Some?)
    ensures forall c | c in four + body :: FromChar(a, c).Some?
    ensures forall i | 0 <= i < 3 :: ByteAt(a, four + body, i) == Quantum(a, four)[i]
  {
    hide FromChar;
    var s := four + body;
    assert s[0] == four[0] && s[1] == four[1] && s[2] == four[2] && s[3] == four[3];
  }

  lemma LaterByte(a: Alphabet, four: string, body: string, i: nat)
    requires |four| == 4 && i >= 3 && i * 8 + 8 <= |four + body| * 6
    requires (forall c | c in body :: FromChar(a, c).Some?) && (forall c | c in four :: FromChar(a, c).Some?)
    ensures ByteAt(a, four + body, i) == ByteAt(a, body, i - 3)
  {
    hide FromChar;
    assert (i - 3) / 3 * 4 + 4 == i / 3 * 4 && (i - 3) % 3 == i % 3;
  }

  // One quantum more in front.
  lemma QuantumInFront(a: Alphabet, four: string, body: string, pad: string, b: bytes)
    requires |four| == 4 && forall c | c in four :: FromChar(a, c).Some?
    ensures |b| >= 3 ==>
              (Carries(a, four + (body + pad), four + body, pad, b)
               <==> Carries(a, body + pad, body, pad, b[3..]) && b[..3] == Quantum(a, four))
  {
    hide FromChar, ByteAt, Quantum;
    var s := four + (body + pad);
    assert s == (four + body) + pad;
    assert |(four + body)| * 6 / 8 == |body| * 6 / 8 + 3;
    assert (forall c | c in four + body :: FromChar(a, c).Some?) <==> (forall c | c in body :: FromChar(a, c).Some?);
    if |b| >= 3 && |b| == |four + body| * 6 / 8 && forall c | c in body :: FromChar(a, c).Some? {
      FirstBytes(a, four, body);
      forall i | 3 <= i < |b| ensures ByteAt(a, four + body, i) == ByteAt(a, body, i - 3) && b[i] == b[3..][i - 3] {
        LaterByte(a, four, body, i);
      }
      BytesSplit(a, four, body, b);
    }
  }

  lemma BytesSplit(a: Alphabet, four: string, body: string, b: bytes)
    requires |four| == 4 && |b| >= 3 && |b| == |four + body| * 6 / 8
    requires (forall c | c in body :: FromChar(a, c).Some?) && (forall c | c in four :: FromChar(a, c).Some?)
    requires (forall c | c in four + body :: FromChar(a, c).Some?)
    requires forall i | 0 <= i < 3 :: ByteAt(a, four + body, i) == Quantum(a, four)[i]
    requires forall i | 3 <= i < |b| :: ByteAt(a, four + body, i) == ByteAt(a, body, i - 3) && b[i] == b[3..][i - 3]
    ensures (forall i | 0 <= i < |b| :: b[i] == ByteAt(a, four + body, i))
       <==> (forall i | 0 <= i < |b[3..]| :: b[3..][i] == ByteAt(a, body, i)) && b[..3] == Quantum(a, four)
  {
    hide FromChar, ByteAt, Bytes3;
    if forall i | 0 <= i < |b| :: b[i] == ByteAt(a, four + body, i) {
      assert b[..3] == Quantum(a, four) by { QuantumLength(a, four); }
      forall i | 0 <= i < |b[3..]| ensures b[3..][i] == ByteAt(a, body, i) {
        assert b[i + 3] == ByteAt(a, four + body, i + 3);
      }
    }
    if (forall i | 0 <= i < |b[3..]| :: b[3..][i] == ByteAt(a, body, i)) && b[..3] == Quantum(a, four) {
      forall i | 0 <= i < |b| ensures b[i] == ByteAt(a, four + body, i) {
        if i < 3 { assert b[..3][i] == b[i]; }
      }
    }
  }

  lemma QuantumLength(a: Alphabet, four: string)
    requires |four| == 4 && forall c | c in four :: FromChar(a, c).Some?
    ensures |Quantum(a, four)| == 3
  {
  }

  // Decoding takes the first quantum off.
  lemma DecodesQuantum(a: Alphabet, four: string, rest: string)
    requires |four| == 4 && forall c | c in four :: FromChar(a, c).Some?
    ensures DecodeQuanta(a, four + rest)
         == match DecodeQuanta(a, rest) case None => None case Some(b) => Some(Quantum(a, four) + b)
  {
    PadIsNoDigit(a);
    hide FromChar, Bytes3;
    var s := four + rest;
    assert s[0] == four[0] && s[1] == four[1] && s[2] == four[2] && s[3] == four[3] && s[4..] == rest;
    assert four[0] in four && four[1] in four && four[2] in four && four[3] in four;
  }

  lemma ShortBytes(a: Alphabet, x: char, y: char, z: char)
    requires FromChar(a, x).Some? && FromChar(a, y).Some? && FromChar(a, z).Some?
    ensures ByteAt(a, [x, y], 0) == Bytes1(FromChar(a, x).value, FromChar(a, y).value)[0]
    ensures ByteAt(a, [x, y, z], 0) == Bytes2(FromChar(a, x).value, FromChar(a, y).value, FromChar(a, z).value)[0]
    ensures ByteAt(a, [x, y, z], 1) == Bytes2(FromChar(a, x).value, FromChar(a, y).value, FromChar(a, z).value)[1]
  {
    hide FromChar;
  }

  lemma TwoPadded(a: Alphabet, x: char, y: char, b: bytes)
    ensures DecodeQuanta(a, [x, y, '=', '=']) == Some(b) <==> Carries(a, [x, y, '=', '='], [x, y], "==", b)
  {
    hide FromChar, ByteAt;
    assert [x, y] + "==" == [x, y, '=', '='];
    assert x in [x, y] && y in [x, y];
    assert |b| == 1 ==> b == [b[0]];
    if FromChar(a, x).Some? && FromChar(a, y).Some? { ShortBytes(a, x, y, x); }
  }

  lemma OnePadded(a: Alphabet, x: char, y: char, z: char, b: bytes)
    requires z != '='
    ensures DecodeQuanta(a, [x, y, z, '=']) == Some(b) <==> Carries(a, [x, y, z, '='], [x, y, z], "=", b)
  {
    hide FromChar, ByteAt;
    assert [x, y, z] + "=" == [x, y, z, '='];
    assert x in [x, y, z] && y in [x, y, z] && z in [x, y, z];
    assert |b| == 2 ==> b == [b[0], b[1]];
    if FromChar(a, x).Some? && FromChar(a, y).Some? && FromChar(a, z).Some? { ShortBytes(a, x, y, z); }
  }

  // The last, padded quantum.
  lemma PaddedQuantum(a: Alphabet, s: string, b: bytes)
    requires |s| == 4 && s[3] == '='
    ensures DecodeQuanta(a, s) == Some(b)
       <==> Carries(a, s, s[..2], "==", b) || Carries(a, s, s[..3], "=", b)
  {
    hide DecodeQuanta, Carries, FromChar;
    assert s[..2] == [s[0], s[1]] && s[..3] == [s[0], s[1], s[2]];
    assert s[2] in s[..3];
    assert (s[..2] + "==")[2] == '=';
    PadIsNoDigit(a);
    if Carries(a, s, s[..3], "=", b) { CarriedText(a, s, s[..3], "=", b); }
    if Carries(a, s, s[..2], "==", b) { CarriedText(a, s, s[..2], "==", b); }
    if s[2] == '=' {
      assert s == [s[0], s[1], '=', '='];
      TwoPadded(a, s[0], s[1], b);
    } else {
      assert s == [s[0], s[1], s[2], '='];
      OnePadded(a, s[0], s[1], s[2], b);
    }
  }

  lemma {:induction false} DecodedIsCarried(a: Alphabet, s: string, b: bytes) returns (body: string, pad: string)
    requires DecodeQuanta(a, s) == Some(b)
    ensures Carries(a, s, body, pad, b)
  {
    hide FromChar, Carries, Bytes3;
    if s == "" {
      body, pad := "", "";
      assert Carries(a, "", "", "", []) by { NothingCarried(a); }
    } else if s[3] == '=' {
      PaddedQuantum(a, s, b);
      pad := if Carries(a, s, s[..2], "==", b) then "==" else "=";
      body := s[..4 - |pad|];
    } else {
      var four := s[..4];
      assert s == four + s[4..] && forall c | c in four :: FromChar(a, c).Some?;
      DecodesQuantum(a, four, s[4..]);
      QuantumLength(a, four);
      var body', pad' := DecodedIsCarried(a, s[4..], b[3..]);
      CarriedText(a, s[4..], body', pad', b[3..]);
      body, pad := four + body', pad';
      QuantumInFront(a, four, body', pad', b);
    }
  }

  lemma NothingCarried(a: Alphabet)
    ensures Carries(a, "", "", "", [])
  {
  }

  lemma CarriedText(a: Alphabet, s: string, body: string, pad: string, b: bytes)
    requires Carries(a, s, body, pad, b)
    ensures s == body + pad && (pad == "" || pad == "=" || pad == "==") && |s| % 4 == 0 && |b| == |body| * 6 / 8
    ensures forall c | c in body :: FromChar(a, c).Some?
  {
  }

  lemma {:induction false} CarriedIsDecoded(a: Alphabet, s: string, body: string, pad: string, b: bytes)
    requires Carries(a, s, body, pad, b)
    ensures DecodeQuanta(a, s) == Some(b)
    decreases |s|
  {
    hide FromChar, Carries, Bytes3;
    CarriedText(a, s, body, pad, b);
    if body == "" {
      assert s == "" && b == [];
    } else if |body| >= 4 {
      var four, body' := body[..4], body[4..];
      assert body == four + body' && s == four + (body' + pad);
      assert forall c | c in four :: c in body;
      QuantumInFront(a, four, body', pad, b);
      CarriedIsDecoded(a, body' + pad, body', pad, b[3..]);
      DecodesQuantum(a, four, body' + pad);
      assert b == b[..3] + b[3..];
    } else {
      assert |s| == 4 && s[3] == '=';
      assert body == s[..|body|] && pad == s[|body|..];
      PaddedQuantum(a, s, b);
    }
  }

  lemma PadIsNoDigit(a: Alphabet)
    ensures FromChar(a, '=').None?
  {
  }

  /** What a text decodes to, bit by bit: it is whole quanta over the alphabet with at most two
      padding characters at the end, and the bytes are its sextets in order; stray low bits of the
      last sextet are ignored. */
  lemma QuantaDecodeIff(a: Alphabet, s: string, b: bytes)
    ensures DecodeQuanta(a, s) == Some(b) <==> exists body, pad :: Carries(a, s, body, pad, b)
  {
    hide Carries, DecodeQuanta;
    if DecodeQuanta(a, s) == Some(b) {
      var body, pad := DecodedIsCarried(a, s, b);
    }
    forall body, pad | Carries(a, s, body, pad, b) ensures DecodeQuanta(a, s) == Some(b) {
      CarriedIsDecoded(a, s, body, pad, b);
    }
  }

  /** The two alphabets: a character stands for the sextet that is written as it, and no other
      character stands for anything. */
  lemma FromCharIff(a: Alphabet, c: char, v: sextet)
    ensures FromChar(a, c) == Some(v) <==> c == ToChar(a, v)
  {
  }

  // Unpadded text carries three bytes for every four characters.
  lemma {:induction false} DecodedLength(a: Alphabet, s: string)
    requires DecodeQuanta(a, s).Some? && '=' !in s
    ensures |DecodeQuanta(a, s).value| * 4 == |s| * 3
  {
    if s != "" {
      assert s[3] in s;
      assert forall c | c in s[4..] :: c in s;
      DecodedLength(a, s[4..]);
    }
  }

  // base64.StdEncoding.DecodeString and base64.URLEncoding.DecodeString
  function Decode(a: Alphabet, s: string): Option<bytes> {
    DecodeQuanta(a, Strip(s))
  }

  // The two-step decoding of a DSSE payload: standard first, URL-safe as the fallback.
  function DecodePayload(s: string): Option<bytes> {
    var std := Decode(Standard, s);
    if std.Some? then std else Decode(UrlSafe, s)
  }

  // --- Encoding -------------------------------------------------------------------

  // base64.StdEncoding.EncodeToString
  function Encode(b: bytes): string {
    if |b| == 0 then ""
    else
      var a0 := b[0] / 4;
      if |b| == 1 then [ToChar(Standard, a0), ToChar(Standard, b[0] % 4 * 16), '=', '=']
      else
        var a1 := b[0] % 4 * 16 + b[1] / 16;
        if |b| == 2 then [ToChar(Standard, a0), ToChar(Standard, a1), ToChar(Standard, b[1] % 16 * 4), '=']
        else
          [ToChar(Standard, a0), ToChar(Standard, a1),
           ToChar(Standard, b[1] % 16 * 4 + b[2] / 64), ToChar(Standard, b[2] % 64)] + Encode(b[3..])
  }

  lemma {:induction false} StripKeepsClean(s: string)
    requires forall c | c in s :: c !in "\r\n"
    ensures Strip(s) == s
  {
    if s != "" {
      assert s[0] in s;
      StripKeepsClean(s[1..]);
      assert s == [s[0]] + s[1..];
    }
  }

  /** Line breaks are skipped wherever they stand, and nothing else is. */
  lemma {:induction false} BreaksAreSkipped(x: string, c: char, y: string)
    ensures Strip(x + [c] + y) == if c == '\r' || c == '\n' then Strip(x + y) else Strip(x) + [c] + Strip(y)
  {
    if x == "" {
      assert (x + [c] + y)[1..] == y && x + y == y;
      assert Strip(x) + [c] + Strip(y) == [c] + Strip(y);
    } else {
      assert (x + [c] + y)[1..] == x[1..] + [c] + y && (x + y)[1..] == x[1..] + y;
      BreaksAreSkipped(x[1..], c, y);
    }
  }

  lemma {:induction false} EncodeIsClean(b: bytes)
    ensures forall c | c in Encode(b) :: c !in "\r\n"
  {
    forall v: sextet ensures ToChar(Standard, v) !in "\r\n" {
      CharRoundTrip(Standard, v);
    }
    if |b| >= 3 {
      EncodeIsClean(b[3..]);
    }
  }

  lemma ThreeBytes(x: byte, y: byte, z: byte)
    ensures Bytes3(x / 4, x % 4 * 16 + y / 16, y % 16 * 4 + z / 64, z % 64) == [x, y, z]
    ensures Bytes2(x / 4, x % 4 * 16 + y / 16, y % 16 * 4) == [x, y]
    ensures Bytes1(x / 4, x % 4 * 16) == [x]
  {
  }

  lemma QuantumDecodes(v0: sextet, v1: sextet, v2: sextet, v3: sextet, rest: string)
    requires DecodeQuanta(Standard, rest).Some?
    ensures var c := v => ToChar(Standard, v);
            DecodeQuanta(Standard, [c(v0), c(v1), c(v2), c(v3)] + rest)
            == Some(Bytes3(v0, v1, v2, v3) + DecodeQuanta(Standard, rest).value)
    ensures var c := v => ToChar(Standard, v);
            DecodeQuanta(Standard, [c(v0), c(v1), c(v2), '=']) == Some(Bytes2(v0, v1, v2))
    ensures var c := v => ToChar(Standard, v);
            DecodeQuanta(Standard, [c(v0), c(v1), '=', '=']) == Some(Bytes1(v0, v1))
  {
    hide ToChar, FromChar, Bytes3;
    CharRoundTrip(Standard, v0);
    CharRoundTrip(Standard, v1);
    CharRoundTrip(Standard, v2);
    CharRoundTrip(Standard, v3);
    var quantum := [ToChar(Standard, v0), ToChar(Standard, v1), ToChar(Standard, v2), ToChar(Standard, v3)];
    assert (quantum + rest)[4..] == rest;
  }

  lemma {:induction false} QuantaRoundTrip(b: bytes)
    ensures DecodeQuanta(Standard, Encode(b)) == Some(b)
  {
    hide ToChar, FromChar, DecodeQuanta, Bytes1, Bytes2, Bytes3;
    if b == [] {
      NothingDecodes();
    } else {
      var x := b[0];
      var y, z := if |b| > 1 then b[1] else 0, if |b| > 2 then b[2] else 0;
      ThreeBytes(x, y, z);
      var rest := if |b| > 2 then b[3..] else [];
      if |b| > 2 {
        QuantaRoundTrip(rest);
        assert b == [x, y, z] + rest;
      } else {
        NothingDecodes();
      }
      QuantumDecodes(x / 4, x % 4 * 16 + y / 16, y % 16 * 4 + z / 64, z % 64, Encode(rest));
      assert |b| == 1 ==> b == [x];
      assert |b| == 2 ==> b == [x, y];
    }
  }

  lemma NothingDecodes()
    ensures DecodeQuanta(Standard, "") == Some([])
  {
  }

  /** What EncodeToString wrote, the decoder with its fallback reads back. */
  lemma EncodeDecode(b: bytes)
    ensures Decode(Standard, Encode(b)) == Some(b) && DecodePayload(Encode(b)) == Some(b)
  {
    EncodeIsClean(b);
    StripKeepsClean(Encode(b));
    QuantaRoundTrip(b);
  }

  lemma {:induction false} QuantaAgree(s: string)
    requires DecodeQuanta(Standard, s).Some? && DecodeQuanta(UrlSafe, s).Some?
    ensures DecodeQuanta(Standard, s) == DecodeQuanta(UrlSafe, s)
  {
    if s != "" {
      AlphabetsAgree(s[0]);
      AlphabetsAgree(s[1]);
      if s[3] == '=' {
        if s[2] != '=' { AlphabetsAgree(s[2]); }
      } else {
        AlphabetsAgree(s[2]);
        AlphabetsAgree(s[3]);
        QuantaAgree(s[4..]);
      }
    }
  }

  /** The order of the two attempts is immaterial: where both decoders succeed they agree. */
  lemma FallbackOrderIsImmaterial(s: string)
    ensures Decode(Standard, s).Some? && Decode(UrlSafe, s).Some? ==> Decode(Standard, s) == Decode(UrlSafe, s)
    ensures DecodePayload(s) == if Decode(UrlSafe, s).Some? then Decode(UrlSafe, s) else Decode(Standard, s)
  {
    if Decode(Standard, s).Some? && Decode(UrlSafe, s).Some? {
      QuantaAgree(Strip(s));
    }
  }

  // --- Hexadecimal ----------------------------------------------------------------

  function HexDigit(c: char): Option<int> {
    if '0' <= c <= '9' then Some(c as int - 48)
    else if 'a' <= c <= 'f' then Some(c as int - 87)
    else if 'A' <= c <= 'F' then Some(c as int - 55)
    else None
  }

  // hex.DecodeString
  function HexDecode(s: string): (r: Option<bytes>)
    ensures r.Some? ==> |s| == 2 * |r.value| && forall c | c in s :: HexDigit(c).Some?
  {
    if s == "" then Some([])
    else if |s| == 1 then None
    else
      var hi, lo := HexDigit(s[0]), HexDigit(s[1]);
      var rest := HexDecode(s[2..]);
      if hi.None? || lo.None? || rest.None? then None
      else
        assert s == [s[0], s[1]] + s[2..];
        Some([hi.value * 16 + lo.value] + rest.value)
  }

  // The characters of s, two by two, are the digits of the bytes.
  ghost predicate HexPairs(s: string, b: bytes) {
    && |s| == 2 * |b|
    && forall i | 0 <= i < |b| :: IsPair(s[2 * i], s[2 * i + 1], b[i])
  }

  ghost predicate IsPair(hi: char, lo: char, x: byte) {
    HexDigit(hi).Some? && HexDigit(lo).Some? && x == HexDigit(hi).value * 16 + HexDigit(lo).value
  }

  lemma PairInFront(s: string, b: bytes)
    requires |s| >= 2 && b != []
    ensures HexPairs(s, b) <==> IsPair(s[0], s[1], b[0]) && HexPairs(s[2..], b[1..])
  {
    hide IsPair;
    if HexPairs(s, b) {
      assert IsPair(s[2 * 0], s[2 * 0 + 1], b[0]);
      forall i | 0 <= i < |b[1..]| ensures IsPair(s[2..][2 * i], s[2..][2 * i + 1], b[1..][i]) {
        assert IsPair(s[2 * (i + 1)], s[2 * (i + 1) + 1], b[i + 1]);
      }
    }
    if IsPair(s[0], s[1], b[0]) && HexPairs(s[2..], b[1..]) {
      forall i | 0 <= i < |b| ensures IsPair(s[2 * i], s[2 * i + 1], b[i]) {
        if i > 0 { assert IsPair(s[2..][2 * (i - 1)], s[2..][2 * (i - 1) + 1], b[1..][i - 1]); }
      }
    }
  }

  /** Digit by digit: two hexadecimal digits, in either case, for every byte. */
  lemma {:induction false} HexDecodeIff(s: string, b: bytes)
    ensures HexDecode(s) == Some(b) <==> HexPairs(s, b)
  {
    hide HexDigit, HexPairs;
    if |s| >= 2 && b != [] {
      HexDecodeIff(s[2..], b[1..]);
      PairInFront(s, b);
      assert b == [b[0]] + b[1..];
    } else {
      ShortPairs(s, b);
    }
  }

  lemma ShortPairs(s: string, b: bytes)
    requires |s| < 2 || b == []
    ensures HexDecode(s) == Some(b) <==> HexPairs(s, b)
  {
    hide HexDigit;
  }

  lemma HexDigitIff(c: char, v: int)
    ensures HexDigit(c) == Some(v) <==> 0 <= v < 16 && (c == "0123456789abcdef"[v] || c == "0123456789ABCDEF"[v])
  {
    if 0 <= v < 16 {
      assert v in [0, 1, 2, 3, 4, 5, 6, 7, 8, 9, 10, 11, 12, 13, 14, 15];
    }
  }

  // The folding orbits that meet ASCII: the letters, with U+017F and U+212A. Other
  // characters never fold to an ASCII one.
  function FoldAscii(c: char): char {
    if 'A' <= c <= 'Z' then (c as int + 32) as char
    else if c == '\U{017F}' then 's'
    else if c == '\U{212A}' then 'k'
    else c
  }

  // The representative of a character under Unicode simple folding; other is the table for
  // the orbits outside ASCII.
  function Fold(other: char -> char, c: char): char {
    if FoldAscii(c) < 128 as char then FoldAscii(c)
    else if other(c) < 128 as char then c
    else other(c)
  }

  // strings.EqualFold
  predicate EqualFold(other: char -> char, s: string, t: string) {
    |s| == |t| && forall i | 0 <= i < |s| :: Fold(other, s[i]) == Fold(other, t[i])
  }

  lemma {:induction false} FoldedHexDecodesAlike(other: char -> char, s: string, t: string)
    requires EqualFold(other, s, t) && HexDecode(t).Some?
    ensures HexDecode(s) == HexDecode(t)
  {
    if s != "" {
      FoldedDigit(other, s[0], t[0]);
      FoldedDigit(other, s[1], t[1]);
      forall i | 0 <= i < |s[2..]| ensures Fold(other, s[2..][i]) == Fold(other, t[2..][i]) {
        assert Fold(other, s[i + 2]) == Fold(other, t[i + 2]);
      }
      FoldedHexDecodesAlike(other, s[2..], t[2..]);
    }
  }

  lemma FoldedDigit(other: char -> char, c: char, d: char)
    requires Fold(other, c) == Fold(other, d) && HexDigit(d).Some?
    ensures HexDigit(c) == HexDigit(d)
  {
  }

  // The characters that fold together with one ASCII letter.
  ghost predicate SameLetter(c: char, d: char) {
    || c == d
    || ('a' <= c <= 'z' && d as int + 32 == c as int) || ('a' <= d <= 'z' && c as int + 32 == d as int)
    || (c in "kK\U{212A}" && d in "kK\U{212A}") || (c in "sS\U{017F}" && d in "sS\U{017F}")
  }

  /** Folding onto an ASCII character identifies exactly the two cases of a letter, and with them
      the Kelvin sign and the long s. */
  lemma FoldsTogetherIff(other: char -> char, c: char, d: char)
    requires d < 128 as char
    ensures Fold(other, c) == Fold(other, d) <==> SameLetter(c, d)
  {
  }

  // --- blobDigestMatches (pkg/core/verify/blob_signature.go) --------------------------

  predicate BlobDigestMatches(other: char -> char, field: string, wantBytes: bytes, wantHex: string) {
    field != "" &&
    (Decode(Standard, field) == Some(wantBytes) || HexDecode(field) == Some(wantBytes)
        || EqualFold(other, field, wantHex))
  }

  /** The field matches exactly when it encodes the artifact's bytes, in base64 or in hex:
      the textual comparison adds no match. */
  lemma BlobDigestMatchesIff(other: char -> char, field: string, wantBytes: bytes, wantHex: string)
    requires HexDecode(wantHex) == Some(wantBytes)
    ensures BlobDigestMatches(other, field, wantBytes, wantHex)
       <==> field != "" && (Decode(Standard, field) == Some(wantBytes) || HexDecode(field) == Some(wantBytes))
  {
    if EqualFold(other, field, wantHex) {
      FoldedHexDecodesAlike(other, field, wantHex);
    }
  }

  /** No digest can be read both ways: the hex text of n bytes is base64 of 3n/2 bytes. */
  lemma ReadingsExcludeEachOther(field: string, want: bytes)
    requires want != [] && HexDecode(field) == Some(want)
    ensures Decode(Standard, field) != Some(want)
  {
    forall c | c in field ensures c !in "\r\n" && c != '=' {}
    StripKeepsClean(field);
    if Decode(Standard, field).Some? {
      DecodedLength(Standard, field);
    }
  }
}
