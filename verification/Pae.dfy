/** The DSSEv1 pre-authentication encoding (pkg/core/verify/keyed_signature.go; the Signature
    Definition section of the DSSE v1 protocol): what a signature is computed over. */
module Pae {
  import opened Prelude
  import Ordering

  // --- []byte(s): UTF-8 -------------------------------------------------------------

  function Utf8Char(c: char): bytes {
    var n := c as int;
    if n < 0x80 then [n]
    else if n < 0x800 then [192 + n / 64, 128 + n % 64]
    else if n < 0x10000 then [224 + n / 4096, 128 + n / 64 % 64, 128 + n % 64]
    else [240 + n / 262144, 128 + n / 4096 % 64, 128 + n / 64 % 64, 128 + n % 64]
  }

  function Utf8(s: string): bytes {
    if s == "" then [] else Utf8Char(s[0]) + Utf8(s[1..])
  }

  // The first byte tells the length, so no character's encoding starts another's.
  lemma Utf8CharIsPrefixFree(c: char, d: char, x: bytes, y: bytes)
    requires Utf8Char(c) + x == Utf8Char(d) + y
    ensures c == d && x == y
  {
    var p, q := Utf8Char(c), Utf8Char(d);
    assert (p + x)[0] == p[0] && (q + y)[0] == q[0];
    assert |p| == |q|;
    assert p == (p + x)[..|p|] == (q + y)[..|q|] == q;
    assert x == (p + x)[|p|..] == (q + y)[|q|..] == y;
    SameBytesSameChar(c, d);
  }

  // The code point a single encoding stands for.
  ghost function CodePoint(b: bytes): int {
    var d := seq(|b|, i requires 0 <= i < |b| => b[i] as int - 128);
    if |b| == 1 then d[0] + 128
    else if |b| == 2 then (d[0] - 64) * 64 + d[1]
    else if |b| == 3 then (d[0] - 96) * 4096 + d[1] * 64 + d[2]
    else if |b| == 4 then (d[0] - 112) * 262144 + d[1] * 4096 + d[2] * 64 + d[3]
    else -1
  }

  lemma CodePointOfUtf8Char(c: char)
    ensures CodePoint(Utf8Char(c)) == c as int
  {
    var n := c as int;
    assert n / 4096 == n / 64 / 64 && n / 262144 == n / 4096 / 64;
  }

  /** Well-formed UTF-8, as section 3 of RFC 3629 lays it out: the length by range, the lead byte by
      length, and continuation bytes that spell the code point. */
  lemma Utf8CharIsWellFormed(c: char)
    ensures var b, n := Utf8Char(c), c as int;
            && CodePoint(b) == n
            && |b| == (if n < 0x80 then 1 else if n < 0x800 then 2 else if n < 0x10000 then 3 else 4)
            && (|b| == 1 ==> b[0] < 0x80) && (|b| == 2 ==> 0xC2 <= b[0] <= 0xDF)
            && (|b| == 3 ==> 0xE0 <= b[0] <= 0xEF) && (|b| == 4 ==> 0xF0 <= b[0] <= 0xF4)
            && forall i | 1 <= i < |b| :: 0x80 <= b[i] <= 0xBF
  {
    CodePointOfUtf8Char(c);
    CharIsScalar(c);
  }

  lemma CharIsScalar(c: char)
    ensures c as int < 0x110000
  {
  }

  lemma SameBytesSameChar(c: char, d: char)
    requires Utf8Char(c) == Utf8Char(d)
    ensures c == d
  {
    hide Utf8Char, CodePoint;
    CodePointOfUtf8Char(c);
    CodePointOfUtf8Char(d);
    assert c as int == d as int;
    assert (c as int) as char == (d as int) as char;
  }

  lemma {:induction false} Utf8IsInjective(s: string, t: string)
    requires Utf8(s) == Utf8(t)
    ensures s == t
  {
    if s == "" || t == "" {
    } else {
      Utf8CharIsPrefixFree(s[0], t[0], Utf8(s[1..]), Utf8(t[1..]));
      Utf8IsInjective(s[1..], t[1..]);
      assert s == [s[0]] + s[1..] && t == [t[0]] + t[1..];
    }
  }

  // --- Go's string order ------------------------------------------------------------

  // Bytes compare by their first difference, and a prefix comes first.
  predicate BytesLess(a: bytes, b: bytes) {
    b != [] && (a == [] || a[0] < b[0] || (a[0] == b[0] && BytesLess(a[1..], b[1..])))
  }

  lemma {:induction false} FirstDifferenceDecides(a: bytes, b: bytes, k: nat)
    requires k < |a| && k < |b| && a[..k] == b[..k] && a[k] < b[k]
    ensures BytesLess(a, b) && !BytesLess(b, a)
  {
    if k > 0 {
      assert a[..k][0] == a[0] && b[..k][0] == b[0];
      assert a[1..][..k - 1] == a[..k][1..] && b[1..][..k - 1] == b[..k][1..];
      FirstDifferenceDecides(a[1..], b[1..], k - 1);
    }
  }

  lemma {:induction false} CommonPrefixIsSkipped(p: bytes, x: bytes, y: bytes)
    ensures BytesLess(p + x, p + y) <==> BytesLess(x, y)
  {
    if p == [] {
      assert p + x == x && p + y == y;
    } else {
      assert (p + x)[1..] == p[1..] + x && (p + y)[1..] == p[1..] + y;
      CommonPrefixIsSkipped(p[1..], x, y);
    }
  }

  // The last base-64 digit decides between numbers that agree without it.
  lemma LastDigitDecides(n: nat, m: nat)
    requires n <= m
    ensures n / 64 < m / 64 || (n / 64 == m / 64 && n % 64 <= m % 64)
    ensures n / 4096 == n / 64 / 64 && n / 262144 == n / 64 / 64 / 64
  {
  }

  // The encodings of two characters first differ where the smaller one has the smaller byte.
  lemma CharsDiffer(c: char, d: char) returns (k: nat)
    requires c < d
    ensures k < |Utf8Char(c)| && k < |Utf8Char(d)|
    ensures Utf8Char(c)[..k] == Utf8Char(d)[..k] && Utf8Char(c)[k] < Utf8Char(d)[k]
  {
    var p, q := Utf8Char(c), Utf8Char(d);
    if |p| == |q| {
      k := SameLengthDiffers(c, d);
    } else {
      k := 0;
    }
  }

  lemma SameLengthDiffers(c: char, d: char) returns (k: nat)
    requires c < d && |Utf8Char(c)| == |Utf8Char(d)|
    ensures k < |Utf8Char(c)| && k < |Utf8Char(d)|
    ensures Utf8Char(c)[..k] == Utf8Char(d)[..k] && Utf8Char(c)[k] < Utf8Char(d)[k]
  {
    var n, m := c as int, d as int;
    LastDigitDecides(n, m);
    LastDigitDecides(m, m);
    LastDigitDecides(n / 64, m / 64);
    LastDigitDecides(n / 64 / 64, m / 64 / 64);
    if n < 0x80 {
      k := 0;
    } else if n < 0x800 {
      k := if n / 64 == m / 64 then 1 else 0;
    } else if n < 0x10000 {
      k := if n / 64 == m / 64 then 2 else if n / 64 / 64 == m / 64 / 64 then 1 else 0;
    } else {
      k := if n / 64 == m / 64 then 3
           else if n / 64 / 64 == m / 64 / 64 then 2
           else if n / 64 / 64 / 64 == m / 64 / 64 / 64 then 1 else 0;
    }
  }

  /** The order of the code points is the order of the bytes Go compares. */
  lemma {:induction false} CodePointOrderIsByteOrder(a: string, b: string)
    ensures Ordering.Less(a, b) <==> BytesLess(Utf8(a), Utf8(b))
  {
    hide Utf8Char;
    if a == "" || b == "" {
      SomeByte(a);
      SomeByte(b);
    } else if a[0] == b[0] {
      CommonPrefixIsSkipped(Utf8Char(a[0]), Utf8(a[1..]), Utf8(b[1..]));
      CodePointOrderIsByteOrder(a[1..], b[1..]);
    } else {
      var c, d := if a[0] < b[0] then a else b, if a[0] < b[0] then b else a;
      var k := CharsDiffer(c[0], d[0]);
      assert Utf8(c)[..k] == Utf8Char(c[0])[..k] && Utf8(d)[..k] == Utf8Char(d[0])[..k];
      FirstDifferenceDecides(Utf8(c), Utf8(d), k);
    }
  }

  lemma SomeByte(s: string)
    ensures Utf8(s) == [] <==> s == ""
  {
  }

  // --- strconv.Itoa -----------------------------------------------------------------

  function Decimal(n: nat): bytes {
    if n < 10 then [48 + n] else Decimal(n / 10) + [48 + n % 10]
  }

  // --- The encoding and the parser that reads it --------------------------------------

  const SPACE: byte := 32
  // "DSSEv1 "
  const MAGIC: bytes := [68, 83, 83, 69, 118, 49, 32]

  function Pae(payloadType: string, payload: bytes): bytes {
    var t := Utf8(payloadType);
    MAGIC + (Decimal(|t|) + ([SPACE] + (t + ([SPACE] + (Decimal(|payload|) + ([SPACE] + payload))))))
  }

  // Decimal digits up to a space: the number and what follows the space.
  function ReadNumber(b: bytes, acc: nat): Option<(nat, bytes)> {
    if b == [] then None
    else if b[0] == SPACE then Some((acc, b[1..]))
    else if 48 <= b[0] <= 57 then ReadNumber(b[1..], acc * 10 + (b[0] - 48))
    else None
  }

  /** Reads a pre-authentication encoding by its two lengths, never by searching for a separator. */
  function ParsePae(b: bytes): Option<(bytes, bytes)> {
    if !(MAGIC <= b) then None
    else
      match ReadNumber(b[|MAGIC|..], 0)
      case None => None
      case Some((n, rest)) =>
        if |rest| <= n || rest[n] != SPACE then None
        else
          match ReadNumber(rest[n + 1..], 0)
          case None => None
          case Some((m, payload)) => if |payload| == m then Some((rest[..n], payload)) else None
  }

  lemma {:induction false} DecimalReads(n: nat, tail: bytes)
    ensures ReadNumber(Decimal(n) + tail, 0) == ReadNumber(tail, n)
  {
    if n < 10 {
      assert ([48 + n] + tail)[1..] == tail;
    } else {
      var d: byte := 48 + n % 10;
      assert Decimal(n) + tail == Decimal(n / 10) + ([d] + tail);
      DecimalReads(n / 10, [d] + tail);
      assert ([d] + tail)[1..] == tail;
    }
  }

  lemma NumberReads(n: nat, tail: bytes)
    ensures ReadNumber(Decimal(n) + ([SPACE] + tail), 0) == Some((n, tail))
  {
    DecimalReads(n, [SPACE] + tail);
    assert ([SPACE] + tail)[1..] == tail;
  }

  /** The parser inverts the encoding, whatever spaces and digits the type and payload hold. */
  lemma ParseInvertsPae(payloadType: string, payload: bytes)
    ensures ParsePae(Pae(payloadType, payload)) == Some((Utf8(payloadType), payload))
  {
    hide Decimal, ReadNumber, Utf8;
    var t := Utf8(payloadType);
    var body := Decimal(|payload|) + ([SPACE] + payload);
    var rest := t + ([SPACE] + body);
    var b := Pae(payloadType, payload);
    assert b == MAGIC + (Decimal(|t|) + ([SPACE] + rest));
    assert b[..|MAGIC|] == MAGIC && b[|MAGIC|..] == Decimal(|t|) + ([SPACE] + rest);
    NumberReads(|t|, rest);
    assert rest[..|t|] == t && rest[|t|] == SPACE && rest[|t| + 1..] == body;
    NumberReads(|payload|, payload);
  }

  /** A signature binds one payload type and one payload. */
  lemma PaeIsInjective(type1: string, payload1: bytes, type2: string, payload2: bytes)
    requires Pae(type1, payload1) == Pae(type2, payload2)
    ensures type1 == type2 && payload1 == payload2
  {
    ParseInvertsPae(type1, payload1);
    ParseInvertsPae(type2, payload2);
    Utf8IsInjective(type1, type2);
  }

  // --- The encoding as text ------------------------------------------------------------

  predicate IsDigit(c: char) {
    '0' <= c <= '9'
  }

  ghost function ValueOf(digits: string): nat
    requires forall c | c in digits :: IsDigit(c)
  {
    if digits == "" then 0
    else
      var front, last := digits[..|digits| - 1], digits[|digits| - 1];
      assert IsDigit(last) by { assert last in digits; }
      ValueOf(front) * 10 + (last as int - '0' as int)
  }

  /** The decimal text of a number: digits of that value, without a leading zero. */
  ghost predicate IsDecimal(text: string, n: nat) {
    && text != "" && (forall c | c in text :: IsDigit(c))
    && ValueOf(text) == n && (|text| > 1 ==> text[0] != '0')
  }

  /** The signed text of section "Signature Definition" with both lengths in decimal. */
  ghost predicate IsSignedText(payloadType: string, payload: bytes, result: bytes) {
    exists n, k ::
      && IsDecimal(n, |Utf8(payloadType)|) && IsDecimal(k, |payload|)
      && result == Utf8("DSSEv1 " + n + " " + payloadType + " " + k + " ") + payload
  }

  lemma {:induction false} Utf8Append(a: string, b: string)
    ensures Utf8(a + b) == Utf8(a) + Utf8(b)
  {
    if a == "" {
      assert a + b == b;
    } else {
      assert (a + b)[1..] == a[1..] + b;
      Utf8Append(a[1..], b);
    }
  }

  lemma {:induction false} AsciiIsItsOwn(s: string)
    requires forall c | c in s :: c as int < 128
    ensures |Utf8(s)| == |s| && forall i | 0 <= i < |s| :: Utf8(s)[i] == s[i] as int
  {
    if s != "" {
      assert s[0] in s;
      assert forall c | c in s[1..] :: c in s;
      AsciiIsItsOwn(s[1..]);
    }
  }

  lemma MagicIsText()
    ensures Utf8("DSSEv1 ") == MAGIC && Utf8(" ") == [SPACE]
  {
    AsciiIsItsOwn("DSSEv1 ");
    AsciiIsItsOwn(" ");
  }

  lemma {:induction false} DecimalIsText(n: nat) returns (text: string)
    ensures IsDecimal(text, n) && Utf8(text) == Decimal(n)
    ensures n > 0 ==> text[0] != '0'
  {
    var last := (48 + n % 10) as char;
    AsciiIsItsOwn([last]);
    if n < 10 {
      text := [last];
      assert ValueOf([]) == 0 && text[..0] == [];
    } else {
      var front := DecimalIsText(n / 10);
      text := front + [last];
      assert text[..|text| - 1] == front;
      Utf8Append(front, [last]);
    }
  }

  /** The encoding, written out: the literal prefix, and the two lengths in decimal. */
  lemma PaeIsSignedText(payloadType: string, payload: bytes)
    ensures IsSignedText(payloadType, payload, Pae(payloadType, payload))
  {
    hide Decimal, IsDecimal, Utf8;
    var t := Utf8(payloadType);
    var n := DecimalIsText(|t|);
    var k := DecimalIsText(|payload|);
    MagicIsText();
    Utf8Append("DSSEv1 " + n + " " + payloadType + " " + k, " ");
    Utf8Append("DSSEv1 " + n + " " + payloadType + " ", k);
    Utf8Append("DSSEv1 " + n + " " + payloadType, " ");
    Utf8Append("DSSEv1 " + n + " ", payloadType);
    Utf8Append("DSSEv1 " + n, " ");
    Utf8Append("DSSEv1 ", n);
    Associates(Decimal(|t|), t, Decimal(|payload|), payload);
  }

  // dssePAE: append the prefix, then the payload.
  method DssePae(payloadType: string, payload: bytes) returns (result: bytes)
    ensures result == Pae(payloadType, payload) && IsSignedText(payloadType, payload, result)
    ensures ParsePae(result) == Some((Utf8(payloadType), payload))
  {
    var typeBytes := Utf8(payloadType);
    var typeLen := Decimal(|typeBytes|);
    var bodyLen := Decimal(|payload|);
    var prefix := MAGIC + typeLen + [SPACE] + typeBytes + [SPACE] + bodyLen + [SPACE];
    result := [];
    result := result + prefix;
    result := result + payload;
    Associates(typeLen, typeBytes, bodyLen, payload);
    ParseInvertsPae(payloadType, payload);
    PaeIsSignedText(payloadType, payload);
  }

  lemma Associates(tl: bytes, t: bytes, pl: bytes, p: bytes)
    ensures [] + (MAGIC + tl + [SPACE] + t + [SPACE] + pl + [SPACE]) + p
         == MAGIC + (tl + ([SPACE] + (t + ([SPACE] + (pl + ([SPACE] + p))))))
  {
  }
}
