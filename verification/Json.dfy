/** JSON documents as parsed trees, and the rules by which encoding/json fills Go structs
    from them. An object is its members in document order, repetitions included. */
module Json {
  import opened Prelude
  import Encoding

  datatype Json =
    | Null
    | Bool(b: bool)
    | Number(text: string)
    | Str(s: string)
    | Arr(items: seq<Json>)
    | Obj(members: seq<Member>)

  datatype Member = Member(key: string, value: Json)

  // --- Filling a struct ------------------------------------------------------------------

  // A member goes to the field its key names up to case.
  predicate SameKey(a: string, b: string) {
    |a| == |b| && forall i | 0 <= i < |a| :: Encoding.FoldAscii(a[i]) == Encoding.FoldAscii(b[i])
  }

  // The values given for a field, in document order.
  function Values(ms: seq<Member>, key: string): seq<Json> {
    if ms == [] then []
    else (if SameKey(ms[0].key, key) then [ms[0].value] else []) + Values(ms[1..], key)
  }

  // Unmarshal into a struct: null leaves it alone, another kind is an error.
  function Fields(j: Json): Option<seq<Member>> {
    match j
    case Obj(members) => Some(members)
    case Null => Some([])
    case _ => None
  }

  // A string field: the last string given; null changes nothing, another kind is an error.
  function LastString(vs: seq<Json>): Option<string> {
    if vs == [] then Some("")
    else
      var v, earlier := vs[|vs| - 1], LastString(vs[..|vs| - 1]);
      if v.Null? then earlier
      else if v.Str? && earlier.Some? then Some(v.s)
      else None
  }

  function StringField(ms: seq<Member>, key: string): Option<string> {
    LastString(Values(ms, key))
  }

  // The string the field ends up with when the caller ignores Unmarshal's error.
  function LastGoodString(vs: seq<Json>): string {
    if vs == [] then ""
    else if vs[|vs| - 1].Str? then vs[|vs| - 1].s
    else LastGoodString(vs[..|vs| - 1])
  }

  function LenientString(ms: seq<Member>, key: string): string {
    LastGoodString(Values(ms, key))
  }

  // A nested struct field: objects given for it are decoded into the same struct, one after
  // the other.
  function Merged(vs: seq<Json>): Option<seq<Member>> {
    if vs == [] then Some([])
    else
      var last, earlier := Fields(vs[|vs| - 1]), Merged(vs[..|vs| - 1]);
      if last.None? || earlier.None? then None else Some(earlier.value + last.value)
  }

  function StructField(ms: seq<Member>, key: string): Option<seq<Member>> {
    Merged(Values(ms, key))
  }

  // A pointer to a struct: null resets it, objects are decoded into what it points to. The
  // outer None is an error, the inner one the nil pointer.
  function Pointed(vs: seq<Json>): Option<Option<seq<Member>>> {
    if vs == [] then Some(None)
    else
      var v, earlier := vs[|vs| - 1], Pointed(vs[..|vs| - 1]);
      if earlier.None? then None
      else if v.Null? then Some(None)
      else if v.Obj? then Some(Some((if earlier.value.Some? then earlier.value.value else []) + v.members))
      else None
  }

  function PointerField(ms: seq<Member>, key: string): Option<Option<seq<Member>>> {
    Pointed(Values(ms, key))
  }

  // A json.RawMessage field: the last value given, null included; None is the nil slice.
  function RawField(ms: seq<Member>, key: string): Option<Json> {
    var vs := Values(ms, key);
    if vs == [] then None else Some(vs[|vs| - 1])
  }

  // A slice field: null empties it, an array replaces it.
  function LastItems(vs: seq<Json>): Option<seq<Json>> {
    if vs == [] then Some([])
    else
      var v, earlier := vs[|vs| - 1], LastItems(vs[..|vs| - 1]);
      if earlier.None? then None
      else if v.Null? then Some([])
      else if v.Arr? then Some(v.items)
      else None
  }

  function SliceField(ms: seq<Member>, key: string): Option<seq<Json>> {
    LastItems(Values(ms, key))
  }

  // --- The same, read off the values ---------------------------------------------------------

  // s is the last string among the values.
  ghost predicate LastStringIs(vs: seq<Json>, s: string) {
    exists i | 0 <= i < |vs| :: vs[i] == Str(s) && forall k | i < k < |vs| :: !vs[k].Str?
  }

  /** A string field is an error unless all its values are strings or null, and then is the last
      string, or empty. */
  lemma {:induction false} LastStringIff(vs: seq<Json>, s: string)
    ensures LastString(vs) == Some(s) <==>
              && (forall i | 0 <= i < |vs| :: vs[i].Str? || vs[i].Null?)
              && (LastStringIs(vs, s) || (s == "" && forall i | 0 <= i < |vs| :: vs[i].Null?))
  {
    if vs != [] {
      var n := |vs| - 1;
      LastStringIff(vs[..n], s);
      assert forall i | 0 <= i < n :: vs[..n][i] == vs[i];
      if vs[n].Str? {
        if LastString(vs[..n]).Some? { LastStringIff(vs[..n], LastString(vs[..n]).value); }
        AllReadable(vs[..n]);
        if LastStringIs(vs, s) {
          var i :| 0 <= i < |vs| && vs[i] == Str(s) && forall k | i < k < |vs| :: !vs[k].Str?;
          assert i == n;
        }
      } else {
        assert LastStringIs(vs, s) <==> LastStringIs(vs[..n], s) by { NoStringLast(vs, s); }
      }
    }
  }

  lemma NoStringLast(vs: seq<Json>, s: string)
    requires vs != [] && !vs[|vs| - 1].Str?
    ensures LastStringIs(vs, s) <==> LastStringIs(vs[..|vs| - 1], s)
  {
    var n := |vs| - 1;
    if i :| 0 <= i < n && vs[..n][i] == Str(s) && forall k | i < k < n :: !vs[..n][k].Str? {
      forall k | i < k < |vs| ensures !vs[k].Str? {
        if k < n { assert vs[..n][k] == vs[k]; }
      }
      assert vs[i] == Str(s);
    }
    if i :| 0 <= i < |vs| && vs[i] == Str(s) && forall k | i < k < |vs| :: !vs[k].Str? {
      assert vs[..n][i] == Str(s);
      forall k | i < k < n ensures !vs[..n][k].Str? { assert vs[k] == vs[..n][k]; }
    }
  }

  // A string at the end is the last string.
  lemma StringLast(vs: seq<Json>, s: string)
    requires vs != [] && vs[|vs| - 1].Str?
    ensures LastStringIs(vs, s) <==> vs[|vs| - 1] == Str(s)
  {
    var n := |vs| - 1;
    if i :| 0 <= i < |vs| && vs[i] == Str(s) && forall k | i < k < |vs| :: !vs[k].Str? {
      assert i == n;
    }
  }

  lemma {:induction false} AllReadable(vs: seq<Json>)
    ensures LastString(vs).Some? <==> forall i | 0 <= i < |vs| :: vs[i].Str? || vs[i].Null?
  {
    if vs != [] {
      AllReadable(vs[..|vs| - 1]);
      assert forall i | 0 <= i < |vs| - 1 :: vs[..|vs| - 1][i] == vs[i];
    }
  }

  /** A slice field is an error unless all its values are arrays or null, and then is the last
      array, empty if that is null or nothing was given. */
  lemma {:induction false} LastItemsIff(vs: seq<Json>, items: seq<Json>)
    ensures LastItems(vs) == Some(items) <==>
              && (forall i | 0 <= i < |vs| :: vs[i].Arr? || vs[i].Null?)
              && items == if vs != [] && vs[|vs| - 1].Arr? then vs[|vs| - 1].items else []
  {
    if vs != [] {
      var front := vs[..|vs| - 1];
      LastItemsIff(front, if front != [] && front[|front| - 1].Arr? then front[|front| - 1].items else []);
      assert forall i | 0 <= i < |front| :: front[i] == vs[i];
      if LastItems(front).Some? { LastItemsIff(front, LastItems(front).value); }
    }
  }

  // The members of the objects, one after the other.
  ghost function Concat(vs: seq<Json>): seq<Member> {
    if vs == [] then []
    else Concat(vs[..|vs| - 1]) + (if vs[|vs| - 1].Obj? then vs[|vs| - 1].members else [])
  }

  /** A struct field is an error unless all its values are objects or null, and then holds the
      members of all the objects. */
  lemma {:induction false} MergedIff(vs: seq<Json>, m: seq<Member>)
    ensures Merged(vs) == Some(m) <==> (forall i | 0 <= i < |vs| :: vs[i].Obj? || vs[i].Null?) && m == Concat(vs)
  {
    if vs != [] {
      var front := vs[..|vs| - 1];
      MergedIff(front, Concat(front));
      if Merged(front).Some? { MergedIff(front, Merged(front).value); }
      assert forall i | 0 <= i < |front| :: front[i] == vs[i];
    }
  }

  /** A pointer to a struct is an error unless all its values are objects or null; it is nil if the
      last is null or nothing was given, and else holds the objects since the last null. */
  lemma {:induction false} PointedIff(vs: seq<Json>)
    ensures Pointed(vs).Some? <==> forall i | 0 <= i < |vs| :: vs[i].Obj? || vs[i].Null?
    ensures Pointed(vs).Some? && (vs == [] || vs[|vs| - 1].Null?) ==> Pointed(vs).value.None?
    ensures forall i | Pointed(vs).Some? && 0 <= i < |vs| && (i == 0 || vs[i - 1].Null?)
                       && forall k | i <= k < |vs| :: vs[k].Obj? ::
              Pointed(vs).value == Some(Concat(vs[i..]))
  {
    if vs != [] {
      var n := |vs| - 1;
      var front := vs[..n];
      PointedIff(front);
      assert forall k | 0 <= k < n :: front[k] == vs[k];
      forall i | Pointed(vs).Some? && 0 <= i < |vs| && (i == 0 || vs[i - 1].Null?)
                 && forall k | i <= k < |vs| :: vs[k].Obj?
        ensures Pointed(vs).value == Some(Concat(vs[i..]))
      {
        assert vs[i..][..|vs[i..]| - 1] == front[i..];
        if i == n {
          assert front[i..] == [] && Concat([]) == [];
          if n > 0 { assert front[|front| - 1].Null?; }
        }
      }
    }
  }

  // --- Editing an object ------------------------------------------------------------------

  // The object without the members of a field.
  function Without(ms: seq<Member>, key: string): seq<Member> {
    if ms == [] then []
    else (if SameKey(ms[0].key, key) then [] else [ms[0]]) + Without(ms[1..], key)
  }

  // The object with one member for the field, at the end.
  function With(ms: seq<Member>, key: string, value: Json): seq<Member> {
    Without(ms, key) + [Member(key, value)]
  }

  lemma {:induction false} ValuesAppend(a: seq<Member>, b: seq<Member>, key: string)
    ensures Values(a + b, key) == Values(a, key) + Values(b, key)
  {
    hide SameKey;
    if a == [] {
      assert a + b == b;
    } else {
      ValuesAppend(a[1..], b, key);
      var first := if SameKey(a[0].key, key) then [a[0].value] else [];
      assert (a + b)[0] == a[0] && (a + b)[1..] == a[1..] + b;
      assert first + (Values(a[1..], key) + Values(b, key)) == (first + Values(a[1..], key)) + Values(b, key);
    }
  }

  lemma {:induction false} ValuesWithout(ms: seq<Member>, key: string, other: string)
    ensures Values(Without(ms, key), other) == if SameKey(key, other) then [] else Values(ms, other)
  {
    if ms != [] {
      ValuesWithout(ms[1..], key, other);
      var kept := if SameKey(ms[0].key, key) then [] else [ms[0]];
      ValuesAppend(kept, Without(ms[1..], key), other);
      SameKeyIsAnEquivalence(ms[0].key, key, other);
      assert kept != [] ==> kept[1..] == [];
    }
  }

  lemma SameKeyIsAnEquivalence(a: string, b: string, c: string)
    ensures SameKey(a, a) && (SameKey(a, b) ==> SameKey(b, a)) && (SameKey(a, b) && SameKey(b, c) ==> SameKey(a, c))
    ensures SameKey(a, b) ==> (SameKey(a, c) <==> SameKey(b, c))
  {
  }

  /** Setting a field gives it exactly that value and leaves the others alone. */
  lemma ValuesWith(ms: seq<Member>, key: string, value: Json, other: string)
    ensures Values(With(ms, key, value), other) == if SameKey(key, other) then [value] else Values(ms, other)
  {
    ValuesAppend(Without(ms, key), [Member(key, value)], other);
    ValuesWithout(ms, key, other);
    assert [Member(key, value)][1..] == [];
  }

  // --- Trees that encoding/json can write and read back ------------------------------------

  // The nesting encoding/json accepts.
  const MAX_DEPTH: nat := 10000

  function Depth(j: Json): nat
    decreases j, 0
  {
    match j
    case Arr(items) => 1 + DepthOfItems(items)
    case Obj(members) => 1 + DepthOfMembers(members)
    case _ => 0
  }

  function DepthOfItems(items: seq<Json>): nat
    decreases items, 1
  {
    if items == [] then 0
    else
      var first, rest := Depth(items[0]), DepthOfItems(items[1..]);
      if first > rest then first else rest
  }

  function DepthOfMembers(ms: seq<Member>): nat
    decreases ms, 1
  {
    if ms == [] then 0
    else
      var first, rest := Depth(ms[0].value), DepthOfMembers(ms[1..]);
      if first > rest then first else rest
  }

  predicate IsDigit(c: char) {
    '0' <= c <= '9'
  }

  function SkipDigits(s: string): string {
    if s == "" || !IsDigit(s[0]) then s else SkipDigits(s[1..])
  }

  predicate ValidExponent(s: string) {
    s == "" ||
    (s[0] in "eE" &&
     var digits := if |s| > 1 && s[1] in "+-" then s[2..] else s[1..];
     digits != "" && IsDigit(digits[0]) && SkipDigits(digits) == "")
  }

  predicate ValidFraction(s: string) {
    if s != "" && s[0] == '.' then |s| > 1 && IsDigit(s[1]) && ValidExponent(SkipDigits(s[1..]))
    else ValidExponent(s)
  }

  // The number grammar (section 6 of RFC 8259).
  predicate ValidNumber(text: string) {
    var s := if text != "" && text[0] == '-' then text[1..] else text;
    s != "" && IsDigit(s[0]) && ValidFraction(if s[0] == '0' then s[1..] else SkipDigits(s))
  }

  // Every number in the tree is one.
  predicate NumbersValid(j: Json)
    decreases j, 0
  {
    match j
    case Number(text) => ValidNumber(text)
    case Arr(items) => forall i | 0 <= i < |items| :: NumbersValid(items[i])
    case Obj(members) => forall i | 0 <= i < |members| :: NumbersValid(members[i].value)
    case _ => true
  }
}
