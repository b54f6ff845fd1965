/** Go's string order and the stable sorts built on it. Go compares strings byte by
    byte; on valid UTF-8 that is the order of the code points used here. */
module Ordering {

  predicate Less(a: string, b: string) {
    b != "" && (a == "" || a[0] < b[0] || (a[0] == b[0] && Less(a[1..], b[1..])))
  }

  lemma {:induction false} LessIsTotal(a: string, b: string)
    ensures a == b || Less(a, b) || Less(b, a)
  {
    if a != "" && b != "" && a[0] == b[0] {
      LessIsTotal(a[1..], b[1..]);
      assert a == [a[0]] + a[1..] && b == [b[0]] + b[1..];
    }
  }

  lemma {:induction false} LessIsAsymmetric(a: string, b: string)
    requires Less(a, b)
    ensures !Less(b, a) && a != b
  {
    if a != "" && a[0] == b[0] {
      LessIsAsymmetric(a[1..], b[1..]);
    }
  }

  lemma {:induction false} LessIsTransitive(a: string, b: string, c: string)
    requires Less(a, b) && Less(b, c)
    ensures Less(a, c)
  {
    if a != "" && a[0] == b[0] == c[0] {
      LessIsTransitive(a[1..], b[1..], c[1..]);
    }
  }

  // Negated form, the one the sorts use: "not after" is transitive as well.
  lemma NotAfterIsTransitive(a: string, b: string, c: string)
    requires !Less(b, a) && !Less(c, b)
    ensures !Less(c, a)
  {
    LessIsTotal(a, b);
    LessIsTotal(b, c);
    if Less(c, a) {
      if a == b || b == c {
      } else {
        LessIsTransitive(a, b, c);
        LessIsAsymmetric(a, c);
      }
    }
  }

  // --- Stable sorting by a string key -------------------------------------------

  ghost predicate SortedBy<T>(key: T -> string, xs: seq<T>) {
    forall i, j | 0 <= i < j < |xs| :: !Less(key(xs[j]), key(xs[i]))
  }

  // The elements carrying one key, in their order of appearance.
  ghost function WithKey<T>(key: T -> string, k: string, xs: seq<T>): seq<T> {
    if xs == [] then []
    else (if key(xs[0]) == k then [xs[0]] else []) + WithKey(key, k, xs[1..])
  }

  // ys is xs sorted by key and stable: per key, the same elements in the same order.
  ghost predicate IsStableSortOf<T>(key: T -> string, ys: seq<T>, xs: seq<T>) {
    SortedBy(key, ys) && forall k :: WithKey(key, k, ys) == WithKey(key, k, xs)
  }

  lemma {:induction false} WithKeyAppend<T>(key: T -> string, k: string, xs: seq<T>, ys: seq<T>)
    ensures WithKey(key, k, xs + ys) == WithKey(key, k, xs) + WithKey(key, k, ys)
  {
    if xs == [] {
      assert xs + ys == ys;
    } else {
      assert (xs + ys)[0] == xs[0] && (xs + ys)[1..] == xs[1..] + ys;
      WithKeyAppend(key, k, xs[1..], ys);
      var h := if key(xs[0]) == k then [xs[0]] else [];
      assert WithKey(key, k, xs) == h + WithKey(key, k, xs[1..]);
      assert WithKey(key, k, xs + ys) == h + (WithKey(key, k, xs[1..]) + WithKey(key, k, ys));
    }
  }

  lemma {:induction false} WithKeyMember<T>(key: T -> string, k: string, xs: seq<T>, x: T)
    ensures x in WithKey(key, k, xs) <==> x in xs && key(x) == k
  {
    if xs != [] {
      WithKeyMember(key, k, xs[1..], x);
      assert xs == [xs[0]] + xs[1..];
    }
  }

  // sort.SliceStable and sort.Strings: insertion from the left, equal keys keep order.
  function Insert<T>(key: T -> string, xs: seq<T>, x: T): seq<T> {
    if xs == [] || !Less(key(x), key(xs[|xs| - 1])) then xs + [x]
    else Insert(key, xs[..|xs| - 1], x) + [xs[|xs| - 1]]
  }

  function StableSort<T>(key: T -> string, xs: seq<T>): seq<T> {
    if xs == [] then [] else Insert(key, StableSort(key, xs[..|xs| - 1]), xs[|xs| - 1])
  }

  lemma {:induction false} InsertKeepsElements<T>(key: T -> string, xs: seq<T>, x: T)
    ensures multiset(Insert(key, xs, x)) == multiset(xs) + multiset{x}
  {
    if xs != [] && Less(key(x), key(xs[|xs| - 1])) {
      InsertKeepsElements(key, xs[..|xs| - 1], x);
      assert xs == xs[..|xs| - 1] + [xs[|xs| - 1]];
    }
  }

  lemma {:induction false} InsertSorts<T>(key: T -> string, xs: seq<T>, x: T)
    requires SortedBy(key, xs)
    ensures SortedBy(key, Insert(key, xs, x))
  {
    if xs == [] || !Less(key(x), key(xs[|xs| - 1])) {
      forall i | 0 <= i < |xs| ensures !Less(key(x), key(xs[i])) {
        if i < |xs| - 1 { NotAfterIsTransitive(key(xs[i]), key(xs[|xs| - 1]), key(x)); }
      }
    } else {
      var last := xs[|xs| - 1];
      var front := xs[..|xs| - 1];
      assert xs == front + [last];
      InsertSorts(key, front, x);
      LessIsAsymmetric(key(x), key(last));
      var r := Insert(key, front, x);
      InsertKeepsElements(key, front, x);
      forall i | 0 <= i < |r| ensures !Less(key(last), key(r[i])) {
        assert r[i] in multiset(r);
        assert r[i] == x || r[i] in front;
      }
    }
  }

  lemma {:induction false} InsertIsStable<T>(key: T -> string, xs: seq<T>, x: T, k: string)
    requires SortedBy(key, xs)
    ensures WithKey(key, k, Insert(key, xs, x)) == WithKey(key, k, xs) + WithKey(key, k, [x])
  {
    if xs == [] || !Less(key(x), key(xs[|xs| - 1])) {
      WithKeyAppend(key, k, xs, [x]);
    } else {
      var last := xs[|xs| - 1];
      var front := xs[..|xs| - 1];
      assert xs == front + [last];
      InsertIsStable(key, front, x, k);
      WithKeyAppend(key, k, front, [last]);
      WithKeyAppend(key, k, Insert(key, front, x), [last]);
      LessIsAsymmetric(key(x), key(last));
    }
  }

  lemma {:induction false} StableSortIsStableSort<T>(key: T -> string, xs: seq<T>)
    ensures IsStableSortOf(key, StableSort(key, xs), xs)
    ensures multiset(StableSort(key, xs)) == multiset(xs)
  {
    if xs != [] {
      var front, last := xs[..|xs| - 1], xs[|xs| - 1];
      assert xs == front + [last];
      StableSortIsStableSort(key, front);
      InsertKeepsElements(key, StableSort(key, front), last);
      InsertSorts(key, StableSort(key, front), last);
      forall k ensures WithKey(key, k, StableSort(key, xs)) == WithKey(key, k, xs) {
        InsertIsStable(key, StableSort(key, front), last, k);
        WithKeyAppend(key, k, front, [last]);
      }
    }
  }

  // A sorted head carries the least key, so it heads its own key class.
  lemma HeadOfSorted<T>(key: T -> string, xs: seq<T>, x: T)
    requires SortedBy(key, xs) && x in xs
    ensures !Less(key(x), key(xs[0]))
    ensures WithKey(key, key(xs[0]), xs)[0] == xs[0]
  {
    if Less(key(x), key(xs[0])) {
      LessIsAsymmetric(key(x), key(xs[0]));
    }
  }

  /** Sortedness and the per-key contents leave no freedom at all: the sequence is determined. */
  lemma {:induction false} SortedIsDetermined<T>(key: T -> string, xs: seq<T>, ys: seq<T>)
    requires SortedBy(key, xs) && SortedBy(key, ys)
    requires forall k :: WithKey(key, k, xs) == WithKey(key, k, ys)
    ensures xs == ys
  {
    if xs == [] {
    } else {
      var k := key(xs[0]);
      WithKeyMember(key, k, xs, xs[0]);
      WithKeyMember(key, k, ys, xs[0]);
      var k' := key(ys[0]);
      WithKeyMember(key, k', ys, ys[0]);
      WithKeyMember(key, k', xs, ys[0]);
      HeadOfSorted(key, xs, ys[0]);
      HeadOfSorted(key, ys, xs[0]);
      LessIsTotal(k, k');
      assert xs[0] == ys[0];
      forall c ensures WithKey(key, c, xs[1..]) == WithKey(key, c, ys[1..]) {
        var h := if k == c then [xs[0]] else [];
        assert WithKey(key, c, xs) == h + WithKey(key, c, xs[1..]);
        assert WithKey(key, c, ys) == h + WithKey(key, c, ys[1..]);
        assert WithKey(key, c, xs)[|h|..] == WithKey(key, c, xs[1..]);
        assert WithKey(key, c, ys)[|h|..] == WithKey(key, c, ys[1..]);
      }
      SortedIsDetermined(key, xs[1..], ys[1..]);
      assert xs == [xs[0]] + xs[1..] && ys == [ys[0]] + ys[1..];
    }
  }

  // --- Sorted key sets -----------------------------------------------------------

  function Self(s: string): string { s }

  ghost predicate StrictlySorted(xs: seq<string>) {
    forall i, j | 0 <= i < j < |xs| :: Less(xs[i], xs[j])
  }

  // xs lists the set ks in increasing order, each member once.
  ghost predicate Lists(xs: seq<string>, ks: set<string>) {
    StrictlySorted(xs) && forall x :: x in xs <==> x in ks
  }

  lemma {:induction false} WithKeyOfDistinct(xs: seq<string>, k: string)
    requires forall i, j | 0 <= i < j < |xs| :: xs[i] != xs[j]
    ensures WithKey(Self, k, xs) == if k in xs then [k] else []
  {
    if xs != [] {
      WithKeyOfDistinct(xs[1..], k);
      assert xs == [xs[0]] + xs[1..];
    }
  }

  /** Whatever order a map is walked in, sorting the distinct keys gives one sequence. */
  lemma SortListsTheSet(xs: seq<string>, ks: set<string>)
    requires forall i, j | 0 <= i < j < |xs| :: xs[i] != xs[j]
    requires forall x :: x in xs <==> x in ks
    ensures Lists(StableSort(Self, xs), ks)
  {
    StableSortIsStableSort(Self, xs);
    var ys := StableSort(Self, xs);
    forall x ensures x in ys <==> x in xs {
      WithKeyMember(Self, x, ys, x);
      WithKeyMember(Self, x, xs, x);
    }
    forall k ensures |WithKey(Self, k, ys)| <= 1 {
      WithKeyOfDistinct(xs, k);
    }
    AtMostOncePerKey(ys);
    forall i, j | 0 <= i < j < |ys| ensures Less(ys[i], ys[j]) {
      LessIsTotal(ys[i], ys[j]);
    }
  }

  lemma {:induction false} AtMostOncePerKey(ys: seq<string>)
    requires forall k :: |WithKey(Self, k, ys)| <= 1
    ensures forall i, j | 0 <= i < j < |ys| :: ys[i] != ys[j]
  {
    if ys != [] {
      var rest := ys[1..];
      forall k ensures |WithKey(Self, k, rest)| <= 1 {
        assert |WithKey(Self, k, ys)| <= 1;
      }
      AtMostOncePerKey(rest);
      forall j | 1 <= j < |ys| ensures ys[0] != ys[j] {
        WithKeyMember(Self, ys[0], rest, rest[j - 1]);
        assert |WithKey(Self, ys[0], ys)| <= 1;
      }
    }
  }

  lemma ListingIsUnique(xs: seq<string>, ys: seq<string>, ks: set<string>)
    requires Lists(xs, ks) && Lists(ys, ks)
    ensures xs == ys
  {
    StrictIsSorted(xs);
    StrictIsSorted(ys);
    forall k ensures WithKey(Self, k, xs) == WithKey(Self, k, ys) {
      WithKeyOfDistinct(xs, k);
      WithKeyOfDistinct(ys, k);
    }
    SortedIsDetermined(Self, xs, ys);
  }

  lemma StrictIsSorted(xs: seq<string>)
    requires StrictlySorted(xs)
    ensures SortedBy(Self, xs)
    ensures forall i, j | 0 <= i < j < |xs| :: xs[i] != xs[j]
  {
    forall i, j | 0 <= i < j < |xs| ensures !Less(xs[j], xs[i]) && xs[i] != xs[j] {
      LessIsAsymmetric(xs[i], xs[j]);
    }
  }
}
