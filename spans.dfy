/** Inclusive day spans [start, end] over ordinal days, the relations between
    them that the range engine relies on, and Python's `sorted(xs, key=...)`
    as a stable insertion sort on an integer key. */
module Spans {

  datatype Span = Span(start: int, end: int)

  predicate WellFormed(s: Span) {
    s.start <= s.end
  }

  predicate Contains(s: Span, d: int) {
    s.start <= d <= s.end
  }

  /** The closed spans s and [lo, hi] share at least one day. */
  predicate Intersects(s: Span, lo: int, hi: int) {
    s.start <= hi && s.end >= lo
  }

  predicate Within(s: Span, lo: int, hi: int) {
    lo <= s.start && s.end <= hi
  }

  predicate Disjoint(a: Span, b: Span) {
    a.end < b.start || b.end < a.start
  }

  /** Any two different spans of ss share no day. */
  predicate DistinctDisjoint(ss: seq<Span>) {
    forall a, b :: a in ss && b in ss && a != b ==> Disjoint(a, b)
  }

  predicate AllWellFormed(ss: seq<Span>) {
    forall a :: a in ss ==> WellFormed(a)
  }

  /** Some span of ss contains day d. */
  predicate CoveredBy(ss: seq<Span>, d: int) {
    exists a :: a in ss && Contains(a, d)
  }

  function StartOf(s: Span): int {
    s.start
  }

  // ---------------------------------------------------------------------
  // Sorting by an integer key

  predicate SortedBy<T>(s: seq<T>, key: T -> int) {
    forall i, j :: 0 <= i < j < |s| ==> key(s[i]) <= key(s[j])
  }

  /** Inserts x before the first element whose key is not smaller. */
  function Insert<T>(x: T, s: seq<T>, key: T -> int): (r: seq<T>)
    ensures multiset(r) == multiset(s) + multiset{x}
    ensures |r| == |s| + 1
  {
    if s == [] then [x]
    else if key(x) <= key(s[0]) then [x] + s
    else
      assert s == [s[0]] + s[1..];
      [s[0]] + Insert(x, s[1..], key)
  }

  /** `sorted(s, key=key)`. */
  function SortBy<T>(s: seq<T>, key: T -> int): (r: seq<T>)
    ensures multiset(r) == multiset(s)
    ensures |r| == |s|
  {
    if s == [] then []
    else
      assert s == [s[0]] + s[1..];
      Insert(s[0], SortBy(s[1..], key), key)
  }

  lemma {:induction false} InsertSorted<T>(x: T, s: seq<T>, key: T -> int)
    requires SortedBy(s, key)
    ensures SortedBy(Insert(x, s, key), key)
  {
    if s != [] && key(x) > key(s[0]) {
      InsertSorted(x, s[1..], key);
      var t := Insert(x, s[1..], key);
      forall i | 0 <= i < |t| ensures key(s[0]) <= key(t[i]) {
        assert t[i] in multiset(t);
        assert t[i] in multiset(s[1..]) + multiset{x};
        if t[i] != x {
          assert t[i] in s[1..];
          var k :| 0 <= k < |s[1..]| && s[1..][k] == t[i];
          assert s[k + 1] == t[i];
        }
      }
    }
  }

  lemma {:induction false} SortBySorted<T>(s: seq<T>, key: T -> int)
    ensures SortedBy(SortBy(s, key), key)
  {
    if s != [] {
      SortBySorted(s[1..], key);
      InsertSorted(s[0], SortBy(s[1..], key), key);
    }
  }

  /** A permutation keeps exactly the same members. */
  lemma SameMembers<T>(a: seq<T>, b: seq<T>)
    requires multiset(a) == multiset(b)
    ensures forall x :: x in a <==> x in b
  {
    forall x ensures x in a <==> x in b {
      assert x in a <==> x in multiset(a);
      assert x in b <==> x in multiset(b);
    }
  }

  /** A permutation covers exactly the same days. */
  lemma CoveredByPermutation(a: seq<Span>, b: seq<Span>)
    requires multiset(a) == multiset(b)
    ensures forall d :: CoveredBy(a, d) <==> CoveredBy(b, d)
  {
    SameMembers(a, b);
  }
}
