/** `find_gaps` of goal/models.py: the parts of [start, end] that none of the
    given spans covers. */
module RangeGaps {
  import opened Spans

  /** Every span reaches into [start - 1, end + 1]: none lies wholly before
      the day before the window or wholly after the day after it. */
  predicate TouchesWindow(ranges: seq<Span>, start: int, end: int) {
    forall a :: a in ranges ==> Intersects(a, start - 1, end + 1)
  }

  /** What the loop of `find_gaps` appends when it reaches the sorted spans s
      with its cursor at cur. */
  ghost function GapsFrom(s: seq<Span>, cur: int, end: int): seq<Span>
  {
    if s == [] then (if end > cur - 1 then [Span(cur, end)] else [])
    else
      (if s[0].start > cur then [Span(cur, s[0].start - 1)] else [])
      + GapsFrom(s[1..], s[0].end + 1, end)
  }

  lemma GapsFromUnfold(s: seq<Span>, cur: int, end: int)
    requires s != []
    ensures GapsFrom(s, cur, end) ==
      (if s[0].start > cur then [Span(cur, s[0].start - 1)] else []) + GapsFrom(s[1..], s[0].end + 1, end)
  {
  }

  /** The shape of the input that `find_gaps` is given: sorted by start,
      any two different spans disjoint, none ending before cur - 1 or
      starting after end + 1. */
  ghost predicate Ready(s: seq<Span>, cur: int, end: int) {
    && SortedBy(s, StartOf)
    && AllWellFormed(s)
    && DistinctDisjoint(s)
    && (forall a :: a in s ==> a.end >= cur - 1 && a.start <= end + 1)
  }

  lemma ReadyTail(s: seq<Span>, cur: int, end: int)
    requires s != [] && Ready(s, cur, end)
    ensures Ready(s[1..], s[0].end + 1, end)
    ensures forall a :: a in s[1..] ==> a.start >= s[0].start
    ensures forall a :: a in s[1..] ==> a == s[0] || a.start > s[0].end
  {
    forall a | a in s[1..] ensures a.start >= s[0].start && (a == s[0] || a.start > s[0].end) {
      var k :| 0 <= k < |s[1..]| && s[1..][k] == a;
      assert StartOf(s[0]) <= StartOf(s[k + 1]);
      assert a in s && s[0] in s;
    }
    var t := s[1..];
    forall i, j | 0 <= i < j < |t| ensures StartOf(t[i]) <= StartOf(t[j]) {
      assert t[i] == s[i + 1] && t[j] == s[j + 1];
    }
    forall a, b | a in t && b in t && a != b ensures Disjoint(a, b) {
      assert a in s && b in s;
    }
  }

  /** Every gap is a proper sub-interval of [cur, end]. */
  lemma {:induction false} GapsInside(s: seq<Span>, cur: int, end: int)
    requires Ready(s, cur, end)
    ensures forall g :: g in GapsFrom(s, cur, end) ==> WellFormed(g) && cur <= g.start && g.end <= end
    decreases |s|
  {
    if s != [] {
      ReadyTail(s, cur, end);
      GapsInside(s[1..], s[0].end + 1, end);
      assert s[0] in s;
    }
  }

  /** Ascending, with at least one day between consecutive spans. */
  predicate Separated(gs: seq<Span>) {
    forall i, j :: 0 <= i < j < |gs| ==> gs[i].end + 1 < gs[j].start
  }

  lemma SeparatedCons(g: Span, tail: seq<Span>)
    requires Separated(tail)
    requires forall t :: t in tail ==> g.end + 1 < t.start
    ensures Separated([g] + tail)
  {
    var gs := [g] + tail;
    forall i, j | 0 <= i < j < |gs| ensures gs[i].end + 1 < gs[j].start {
      assert gs[j] == tail[j - 1];
      if i > 0 {
        assert gs[i] == tail[i - 1];
      } else {
        assert tail[j - 1] in tail;
      }
    }
  }

  /** Gaps come in ascending order with at least one covered day between
      consecutive ones. */
  lemma {:induction false} GapsSeparated(s: seq<Span>, cur: int, end: int)
    requires Ready(s, cur, end)
    ensures Separated(GapsFrom(s, cur, end))
    decreases |s|
  {
    if s != [] {
      var r := s[0];
      var tail := GapsFrom(s[1..], r.end + 1, end);
      ReadyTail(s, cur, end);
      GapsSeparated(s[1..], r.end + 1, end);
      GapsInside(s[1..], r.end + 1, end);
      GapsFromUnfold(s, cur, end);
      if r.start > cur {
        assert r in s;
        SeparatedCons(Span(cur, r.start - 1), tail);
        assert GapsFrom(s, cur, end) == [Span(cur, r.start - 1)] + tail;
      } else {
        assert [] + tail == tail;
        assert GapsFrom(s, cur, end) == tail;
      }
    }
  }

  lemma CoveredAppend(a: seq<Span>, b: seq<Span>, d: int)
    ensures CoveredBy(a + b, d) <==> CoveredBy(a, d) || CoveredBy(b, d)
  {
    if CoveredBy(a + b, d) {
      var g :| g in a + b && Contains(g, d);
      assert g in a || g in b;
    }
    if CoveredBy(a, d) {
      var g :| g in a && Contains(g, d);
      assert g in a + b;
    }
    if CoveredBy(b, d) {
      var g :| g in b && Contains(g, d);
      assert g in a + b;
    }
  }

  /** No span starting after d covers it. */
  lemma NotCoveredAfter(ss: seq<Span>, lo: int, d: int)
    requires forall a :: a in ss ==> a.start >= lo
    requires d < lo
    ensures !CoveredBy(ss, d)
  {
  }

  lemma CoveredSingle(g: Span, d: int)
    ensures CoveredBy([g], d) <==> Contains(g, d)
  {
    if Contains(g, d) {
      assert g in [g];
    }
  }

  /** Day d lies in a gap of s exactly when it lies in the stretch before
      the first span or in a gap of the rest. */
  lemma GapsCoverStep(s: seq<Span>, cur: int, end: int, d: int)
    requires s != []
    ensures CoveredBy(GapsFrom(s, cur, end), d) <==>
      (s[0].start > cur && cur <= d < s[0].start) || CoveredBy(GapsFrom(s[1..], s[0].end + 1, end), d)
  {
    var head := if s[0].start > cur then [Span(cur, s[0].start - 1)] else [];
    GapsFromUnfold(s, cur, end);
    CoveredAppend(head, GapsFrom(s[1..], s[0].end + 1, end), d);
    if s[0].start > cur {
      CoveredSingle(Span(cur, s[0].start - 1), d);
    }
  }

  lemma CoveredCons(s: seq<Span>, d: int)
    requires s != []
    ensures CoveredBy(s, d) <==> Contains(s[0], d) || CoveredBy(s[1..], d)
  {
    assert s == [s[0]] + s[1..];
    CoveredAppend([s[0]], s[1..], d);
    CoveredSingle(s[0], d);
  }

  /** A day no later than the end of the first span: it is in a gap exactly
      when it falls before that span. */
  lemma GapsExactFirst(s: seq<Span>, cur: int, end: int, d: int)
    requires Ready(s, cur, end) && s != []
    requires cur <= d <= s[0].end
    ensures CoveredBy(GapsFrom(s, cur, end), d) <==> !CoveredBy(s, d)
  {
    var r := s[0];
    GapsCoverStep(s, cur, end, d);
    CoveredCons(s, d);
    ReadyTail(s, cur, end);
    GapsInside(s[1..], r.end + 1, end);
    NotCoveredAfter(GapsFrom(s[1..], r.end + 1, end), r.end + 1, d);
    if d < r.start {
      NotCoveredAfter(s[1..], r.start, d);
    }
  }

  /** On [cur, end], day d lies in a gap exactly when no span covers it. */
  lemma {:induction false} GapsExactAt(s: seq<Span>, cur: int, end: int, d: int)
    requires Ready(s, cur, end)
    requires cur <= d <= end
    ensures CoveredBy(GapsFrom(s, cur, end), d) <==> !CoveredBy(s, d)
    decreases |s|
  {
    if s == [] {
      assert Span(cur, end) in GapsFrom(s, cur, end);
    } else if d <= s[0].end {
      GapsExactFirst(s, cur, end, d);
    } else {
      ReadyTail(s, cur, end);
      GapsExactAt(s[1..], s[0].end + 1, end, d);
      GapsCoverStep(s, cur, end, d);
      CoveredCons(s, d);
    }
  }

  lemma GapsExact(s: seq<Span>, cur: int, end: int)
    requires Ready(s, cur, end)
    ensures forall d :: cur <= d <= end ==> (CoveredBy(GapsFrom(s, cur, end), d) <==> !CoveredBy(s, d))
  {
    forall d | cur <= d <= end
      ensures CoveredBy(GapsFrom(s, cur, end), d) <==> !CoveredBy(s, d)
    {
      GapsExactAt(s, cur, end, d);
    }
  }

  /** Each gap is maximal: the day before and the day after it are covered,
      unless they fall outside [cur, end]. */
  lemma {:induction false} GapsMaximal(s: seq<Span>, cur: int, end: int)
    requires Ready(s, cur, end)
    ensures forall g :: g in GapsFrom(s, cur, end) && g.start > cur ==> CoveredBy(s, g.start - 1)
    ensures forall g :: g in GapsFrom(s, cur, end) && g.end < end ==> CoveredBy(s, g.end + 1)
    decreases |s|
  {
    if s != [] {
      var r := s[0];
      var t := s[1..];
      assert r in s;
      assert Contains(r, r.start) && Contains(r, r.end);
      ReadyTail(s, cur, end);
      GapsMaximal(t, r.end + 1, end);
      GapsInside(t, r.end + 1, end);
      forall a | a in t ensures a in s {}
    }
  }

  /** The gaps of [start, end] left by ranges, in the order `find_gaps`
      produces them. */
  ghost function Gaps(ranges: seq<Span>, start: int, end: int): seq<Span> {
    GapsFrom(SortBy(ranges, StartOf), start, end)
  }

  /** For pairwise disjoint spans, Gaps lists in ascending order the
      maximal sub-intervals of [start, end] that no span covers. */
  lemma GapsMeaning(ranges: seq<Span>, start: int, end: int)
    requires AllWellFormed(ranges) && DistinctDisjoint(ranges)
    requires TouchesWindow(ranges, start, end)
    ensures forall g :: g in Gaps(ranges, start, end) ==> WellFormed(g) && Within(g, start, end)
    ensures forall d :: start <= d <= end ==> (CoveredBy(Gaps(ranges, start, end), d) <==> !CoveredBy(ranges, d))
    ensures Separated(Gaps(ranges, start, end))
    ensures forall g :: g in Gaps(ranges, start, end) && g.start > start ==> CoveredBy(ranges, g.start - 1)
    ensures forall g :: g in Gaps(ranges, start, end) && g.end < end ==> CoveredBy(ranges, g.end + 1)
  {
    var sorted := SortBy(ranges, StartOf);
    SortedReady(ranges, start, end);
    CoveredByPermutation(ranges, sorted);
    GapsInside(sorted, start, end);
    GapsSeparated(sorted, start, end);
    GapsExact(sorted, start, end);
    GapsMaximal(sorted, start, end);
  }

  lemma SortedReady(ranges: seq<Span>, start: int, end: int)
    requires AllWellFormed(ranges) && DistinctDisjoint(ranges)
    requires TouchesWindow(ranges, start, end)
    ensures Ready(SortBy(ranges, StartOf), start, end)
  {
    var sorted := SortBy(ranges, StartOf);
    SortBySorted(ranges, StartOf);
    SameMembers(ranges, sorted);
    forall a | a in sorted ensures a in ranges && Intersects(a, start - 1, end + 1) {}
  }

  /** The loop of `find_gaps` as an accumulating walk: acc holds the gaps
      emitted before the cursor reached s. */
  ghost function Walk(s: seq<Span>, cur: int, end: int, acc: seq<Span>): seq<Span>
  {
    if s == [] then acc + (if end > cur - 1 then [Span(cur, end)] else [])
    else Walk(s[1..], s[0].end + 1, end, acc + (if s[0].start > cur then [Span(cur, s[0].start - 1)] else []))
  }

  lemma {:induction false} WalkIsGaps(s: seq<Span>, cur: int, end: int, acc: seq<Span>)
    ensures Walk(s, cur, end, acc) == acc + GapsFrom(s, cur, end)
    decreases |s|
  {
    if s != [] {
      var head := if s[0].start > cur then [Span(cur, s[0].start - 1)] else [];
      var rest := GapsFrom(s[1..], s[0].end + 1, end);
      WalkIsGaps(s[1..], s[0].end + 1, end, acc + head);
      assert (acc + head) + rest == acc + (head + rest);
    }
  }

  /** `find_gaps`: a cursor walks the spans in order of start, emitting the
      stretch before each span that starts past it, then the stretch after
      the last one. */
  method FindGaps(ranges: seq<Span>, start: int, end: int) returns (gaps: seq<Span>)
    ensures gaps == Gaps(ranges, start, end)
  {
    var sorted := SortBy(ranges, StartOf);
    gaps := [];
    var cur := start;
    var i := 0;
    assert sorted[0..] == sorted;
    while i < |sorted|
      invariant 0 <= i <= |sorted|
      invariant Walk(sorted[i..], cur, end, gaps) == Walk(sorted, start, end, [])
    {
      var r := sorted[i];
      assert sorted[i..][0] == r && sorted[i..][1..] == sorted[i + 1..];
      if r.start > cur {
        gaps := gaps + [Span(cur, r.start - 1)];
      } else {
        assert gaps + [] == gaps;
      }
      cur := r.end + 1;
      i := i + 1;
    }
    if end > cur - 1 {
      gaps := gaps + [Span(cur, end)];
    } else {
      assert gaps + [] == gaps;
    }
    WalkIsGaps(sorted, start, end, []);
    assert [] + GapsFrom(sorted, start, end) == GapsFrom(sorted, start, end);
  }
}
