/** The spans `add_new_range` (goal/models.py) produces for a window [s, e]:
    each overlapping range is cut into a left, a middle and a right piece,
    and the parts of the window no piece covers are filled by `find_gaps`.
    Everything here is on spans of ordinal days; the store is elsewhere. */
module RangePlan {
  import opened Spans
  import opened RangeGaps

  function Min(a: int, b: int): int {
    if a <= b then a else b
  }

  /** The left, middle and right pieces of r for the window [s, e]: the left
      one only when r starts before s, the middle one only when it is longer
      than a day, the right one only when r ends after e. */
  function PieceSpans(r: Span, s: int, e: int): seq<Span> {
    var left := if r.start < s then [Span(r.start, s - 1)] else [];
    var ms := if r.start <= s then s else r.start;
    var len := Min(r.end - ms, e - ms);
    var middle := if len > 0 then [Span(ms, ms + len)] else [];
    var right := if r.end > e then [Span(e + 1, r.end)] else [];
    left + middle + right
  }

  /** `filled_ranges`: the pieces of every overlapping range, in order. */
  function Filled(ov: seq<Span>, s: int, e: int): seq<Span> {
    if ov == [] then [] else Filled(ov[..|ov| - 1], s, e) + PieceSpans(ov[|ov| - 1], s, e)
  }

  lemma FilledSnoc(ov: seq<Span>, r: Span, s: int, e: int)
    ensures Filled(ov + [r], s, e) == Filled(ov, s, e) + PieceSpans(r, s, e)
  {
    assert (ov + [r])[..|ov|] == ov;
  }

  /** The spans of the ranges `add_new_range` returns: the pieces, then the
      gap fills. */
  ghost function Planned(ov: seq<Span>, s: int, e: int): seq<Span> {
    Filled(ov, s, e) + Gaps(Filled(ov, s, e), s, e)
  }

  /** Each element ends before the next one starts. */
  predicate Ascending(ss: seq<Span>) {
    forall i, j :: 0 <= i < j < |ss| ==> ss[i].end < ss[j].start
  }

  /** What the overlap query yields on a consistent store: well-formed spans,
      pairwise disjoint by position, each meeting the window. */
  predicate Overlapping(ov: seq<Span>, s: int, e: int) {
    && AllWellFormed(ov)
    && (forall i, j :: 0 <= i < |ov| && 0 <= j < |ov| && i != j ==> Disjoint(ov[i], ov[j]))
    && (forall r :: r in ov ==> Intersects(r, s, e))
  }

  /** Some span of ss inside [s, e] contains day d. */
  predicate CoveredInside(ss: seq<Span>, s: int, e: int, d: int) {
    exists q :: q in ss && Within(q, s, e) && Contains(q, d)
  }

  /** A piece lies on one side of the window or inside it. */
  predicate Sided(p: Span, s: int, e: int) {
    Within(p, s, e) || p.end < s || p.start > e
  }

  // ---------------------------------------------------------------------
  // One range

  /** The pieces of r are well-formed, ascending, inside r, each on one side
      of the window or inside it, and only the left ones reach before s and
      only the right ones past e. */
  lemma PieceShape(r: Span, s: int, e: int)
    requires WellFormed(r) && Intersects(r, s, e) && s <= e
    ensures forall p :: p in PieceSpans(r, s, e) ==> WellFormed(p) && Within(p, r.start, r.end) && Sided(p, s, e)
    ensures forall p :: p in PieceSpans(r, s, e) ==> Intersects(p, s - 1, e + 1)
    ensures Ascending(PieceSpans(r, s, e))
  {
  }

  /** Every day of r lies in one of its pieces, except the one day of the
      window r meets when it meets the window in a single day. */
  lemma PieceCover(r: Span, s: int, e: int, d: int)
    requires WellFormed(r) && Intersects(r, s, e) && s <= e
    requires Contains(r, d)
    ensures CoveredBy(PieceSpans(r, s, e), d) || (s <= d <= e && Min(r.end, e) - (if r.start <= s then s else r.start) == 0)
  {
    var ps := PieceSpans(r, s, e);
    var ms := if r.start <= s then s else r.start;
    if d < s {
      assert Span(r.start, s - 1) in ps;
    } else if d > e {
      assert Span(e + 1, r.end) in ps;
    } else if Min(r.end, e) - ms > 0 {
      assert Span(ms, ms + Min(r.end - ms, e - ms)) in ps;
    }
  }

  // ---------------------------------------------------------------------
  // All overlapping ranges

  lemma OverlappingFront(ov: seq<Span>, s: int, e: int)
    requires ov != [] && Overlapping(ov, s, e)
    ensures Overlapping(ov[..|ov| - 1], s, e)
  {
    var f := ov[..|ov| - 1];
    forall i, j | 0 <= i < |f| && 0 <= j < |f| && i != j ensures Disjoint(f[i], f[j]) {
      assert f[i] == ov[i] && f[j] == ov[j];
    }
  }

  /** Every piece lies inside one of the ranges that produced it. */
  lemma {:induction false} FilledWithin(ov: seq<Span>, s: int, e: int)
    requires Overlapping(ov, s, e) && s <= e
    ensures forall p :: p in Filled(ov, s, e) ==> exists k :: 0 <= k < |ov| && Within(p, ov[k].start, ov[k].end)
    ensures forall p :: p in Filled(ov, s, e) ==> WellFormed(p) && Sided(p, s, e) && Intersects(p, s - 1, e + 1)
    decreases |ov|
  {
    if ov != [] {
      var n := |ov| - 1;
      OverlappingFront(ov, s, e);
      FilledWithin(ov[..n], s, e);
      assert ov[n] in ov;
      PieceShape(ov[n], s, e);
      forall p | p in Filled(ov, s, e) ensures exists k :: 0 <= k < |ov| && Within(p, ov[k].start, ov[k].end) {
        if p in Filled(ov[..n], s, e) {
          var k :| 0 <= k < n && Within(p, ov[..n][k].start, ov[..n][k].end);
          assert ov[..n][k] == ov[k];
        } else {
          assert p in PieceSpans(ov[n], s, e);
        }
      }
      forall p | p in Filled(ov, s, e) ensures WellFormed(p) && Sided(p, s, e) && Intersects(p, s - 1, e + 1) {
        if p !in Filled(ov[..n], s, e) {
          assert p in PieceSpans(ov[n], s, e);
        }
      }
    }
  }

  lemma DisjointInside(p: Span, q: Span, a: Span, b: Span)
    requires Within(p, a.start, a.end) && Within(q, b.start, b.end) && Disjoint(a, b)
    ensures Disjoint(p, q)
  {
  }

  /** Any two different pieces share no day. */
  lemma {:induction false} FilledDisjoint(ov: seq<Span>, s: int, e: int)
    requires Overlapping(ov, s, e) && s <= e
    ensures DistinctDisjoint(Filled(ov, s, e))
    decreases |ov|
  {
    if ov != [] {
      var n := |ov| - 1;
      var front := Filled(ov[..n], s, e);
      var last := PieceSpans(ov[n], s, e);
      OverlappingFront(ov, s, e);
      FilledDisjoint(ov[..n], s, e);
      FilledWithin(ov[..n], s, e);
      assert ov[n] in ov;
      PieceShape(ov[n], s, e);
      forall a, b | a in front + last && b in front + last && a != b ensures Disjoint(a, b) {
        if a in last && b in last {
          var i :| 0 <= i < |last| && last[i] == a;
          var j :| 0 <= j < |last| && last[j] == b;
          assert i != j;
        } else if a in last && b in front {
          var k :| 0 <= k < n && Within(b, ov[..n][k].start, ov[..n][k].end);
          assert ov[..n][k] == ov[k];
          DisjointInside(a, b, ov[n], ov[k]);
        } else if a in front && b in last {
          var k :| 0 <= k < n && Within(a, ov[..n][k].start, ov[..n][k].end);
          assert ov[..n][k] == ov[k];
          DisjointInside(a, b, ov[k], ov[n]);
        }
      }
    }
  }

  /** The pieces are a valid input for `find_gaps` on the window. */
  lemma FilledReady(ov: seq<Span>, s: int, e: int)
    requires Overlapping(ov, s, e) && s <= e
    ensures AllWellFormed(Filled(ov, s, e))
    ensures DistinctDisjoint(Filled(ov, s, e))
    ensures TouchesWindow(Filled(ov, s, e), s, e)
  {
    FilledWithin(ov, s, e);
    FilledDisjoint(ov, s, e);
  }

  /** Each planned span lies before, inside or after the window. */
  lemma PlannedSided(ov: seq<Span>, s: int, e: int)
    requires Overlapping(ov, s, e) && s <= e
    ensures forall q :: q in Planned(ov, s, e) ==> WellFormed(q) && Sided(q, s, e)
  {
    FilledReady(ov, s, e);
    FilledWithin(ov, s, e);
    GapsMeaning(Filled(ov, s, e), s, e);
  }

  /** Every day of the window lies in a planned span inside the window. */
  lemma PlannedCoversWindow(ov: seq<Span>, s: int, e: int)
    requires Overlapping(ov, s, e) && s <= e
    ensures forall d :: s <= d <= e ==> CoveredInside(Planned(ov, s, e), s, e, d)
  {
    var f := Filled(ov, s, e);
    FilledReady(ov, s, e);
    FilledWithin(ov, s, e);
    GapsMeaning(f, s, e);
    forall d | s <= d <= e ensures CoveredInside(Planned(ov, s, e), s, e, d) {
      if CoveredBy(f, d) {
        var p :| p in f && Contains(p, d);
        assert p in Planned(ov, s, e);
      } else {
        var g :| g in Gaps(f, s, e) && Contains(g, d);
        assert g in Planned(ov, s, e);
      }
    }
  }

  /** The planned spans cover exactly the days of the overlapping ranges and
      of the window. */
  lemma PlannedCoversExactly(ov: seq<Span>, s: int, e: int)
    requires Overlapping(ov, s, e) && s <= e
    ensures forall d :: CoveredBy(Planned(ov, s, e), d) <==> CoveredBy(ov, d) || s <= d <= e
  {
    var f := Filled(ov, s, e);
    FilledReady(ov, s, e);
    FilledWithin(ov, s, e);
    GapsMeaning(f, s, e);
    PlannedCoversWindow(ov, s, e);
    forall d ensures CoveredBy(Planned(ov, s, e), d) <==> CoveredBy(ov, d) || s <= d <= e {
      if CoveredBy(Planned(ov, s, e), d) && !(s <= d <= e) {
        var q :| q in Planned(ov, s, e) && Contains(q, d);
        if q in f {
          var k :| 0 <= k < |ov| && Within(q, ov[k].start, ov[k].end);
          assert ov[k] in ov && Contains(ov[k], d);
        }
      }
      if CoveredBy(ov, d) && !(s <= d <= e) {
        var r :| r in ov && Contains(r, d);
        PieceCover(r, s, e, d);
        var p :| p in PieceSpans(r, s, e) && Contains(p, d);
        FilledHasPieces(ov, s, e, r);
        assert p in Planned(ov, s, e);
      }
      if s <= d <= e {
        assert CoveredInside(Planned(ov, s, e), s, e, d);
      }
    }
  }

  lemma {:induction false} FilledHasPieces(ov: seq<Span>, s: int, e: int, r: Span)
    requires r in ov
    ensures forall p :: p in PieceSpans(r, s, e) ==> p in Filled(ov, s, e)
    decreases |ov|
  {
    var n := |ov| - 1;
    if ov[n] != r {
      assert r in ov[..n];
      FilledHasPieces(ov[..n], s, e, r);
    }
  }

  /** A span inside the window and longer than a day is its own only
      piece. */
  lemma PieceInside(q: Span, s: int, e: int)
    requires Within(q, s, e) && q.start < q.end
    ensures PieceSpans(q, s, e) == [q]
  {
  }

  /** Spans inside the window, each longer than a day, are cut into
      themselves. */
  lemma {:induction false} FilledInside(ov: seq<Span>, s: int, e: int)
    requires forall q :: q in ov ==> Within(q, s, e) && q.start < q.end
    ensures Filled(ov, s, e) == ov
    decreases |ov|
  {
    if ov != [] {
      LastInside(ov, s, e);
      FilledInside(ov[..|ov| - 1], s, e);
    }
  }

  lemma LastInside(ov: seq<Span>, s: int, e: int)
    requires ov != [] && forall q :: q in ov ==> Within(q, s, e) && q.start < q.end
    ensures forall q :: q in ov[..|ov| - 1] ==> Within(q, s, e) && q.start < q.end
    ensures PieceSpans(ov[|ov| - 1], s, e) == [ov[|ov| - 1]]
    ensures ov[..|ov| - 1] + [ov[|ov| - 1]] == ov
  {
    assert ov[|ov| - 1] in ov;
    PieceInside(ov[|ov| - 1], s, e);
    assert ov[..|ov| - 1] + [ov[|ov| - 1]] == ov;
  }

  /** Pairwise disjoint spans that cover every day of the window leave no
      gap in it. */
  lemma NoGaps(ranges: seq<Span>, s: int, e: int)
    requires AllWellFormed(ranges) && DistinctDisjoint(ranges) && TouchesWindow(ranges, s, e)
    requires forall d :: s <= d <= e ==> CoveredBy(ranges, d)
    ensures Gaps(ranges, s, e) == []
  {
    var gaps := Gaps(ranges, s, e);
    GapsMeaning(ranges, s, e);
    forall g | g in gaps ensures CoveredBy(gaps, g.start) && s <= g.start <= e {
    }
    assert forall g :: g !in gaps;
    NoMembers(gaps);
  }

  lemma NoMembers(xs: seq<Span>)
    requires forall x :: x !in xs
    ensures xs == []
  {
    forall x ensures multiset(xs)[x] == 0 {
      assert x !in xs;
    }
    assert multiset(xs) == multiset{};
  }

  /** Repeating a window that one range already spans exactly plans just
      that range again. */
  lemma PlannedSameWindow(s: int, e: int)
    requires s < e
    ensures Planned([Span(s, e)], s, e) == [Span(s, e)]
    ensures Filled([Span(s, e)], s, e) == [Span(s, e)] && Gaps([Span(s, e)], s, e) == []
  {
    assert PieceSpans(Span(s, e), s, e) == [Span(s, e)];
    assert Filled([Span(s, e)], s, e) == [Span(s, e)];
    assert SortBy([Span(s, e)], StartOf) == [Span(s, e)];
    assert GapsFrom([Span(s, e)], s, e) == [] + GapsFrom([], e + 1, e);
  }

  /** With nothing overlapping, the window itself is planned. */
  lemma PlannedFresh(s: int, e: int)
    requires s <= e
    ensures Planned([], s, e) == [Span(s, e)]
  {
  }

  /** A later window starting inside a range and ending past it plans three
      spans: the range's part before the window, its part inside the window,
      and a gap fill for the rest (days 1 to 60 and a window of 31 to 90). */
  lemma PlannedOverlapScenario()
    ensures Planned([Span(1, 60)], 31, 90) == [Span(1, 30), Span(31, 60), Span(61, 90)]
    ensures PieceSpans(Span(1, 60), 31, 90) == [Span(1, 30), Span(31, 60)]
    ensures Gaps(PieceSpans(Span(1, 60), 31, 90), 31, 90) == [Span(61, 90)]
  {
    var f := [Span(1, 30), Span(31, 60)];
    assert PieceSpans(Span(1, 60), 31, 90) == f;
    assert Filled([Span(1, 60)], 31, 90) == f;
    assert Insert(Span(31, 60), [], StartOf) == [Span(31, 60)];
    assert SortBy(f, StartOf) == f;
    assert GapsFrom([], 61, 90) == [Span(61, 90)];
    assert GapsFrom([Span(31, 60)], 31, 90) == [Span(61, 90)];
    assert GapsFrom(f, 31, 90) == [Span(61, 90)];
  }

  /** The three spans of that scenario are already in order of start. */
  lemma OverlapScenarioSorted()
    ensures SortBy([Span(1, 30), Span(31, 60), Span(61, 90)], StartOf) == [Span(1, 30), Span(31, 60), Span(61, 90)]
  {
    var all := [Span(1, 30), Span(31, 60), Span(61, 90)];
    assert all[1..] == [Span(31, 60), Span(61, 90)] && all[1..][1..] == [Span(61, 90)];
    assert Insert(Span(61, 90), [], StartOf) == [Span(61, 90)];
    assert Insert(Span(31, 60), [Span(61, 90)], StartOf) == all[1..];
  }
}
