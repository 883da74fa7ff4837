/** The contribution-range store of goal/models.py: per user, pairwise
    disjoint inclusive day ranges (`ContributionRange`), the percentage
    pledges goals make on them (`GoalContribution`), the checks their `save`
    methods apply, and `add_new_range`, which splits the ranges a new window
    overlaps and fills the rest of the window. Days are ordinal numbers. */
module Ledger {
  import opened Wrappers
  import opened Calendar
  import opened Spans
  import opened RangeGaps
  import opened Goals
  import opened RangePlan

  datatype ContributionRange = ContributionRange(id: nat, user: nat, start: int, end: int)
  {
    function Days(): Span {
      Span(start, end)
    }
  }

  datatype GoalContribution = GoalContribution(id: nat, goal: nat, range: nat, percentage: nat, amount: Option<real>)

  /** What `add_new_range` backs up of a contribution before deleting it. */
  datatype Pledge = Pledge(goal: nat, percentage: nat)

  datatype LedgerError =
    | StartNotBeforeEnd
    | OverlappingRanges
    | ProtectedRange
    | CompletedGoal
    | RangeBeforeGoalStart
    | RangeAfterGoalEnd
    | PercentageOver100

  // ---------------------------------------------------------------------
  // Queries

  /** The (goal, percentage) pairs of the contributions on range rid, in
      table order. */
  function Pledges(cs: seq<GoalContribution>, rid: nat): seq<Pledge>
  {
    if cs == [] then []
    else
      var c := cs[|cs| - 1];
      Pledges(cs[..|cs| - 1], rid) + (if c.range == rid then [Pledge(c.goal, c.percentage)] else [])
  }

  function SumPercent(ps: seq<Pledge>): nat
  {
    if ps == [] then 0 else SumPercent(ps[..|ps| - 1]) + ps[|ps| - 1].percentage
  }

  /** `ContributionRange.total_percentage`: the sum of the percentages on rid,
      0 when there are none. */
  function TotalPercentage(cs: seq<GoalContribution>, rid: nat): nat
  {
    SumPercent(Pledges(cs, rid))
  }

  /** The three-way filter of `get_overlapping_ranges`. */
  predicate OverlapQuery(r: ContributionRange, user: nat, s: int, e: int) {
    && r.user == user
    && ((r.start <= s && r.end >= s) || (r.start <= e && r.end >= e) || (r.start >= s && r.end <= e))
  }

  /** `ContributionRange.get_overlapping_ranges`, in table order. */
  function GetOverlappingRanges(rs: seq<ContributionRange>, user: nat, s: int, e: int): (ov: seq<ContributionRange>)
    ensures forall r :: r in ov <==> r in rs && OverlapQuery(r, user, s, e)
  {
    if rs == [] then []
    else
      var r := rs[|rs| - 1];
      assert rs == rs[..|rs| - 1] + [r];
      GetOverlappingRanges(rs[..|rs| - 1], user, s, e) + (if OverlapQuery(r, user, s, e) then [r] else [])
  }

  /** The overlap filter is exactly closed intersection on the user's ranges. */
  lemma OverlapIsIntersection(r: ContributionRange, user: nat, s: int, e: int)
    requires r.start <= r.end && s <= e
    ensures OverlapQuery(r, user, s, e) <==> r.user == user && Intersects(r.Days(), s, e)
  {
  }

  // ---------------------------------------------------------------------
  // Table helpers

  /** No two positions hold the same id. */
  ghost predicate UniqueIds(rs: seq<ContributionRange>) {
    forall i, j :: 0 <= i < |rs| && 0 <= j < |rs| && rs[i].id == rs[j].id ==> i == j
  }

  lemma UniqueSnoc(rs: seq<ContributionRange>, x: ContributionRange)
    requires UniqueIds(rs)
    requires forall a :: a in rs ==> a.id != x.id
    ensures UniqueIds(rs + [x])
  {
    var t := rs + [x];
    forall i, j | 0 <= i < |t| && 0 <= j < |t| && t[i].id == t[j].id ensures i == j {
      if i < |rs| { assert t[i] in rs; }
      if j < |rs| { assert t[j] in rs; }
    }
  }

  lemma UniqueAppend(a: seq<ContributionRange>, b: seq<ContributionRange>)
    requires UniqueIds(a) && UniqueIds(b)
    requires forall x, y :: x in a && y in b ==> x.id != y.id
    ensures UniqueIds(a + b)
  {
    var t := a + b;
    forall i, j | 0 <= i < |t| && 0 <= j < |t| && t[i].id == t[j].id ensures i == j {
      if i < |a| { assert t[i] == a[i] && t[i] in a; } else { assert t[i] == b[i - |a|] && t[i] in b; }
      if j < |a| { assert t[j] == a[j] && t[j] in a; } else { assert t[j] == b[j - |a|] && t[j] in b; }
    }
  }

  lemma UniqueCons(x: ContributionRange, rs: seq<ContributionRange>)
    requires UniqueIds(rs)
    requires forall a :: a in rs ==> a.id != x.id
    ensures UniqueIds([x] + rs)
  {
    UniqueAppend([x], rs);
  }

  function RangeIds(rs: seq<ContributionRange>): set<nat> {
    set r | r in rs :: r.id
  }

  /** The table without the row whose id is rid (`range.delete()`). */
  function Without(rs: seq<ContributionRange>, rid: nat): (t: seq<ContributionRange>)
    ensures forall x :: x in t <==> x in rs && x.id != rid
  {
    if rs == [] then []
    else
      var r := rs[|rs| - 1];
      assert rs == rs[..|rs| - 1] + [r];
      Without(rs[..|rs| - 1], rid) + (if r.id == rid then [] else [r])
  }

  lemma UniqueFront(rs: seq<ContributionRange>)
    requires rs != [] && UniqueIds(rs)
    ensures UniqueIds(rs[..|rs| - 1])
    ensures forall a :: a in rs[..|rs| - 1] ==> a.id != rs[|rs| - 1].id
  {
    var front := rs[..|rs| - 1];
    forall i, j | 0 <= i < |front| && 0 <= j < |front| && front[i].id == front[j].id ensures i == j {
      assert rs[i] == front[i] && rs[j] == front[j];
    }
    forall a | a in front ensures a.id != rs[|rs| - 1].id {
      var k :| 0 <= k < |front| && front[k] == a;
      assert rs[k] == a;
    }
  }

  /** Deleting a row keeps ids unique. */
  lemma {:induction false} WithoutUnique(rs: seq<ContributionRange>, rid: nat)
    requires UniqueIds(rs)
    ensures UniqueIds(Without(rs, rid))
    decreases |rs|
  {
    if rs != [] {
      UniqueFront(rs);
      WithoutUnique(rs[..|rs| - 1], rid);
      var r := rs[|rs| - 1];
      if r.id != rid {
        UniqueSnoc(Without(rs[..|rs| - 1], rid), r);
      }
    }
  }

  /** The overlapping ranges of a table with unique ids have unique ids. */
  lemma {:induction false} OverlapUnique(rs: seq<ContributionRange>, user: nat, s: int, e: int)
    requires UniqueIds(rs)
    ensures UniqueIds(GetOverlappingRanges(rs, user, s, e))
    decreases |rs|
  {
    if rs != [] {
      UniqueFront(rs);
      OverlapUnique(rs[..|rs| - 1], user, s, e);
      var r := rs[|rs| - 1];
      if OverlapQuery(r, user, s, e) {
        UniqueSnoc(GetOverlappingRanges(rs[..|rs| - 1], user, s, e), r);
      }
    }
  }

  /** The contributions table without those on range rid
      (`range.contributions.all().delete()`). */
  function DropRange(cs: seq<GoalContribution>, rid: nat): (t: seq<GoalContribution>)
    ensures forall c :: c in t <==> c in cs && c.range != rid
  {
    if cs == [] then []
    else
      var c := cs[|cs| - 1];
      assert cs == cs[..|cs| - 1] + [c];
      DropRange(cs[..|cs| - 1], rid) + (if c.range == rid then [] else [c])
  }

  lemma PledgesSnoc(cs: seq<GoalContribution>, c: GoalContribution, rid: nat)
    ensures Pledges(cs + [c], rid) == Pledges(cs, rid) + (if c.range == rid then [Pledge(c.goal, c.percentage)] else [])
  {
    assert (cs + [c])[..|cs|] == cs;
  }

  lemma {:induction false} SumPercentAppend(a: seq<Pledge>, b: seq<Pledge>)
    ensures SumPercent(a + b) == SumPercent(a) + SumPercent(b)
    decreases |b|
  {
    if b == [] {
      assert a + b == a;
    } else {
      var ab := a + b;
      assert ab[..|ab| - 1] == a + b[..|b| - 1];
      assert ab[|ab| - 1] == b[|b| - 1];
      assert SumPercent(ab) == SumPercent(ab[..|ab| - 1]) + ab[|ab| - 1].percentage;
      SumPercentAppend(a, b[..|b| - 1]);
    }
  }

  /** Changing the percentage of the contribution at position k moves the
      total of its range by the difference and leaves other totals alone. */
  lemma {:induction false} TotalUpdate(cs: seq<GoalContribution>, k: nat, percentage: nat, rid: nat)
    requires k < |cs|
    ensures TotalPercentage(cs[k := cs[k].(percentage := percentage)], rid) + (if cs[k].range == rid then cs[k].percentage else 0)
         == TotalPercentage(cs, rid) + (if cs[k].range == rid then percentage else 0)
    decreases |cs|
  {
    var n := |cs| - 1;
    var t := cs[k := cs[k].(percentage := percentage)];
    assert t == t[..n] + [t[n]] && cs == cs[..n] + [cs[n]];
    PledgesSnoc(t[..n], t[n], rid);
    PledgesSnoc(cs[..n], cs[n], rid);
    var lt := if t[n].range == rid then [Pledge(t[n].goal, t[n].percentage)] else [];
    var lc := if cs[n].range == rid then [Pledge(cs[n].goal, cs[n].percentage)] else [];
    SumPercentAppend(Pledges(t[..n], rid), lt);
    SumPercentAppend(Pledges(cs[..n], rid), lc);
    if k < n {
      assert t[..n] == cs[..n][k := cs[k].(percentage := percentage)];
      TotalUpdate(cs[..n], k, percentage, rid);
    } else {
      assert t[..n] == cs[..n];
    }
  }

  // ---------------------------------------------------------------------
  // Saving an existing contribution again

  /** The percentage check of `GoalContribution.save` as written, when the
      contribution at position k is saved again with a new percentage: the
      stored sum on its range, which still holds the contribution's own
      stored percentage, plus the new percentage may not exceed 100. */
  predicate ResaveAllowedAsWritten(cs: seq<GoalContribution>, k: nat, percentage: nat)
    requires k < |cs|
  {
    TotalPercentage(cs, cs[k].range) + percentage <= 100
  }

  /** The check as evidently intended: the other contributions on the range
      plus the new percentage may not exceed 100. */
  predicate ResaveAllowed(cs: seq<GoalContribution>, k: nat, percentage: nat)
    requires k < |cs|
  {
    TotalPercentage(cs, cs[k].range) - cs[k].percentage + percentage <= 100
  }

  /** The intended check accepts exactly the updates after which the range
      totals at most 100; the check as written refuses more. */
  lemma ResaveAllowedMeaning(cs: seq<GoalContribution>, k: nat, percentage: nat)
    requires k < |cs|
    ensures ResaveAllowed(cs, k, percentage) <==>
      TotalPercentage(cs[k := cs[k].(percentage := percentage)], cs[k].range) <= 100
    ensures ResaveAllowedAsWritten(cs, k, percentage) ==> ResaveAllowed(cs, k, percentage)
  {
    TotalUpdate(cs, k, percentage, cs[k].range);
  }

  /** Saving again, at 50 percent, the only contribution of a range that
      holds 100 percent is refused as written although the range would then
      hold 50; even saving it unchanged is refused. */
  lemma ResaveCountsOwnShare()
    ensures var cs := [GoalContribution(0, 0, 0, 100, None)];
      && !ResaveAllowedAsWritten(cs, 0, 50) && ResaveAllowed(cs, 0, 50)
      && !ResaveAllowedAsWritten(cs, 0, 100) && ResaveAllowed(cs, 0, 100)
  {
    var cs := [GoalContribution(0, 0, 0, 100, None)];
    assert cs[..0] == [];
    assert TotalPercentage(cs, 0) == 100;
  }

  /** A range no contribution points at has no pledges. */
  lemma {:induction false} PledgesNone(cs: seq<GoalContribution>, rid: nat)
    requires forall c :: c in cs ==> c.range != rid
    ensures Pledges(cs, rid) == []
    decreases |cs|
  {
    if cs != [] {
      PledgesNone(cs[..|cs| - 1], rid);
    }
  }

  /** Deleting the contributions of one range leaves the others' pledges. */
  lemma {:induction false} PledgesDropOther(cs: seq<GoalContribution>, rid: nat, other: nat)
    requires other != rid
    ensures Pledges(DropRange(cs, rid), other) == Pledges(cs, other)
    decreases |cs|
  {
    if cs != [] {
      var c := cs[|cs| - 1];
      var front := cs[..|cs| - 1];
      PledgesDropOther(front, rid, other);
      if c.range != rid {
        PledgesSnoc(DropRange(front, rid), c, other);
      } else {
        assert DropRange(cs, rid) == DropRange(front, rid);
      }
    }
  }

  /** ... and leaves none on the range itself. */
  lemma PledgesDropSelf(cs: seq<GoalContribution>, rid: nat)
    ensures Pledges(DropRange(cs, rid), rid) == []
  {
    PledgesNone(DropRange(cs, rid), rid);
  }

  /** Every pledge comes from a contribution of the table. */
  lemma {:induction false} PledgesFrom(cs: seq<GoalContribution>, rid: nat, goals: set<nat>)
    requires forall c :: c in cs ==> c.goal in goals
    ensures forall p :: p in Pledges(cs, rid) ==> p.goal in goals
    decreases |cs|
  {
    if cs != [] {
      PledgesFrom(cs[..|cs| - 1], rid, goals);
    }
  }

  /** The spans of a list of ranges. */
  function DaysOf(rs: seq<ContributionRange>): (ss: seq<Span>)
    ensures |ss| == |rs|
    ensures forall k :: 0 <= k < |rs| ==> ss[k] == rs[k].Days()
  {
    if rs == [] then [] else DaysOf(rs[..|rs| - 1]) + [rs[|rs| - 1].Days()]
  }

  // ---------------------------------------------------------------------
  // Integrity of the tables

  ghost predicate GoalsOk(goals: map<nat, GoalRow>, nextGoalId: nat) {
    forall id :: id in goals ==> id < nextGoalId && goals[id].id == id && RowValid(goals[id])
  }

  /** Two different ranges of one user share no day. */
  ghost predicate UserDisjoint(rs: seq<ContributionRange>) {
    forall a, b :: a in rs && b in rs && a.user == b.user && a != b ==> Disjoint(a.Days(), b.Days())
  }

  ghost predicate RangesOk(rs: seq<ContributionRange>, nextRangeId: nat) {
    && UniqueIds(rs)
    && (forall r :: r in rs ==> r.id < nextRangeId && r.start < r.end)
    && UserDisjoint(rs)
  }

  ghost predicate ContributionsOk(cs: seq<GoalContribution>, goals: set<nat>, rs: seq<ContributionRange>, nextContributionId: nat) {
    forall c :: c in cs ==> c.id < nextContributionId && c.goal in goals && c.range in RangeIds(rs)
  }

  ghost predicate TotalsOk(rs: seq<ContributionRange>, cs: seq<GoalContribution>) {
    forall r :: r in rs ==> TotalPercentage(cs, r.id) <= 100
  }

  /** A fresh range that meets no range of its user keeps the tables sound,
      and nothing points at it yet. */
  lemma AppendRangeOk(rs: seq<ContributionRange>, nextRangeId: nat, cs: seq<GoalContribution>,
                      goals: set<nat>, nextContributionId: nat, row: ContributionRange)
    requires RangesOk(rs, nextRangeId) && ContributionsOk(cs, goals, rs, nextContributionId) && TotalsOk(rs, cs)
    requires row.id == nextRangeId && row.start < row.end
    requires forall b :: b in rs && b.user == row.user ==> Disjoint(row.Days(), b.Days())
    ensures RangesOk(rs + [row], nextRangeId + 1)
    ensures ContributionsOk(cs, goals, rs + [row], nextContributionId)
    ensures TotalsOk(rs + [row], cs)
    ensures Pledges(cs, row.id) == []
  {
    UniqueSnoc(rs, row);
    forall c | c in cs ensures c.range != row.id {
      var x :| x in rs && x.id == c.range;
    }
    PledgesNone(cs, row.id);
    assert RangeIds(rs) <= RangeIds(rs + [row]);
  }

  /** Deleting a range nothing points at keeps the tables sound. */
  lemma RemoveRangeOk(rs: seq<ContributionRange>, nextRangeId: nat, cs: seq<GoalContribution>,
                      goals: set<nat>, nextContributionId: nat, rid: nat)
    requires RangesOk(rs, nextRangeId) && ContributionsOk(cs, goals, rs, nextContributionId) && TotalsOk(rs, cs)
    requires forall c :: c in cs ==> c.range != rid
    ensures RangesOk(Without(rs, rid), nextRangeId)
    ensures ContributionsOk(cs, goals, Without(rs, rid), nextContributionId)
    ensures TotalsOk(Without(rs, rid), cs)
  {
    WithoutUnique(rs, rid);
    var t := Without(rs, rid);
    forall c | c in cs ensures c.range in RangeIds(t) {
      var x :| x in rs && x.id == c.range;
      assert x in t;
    }
  }

  /** Deleting the contributions of one range keeps the tables sound. */
  lemma DropOk(rs: seq<ContributionRange>, cs: seq<GoalContribution>, goals: set<nat>,
               nextContributionId: nat, rid: nat)
    requires ContributionsOk(cs, goals, rs, nextContributionId) && TotalsOk(rs, cs)
    ensures ContributionsOk(DropRange(cs, rid), goals, rs, nextContributionId)
    ensures TotalsOk(rs, DropRange(cs, rid))
    ensures forall other :: Pledges(DropRange(cs, rid), other) == if other == rid then [] else Pledges(cs, other)
  {
    forall other ensures Pledges(DropRange(cs, rid), other) == if other == rid then [] else Pledges(cs, other) {
      if other == rid { PledgesDropSelf(cs, rid); } else { PledgesDropOther(cs, rid, other); }
    }
  }

  /** Appending a contribution that keeps its range within 100 percent keeps
      the tables sound, and adds its pledge to that range only. */
  lemma AppendContributionOk(rs: seq<ContributionRange>, cs: seq<GoalContribution>, goals: set<nat>,
                             nextContributionId: nat, c: GoalContribution)
    requires ContributionsOk(cs, goals, rs, nextContributionId) && TotalsOk(rs, cs)
    requires c.id == nextContributionId && c.goal in goals && c.range in RangeIds(rs)
    requires TotalPercentage(cs, c.range) + c.percentage <= 100
    ensures ContributionsOk(cs + [c], goals, rs, nextContributionId + 1)
    ensures TotalsOk(rs, cs + [c])
    ensures forall rid :: (Pledges(cs + [c], rid) ==
      Pledges(cs, rid) + (if rid == c.range then [Pledge(c.goal, c.percentage)] else []))
  {
    forall rid ensures Pledges(cs + [c], rid) ==
      Pledges(cs, rid) + (if rid == c.range then [Pledge(c.goal, c.percentage)] else []) {
      PledgesSnoc(cs, c, rid);
    }
    SumPercentAppend(Pledges(cs, c.range), [Pledge(c.goal, c.percentage)]);
    forall r | r in rs ensures TotalPercentage(cs + [c], r.id) <= 100 {
      assert Pledges(cs + [c], r.id) ==
        Pledges(cs, r.id) + (if r.id == c.range then [Pledge(c.goal, c.percentage)] else []);
      if r.id != c.range {
        assert Pledges(cs + [c], r.id) == Pledges(cs, r.id);
      } else {
        assert TotalPercentage(cs + [c], r.id) == TotalPercentage(cs, c.range) + c.percentage;
      }
    }
  }

  // ---------------------------------------------------------------------
  // What add_new_range promises

  lemma TakeNext<T>(s: seq<T>, i: nat)
    requires i < |s|
    ensures s[..i + 1] == s[..i] + [s[i]]
  {
  }

  function RangeStart(r: ContributionRange): int {
    r.start
  }

  lemma DaysOfSnoc(rs: seq<ContributionRange>, x: ContributionRange)
    ensures DaysOf(rs + [x]) == DaysOf(rs) + [x.Days()]
  {
    assert (rs + [x])[..|rs|] == rs;
  }

  lemma DaysOfAppend(a: seq<ContributionRange>, b: seq<ContributionRange>)
    ensures DaysOf(a + b) == DaysOf(a) + DaysOf(b)
  {
    var l, r := DaysOf(a + b), DaysOf(a) + DaysOf(b);
    assert |l| == |r|;
    forall k | 0 <= k < |l| ensures l[k] == r[k] {
      if k < |a| { assert (a + b)[k] == a[k]; } else { assert (a + b)[k] == b[k - |a|]; }
    }
  }

  /** A row of the returned list carries the pledges of the overlapping range
      it is a piece of, or is a gap fill with no pledges. */
  ghost predicate Inherits(p: ContributionRange, after: seq<GoalContribution>, before: seq<GoalContribution>,
                           ov: seq<ContributionRange>, s: int, e: int) {
    || (p.Days() in Gaps(Filled(DaysOf(ov), s, e), s, e) && Pledges(after, p.id) == [])
    || (exists r :: r in ov && p.Days() in PieceSpans(r.Days(), s, e) && Pledges(after, p.id) == Pledges(before, r.id))
  }

  /** On a consistent store the overlap query of a window returns distinct,
      well-formed, pairwise disjoint ranges that each meet the window. */
  lemma OverlapShape(rs: seq<ContributionRange>, nextRangeId: nat, user: nat, s: int, e: int)
    requires RangesOk(rs, nextRangeId) && s <= e
    ensures UniqueIds(GetOverlappingRanges(rs, user, s, e))
    ensures Overlapping(DaysOf(GetOverlappingRanges(rs, user, s, e)), s, e)
  {
    var ov := GetOverlappingRanges(rs, user, s, e);
    OverlapUnique(rs, user, s, e);
    var ds := DaysOf(ov);
    forall q | q in ds ensures WellFormed(q) && Intersects(q, s, e) {
      var k :| 0 <= k < |ds| && ds[k] == q;
      assert ov[k] in ov;
      OverlapIsIntersection(ov[k], user, s, e);
    }
    forall i, j | 0 <= i < |ds| && 0 <= j < |ds| && i != j ensures Disjoint(ds[i], ds[j]) {
      assert ov[i] in ov && ov[j] in ov;
      assert ov[i].id != ov[j].id;
    }
  }

  /** Within a table with unique ids, a stored range is among the
      overlapping ones exactly when its id is. */
  lemma InOverlapById(rs: seq<ContributionRange>, ov: seq<ContributionRange>, x: ContributionRange)
    requires UniqueIds(rs) && x in rs
    requires forall r :: r in ov ==> r in rs
    ensures x.id in RangeIds(ov) <==> x in ov
  {
    if x.id in RangeIds(ov) {
      var y :| y in ov && y.id == x.id;
      var i :| 0 <= i < |rs| && rs[i] == x;
      var j :| 0 <= j < |rs| && rs[j] == y;
    }
  }

  lemma RangeIdsSnoc(rs: seq<ContributionRange>, x: ContributionRange)
    ensures RangeIds(rs + [x]) == RangeIds(rs) + {x.id}
  {
  }

  /** An earlier position of a list with unique ids never repeats the id at
      position i. */
  lemma UniqueBefore(ov: seq<ContributionRange>, i: nat)
    requires UniqueIds(ov) && i < |ov|
    ensures ov[i].id !in RangeIds(ov[..i])
  {
    forall y | y in ov[..i] ensures y.id != ov[i].id {
      var k :| 0 <= k < i && ov[..i][k] == y;
      assert ov[k] == y;
    }
  }

  /** Piece p came from the overlapping range o: same user, a fresh id, and
      one of the pieces of o for the window [s, e]. */
  ghost predicate Descends(p: ContributionRange, o: ContributionRange, ov: seq<ContributionRange>,
                           s: int, e: int, n0: nat, n: nat) {
    && o in ov
    && p.user == o.user
    && n0 <= p.id < n
    && p.Days() in PieceSpans(o.Days(), s, e)
  }

  /** The store (rs, cs, n) after `add_new_range` has handled the first i
      overlapping ranges: their pieces, in order, have replaced them, piece k
      carrying the pledges its origin[k] had, and every other range that
      existed before (oldR, before, n0) keeps its pledges. */
  ghost predicate SplitState(ov: seq<ContributionRange>, s: int, e: int, oldR: seq<ContributionRange>,
                             before: seq<GoalContribution>, n0: nat, i: nat, pieces: seq<ContributionRange>,
                             origin: seq<ContributionRange>, rs: seq<ContributionRange>,
                             cs: seq<GoalContribution>, n: nat) {
    && i <= |ov|
    && n0 <= n
    && DaysOf(pieces) == Filled(DaysOf(ov[..i]), s, e)
    && UniqueIds(pieces)
    && |origin| == |pieces|
    && (forall x :: x in rs <==> (x in oldR && x.id !in RangeIds(ov[..i])) || x in pieces)
    && (forall k :: 0 <= k < |pieces| ==> Descends(pieces[k], origin[k], ov, s, e, n0, n))
    && (forall k :: 0 <= k < |pieces| ==> Pledges(cs, pieces[k].id) == Pledges(before, origin[k].id))
    && (forall rid: nat :: rid < n0 && rid !in RangeIds(ov[..i]) ==> Pledges(cs, rid) == Pledges(before, rid))
  }

  /** Before the first pass nothing has changed. */
  lemma SplitStateStart(ov: seq<ContributionRange>, s: int, e: int, rs: seq<ContributionRange>,
                        cs: seq<GoalContribution>, n: nat)
    ensures SplitState(ov, s, e, rs, cs, n, 0, [], [], rs, cs, n)
  {
    assert ov[..0] == [];
    assert RangeIds([]) == {};
  }

  /** The overlapping ranges as the loop finds them: distinct ids, all
      stored before it began and older than the first new id n0. */
  ghost predicate SplitInput(ov: seq<ContributionRange>, oldR: seq<ContributionRange>, n0: nat) {
    UniqueIds(ov) && forall r :: r in ov ==> r in oldR && r.id < n0
  }

  /** The next overlapping range is still stored when its pass begins. */
  lemma SplitStateNextStored(ov: seq<ContributionRange>, s: int, e: int, oldR: seq<ContributionRange>,
                             before: seq<GoalContribution>, n0: nat, i: nat, pieces: seq<ContributionRange>,
                             origin: seq<ContributionRange>, rs: seq<ContributionRange>,
                             cs: seq<GoalContribution>, n: nat)
    requires SplitState(ov, s, e, oldR, before, n0, i, pieces, origin, rs, cs, n)
    requires i < |ov| && SplitInput(ov, oldR, n0)
    ensures ov[i] in rs
  {
    assert ov[i] in ov;
    UniqueBefore(ov, i);
  }

  /** What one pass over ov[i] does to the store (rs, cs, n), giving
      (rs2, cs2, n2) and the pieces sv: as `SplitRange` promises. */
  ghost predicate SplitStep(ov: seq<ContributionRange>, s: int, e: int, i: nat,
                            rs: seq<ContributionRange>, cs: seq<GoalContribution>, n: nat,
                            sv: seq<ContributionRange>, rs2: seq<ContributionRange>,
                            cs2: seq<GoalContribution>, n2: nat) {
    && i < |ov|
    && n <= n2
    && DaysOf(sv) == PieceSpans(ov[i].Days(), s, e)
    && UniqueIds(sv)
    && (forall x :: x in rs2 <==> (x in rs && x.id != ov[i].id) || x in sv)
    && (forall p :: p in sv ==> p.user == ov[i].user && n <= p.id < n2)
    && (forall p :: p in sv ==> Pledges(cs2, p.id) == Pledges(cs, ov[i].id))
    && (forall rid: nat :: rid < n && rid != ov[i].id ==> Pledges(cs2, rid) == Pledges(cs, rid))
  }

  lemma SplitSpansNext(ov: seq<ContributionRange>, s: int, e: int, oldR: seq<ContributionRange>,
                       before: seq<GoalContribution>, n0: nat, i: nat, pieces: seq<ContributionRange>,
                       origin: seq<ContributionRange>, rs: seq<ContributionRange>,
                       cs: seq<GoalContribution>, n: nat,
                       sv: seq<ContributionRange>, rs2: seq<ContributionRange>, cs2: seq<GoalContribution>, n2: nat)
    requires SplitState(ov, s, e, oldR, before, n0, i, pieces, origin, rs, cs, n)
    requires SplitStep(ov, s, e, i, rs, cs, n, sv, rs2, cs2, n2)
    ensures DaysOf(pieces + sv) == Filled(DaysOf(ov[..i + 1]), s, e)
    ensures |origin + seq(|sv|, _ => ov[i])| == |pieces + sv|
  {
    TakeNext(ov, i);
    DaysOfSnoc(ov[..i], ov[i]);
    FilledSnoc(DaysOf(ov[..i]), ov[i].Days(), s, e);
    DaysOfAppend(pieces, sv);
  }

  lemma SplitTableNext(ov: seq<ContributionRange>, s: int, e: int, oldR: seq<ContributionRange>,
                       before: seq<GoalContribution>, n0: nat, i: nat, pieces: seq<ContributionRange>,
                       origin: seq<ContributionRange>, rs: seq<ContributionRange>,
                       cs: seq<GoalContribution>, n: nat,
                       sv: seq<ContributionRange>, rs2: seq<ContributionRange>, cs2: seq<GoalContribution>, n2: nat)
    requires SplitState(ov, s, e, oldR, before, n0, i, pieces, origin, rs, cs, n)
    requires SplitStep(ov, s, e, i, rs, cs, n, sv, rs2, cs2, n2)
    requires SplitInput(ov, oldR, n0)
    ensures forall x :: x in rs2 <==> (x in oldR && x.id !in RangeIds(ov[..i + 1])) || x in pieces + sv
    ensures UniqueIds(pieces + sv)
  {
    assert ov[i] in ov;
    forall p | p in pieces ensures n0 <= p.id {
      var k :| 0 <= k < |pieces| && pieces[k] == p;
      assert Descends(pieces[k], origin[k], ov, s, e, n0, n);
    }
    TakeNext(ov, i);
    RangeIdsSnoc(ov[..i], ov[i]);
    forall p | p in pieces ensures p.id < n {
      var k :| 0 <= k < |pieces| && pieces[k] == p;
      assert Descends(pieces[k], origin[k], ov, s, e, n0, n);
    }
    UniqueAppend(pieces, sv);
  }

  lemma SplitRowsNext(ov: seq<ContributionRange>, s: int, e: int, oldR: seq<ContributionRange>,
                      before: seq<GoalContribution>, n0: nat, i: nat, pieces: seq<ContributionRange>,
                      origin: seq<ContributionRange>, rs: seq<ContributionRange>,
                      cs: seq<GoalContribution>, n: nat,
                      sv: seq<ContributionRange>, rs2: seq<ContributionRange>, cs2: seq<GoalContribution>, n2: nat)
    requires SplitState(ov, s, e, oldR, before, n0, i, pieces, origin, rs, cs, n)
    requires SplitStep(ov, s, e, i, rs, cs, n, sv, rs2, cs2, n2)
    requires SplitInput(ov, oldR, n0)
    ensures var ps, og := pieces + sv, origin + seq(|sv|, _ => ov[i]);
      && (forall k :: 0 <= k < |ps| ==> Descends(ps[k], og[k], ov, s, e, n0, n2))
      && (forall k :: 0 <= k < |ps| ==> Pledges(cs2, ps[k].id) == Pledges(before, og[k].id))
  {
    var r := ov[i];
    var ps, og := pieces + sv, origin + seq(|sv|, _ => r);
    assert r in ov;
    UniqueBefore(ov, i);
    assert Pledges(cs, r.id) == Pledges(before, r.id);
    forall k | 0 <= k < |ps|
      ensures Descends(ps[k], og[k], ov, s, e, n0, n2) && Pledges(cs2, ps[k].id) == Pledges(before, og[k].id)
    {
      if k < |pieces| {
        assert ps[k] == pieces[k] && og[k] == origin[k];
        assert Descends(pieces[k], origin[k], ov, s, e, n0, n);
      } else {
        var j := k - |pieces|;
        assert ps[k] == sv[j] && og[k] == r;
        assert sv[j] in sv;
        assert sv[j].Days() == DaysOf(sv)[j];
      }
    }
  }

  lemma SplitOthersNext(ov: seq<ContributionRange>, s: int, e: int, oldR: seq<ContributionRange>,
                        before: seq<GoalContribution>, n0: nat, i: nat, pieces: seq<ContributionRange>,
                        origin: seq<ContributionRange>, rs: seq<ContributionRange>,
                        cs: seq<GoalContribution>, n: nat,
                        sv: seq<ContributionRange>, rs2: seq<ContributionRange>, cs2: seq<GoalContribution>, n2: nat)
    requires SplitState(ov, s, e, oldR, before, n0, i, pieces, origin, rs, cs, n)
    requires SplitStep(ov, s, e, i, rs, cs, n, sv, rs2, cs2, n2)
    ensures forall rid: nat :: rid < n0 && rid !in RangeIds(ov[..i + 1]) ==> Pledges(cs2, rid) == Pledges(before, rid)
  {
    TakeNext(ov, i);
    RangeIdsSnoc(ov[..i], ov[i]);
  }

  /** One pass of the loop keeps SplitState: the pieces sv of ov[i] replace
      it, carry its pledges and leave everyone else's alone. */
  lemma SplitStateNext(ov: seq<ContributionRange>, s: int, e: int, oldR: seq<ContributionRange>,
                       before: seq<GoalContribution>, n0: nat, i: nat, pieces: seq<ContributionRange>,
                       origin: seq<ContributionRange>, rs: seq<ContributionRange>,
                       cs: seq<GoalContribution>, n: nat,
                       sv: seq<ContributionRange>, rs2: seq<ContributionRange>, cs2: seq<GoalContribution>, n2: nat)
    requires SplitState(ov, s, e, oldR, before, n0, i, pieces, origin, rs, cs, n)
    requires SplitStep(ov, s, e, i, rs, cs, n, sv, rs2, cs2, n2)
    requires SplitInput(ov, oldR, n0)
    ensures SplitState(ov, s, e, oldR, before, n0, i + 1, pieces + sv, origin + seq(|sv|, _ => ov[i]), rs2, cs2, n2)
  {
    SplitSpansNext(ov, s, e, oldR, before, n0, i, pieces, origin, rs, cs, n, sv, rs2, cs2, n2);
    SplitTableNext(ov, s, e, oldR, before, n0, i, pieces, origin, rs, cs, n, sv, rs2, cs2, n2);
    SplitRowsNext(ov, s, e, oldR, before, n0, i, pieces, origin, rs, cs, n, sv, rs2, cs2, n2);
    SplitOthersNext(ov, s, e, oldR, before, n0, i, pieces, origin, rs, cs, n, sv, rs2, cs2, n2);
  }

  /** The store after the gap fills: fills, whose spans are gaps, are fresh
      ranges of the user without pledges, added to the table oldR. */
  ghost predicate Filling(user: nat, gaps: seq<Span>, oldR: seq<ContributionRange>, n0: nat,
                          fills: seq<ContributionRange>, rs: seq<ContributionRange>,
                          cs: seq<GoalContribution>, n: nat) {
    && DaysOf(fills) == gaps
    && UniqueIds(fills)
    && n0 <= n
    && (forall x :: x in rs <==> x in oldR || x in fills)
    && (forall p :: p in fills ==> p.user == user && n0 <= p.id < n && Pledges(cs, p.id) == [])
  }

  /** The fill for gaps[i], the next fresh range of the user over it,
      extends the fills for the gaps before it. */
  /** One pass of the split loop keeps what the passes before it kept:
      after the ranges done and then r, every earlier contribution on
      another range is still stored and every new one is uncached and on a
      range created since n0. */
  lemma KeptStep(before: seq<GoalContribution>, mid: seq<GoalContribution>, after: seq<GoalContribution>,
                 done: seq<ContributionRange>, r: ContributionRange, n0: nat, n1: nat)
    requires n0 <= n1
    requires forall c :: c in before && c.range !in RangeIds(done) ==> c in mid
    requires forall c :: c in mid ==> c in before || (c.range >= n0 && c.amount.None?)
    requires forall c :: c in mid && c.range != r.id ==> c in after
    requires forall c :: c in after ==> c in mid || (c.range >= n1 && c.amount.None?)
    ensures forall c :: c in before && c.range !in RangeIds(done + [r]) ==> c in after
    ensures forall c :: c in after ==> c in before || (c.range >= n0 && c.amount.None?)
  {
    RangeIdsSnoc(done, r);
  }

  lemma FillingSnoc(user: nat, gaps: seq<Span>, i: nat, oldR: seq<ContributionRange>, n0: nat,
                    fills: seq<ContributionRange>, rs: seq<ContributionRange>, cs: seq<GoalContribution>, n: nat,
                    row: ContributionRange)
    requires i < |gaps| && Filling(user, gaps[..i], oldR, n0, fills, rs, cs, n)
    requires forall g :: g in gaps[..i] ==> g.start < g.end
    requires row == ContributionRange(n, user, gaps[i].start, gaps[i].end) && row.start < row.end
    requires Pledges(cs, n) == []
    ensures Filling(user, gaps[..i + 1], oldR, n0, fills + [row], rs + [row], cs, n + 1)
    ensures forall g :: g in gaps[..i + 1] ==> g.start < g.end
  {
    TakeNext(gaps, i);
    DaysOfSnoc(fills, row);
    UniqueSnoc(fills, row);
  }

  /** What a successful `add_new_range(user, s, e)` leaves, for the ranges ov
      the overlap query returned on the store (oldR, oldC, oldN): the result
      res replaces ov in the table, its rows are fresh ranges of the user
      sorted by start, their spans are the planned ones in order of start,
      each row is a piece of an overlapping range carrying its pledges or a
      gap fill with none, and the untouched ranges keep their pledges. */
  ghost predicate Added(ov: seq<ContributionRange>, user: nat, s: int, e: int,
                        oldR: seq<ContributionRange>, oldC: seq<GoalContribution>, oldN: nat,
                        res: seq<ContributionRange>, rs: seq<ContributionRange>, cs: seq<GoalContribution>, n: nat) {
    && (forall x :: x in rs <==> (x in oldR && x !in ov) || x in res)
    && (forall p :: p in res ==> p.user == user && oldN <= p.id < n)
    && UniqueIds(res)
    && SortedBy(res, RangeStart)
    && DaysOf(res) == SortBy(Planned(DaysOf(ov), s, e), StartOf)
    && (forall p :: p in res ==> Inherits(p, cs, oldC, ov, s, e))
    && (forall x :: x in oldR && x !in ov ==> Pledges(cs, x.id) == Pledges(oldC, x.id))
  }

  lemma DaysOfCons(x: ContributionRange, rs: seq<ContributionRange>)
    ensures DaysOf([x] + rs) == [x.Days()] + DaysOf(rs)
  {
    var l, r := DaysOf([x] + rs), [x.Days()] + DaysOf(rs);
    assert |l| == |r|;
    forall k | 0 <= k < |l| ensures l[k] == r[k] {
      if k > 0 { assert ([x] + rs)[k] == rs[k - 1]; }
    }
  }

  lemma DaysOfTail(rs: seq<ContributionRange>)
    requires rs != []
    ensures DaysOf(rs)[1..] == DaysOf(rs[1..])
  {
  }

  lemma {:induction false} DaysOfInsert(x: ContributionRange, rs: seq<ContributionRange>)
    ensures DaysOf(Insert(x, rs, RangeStart)) == Insert(x.Days(), DaysOf(rs), StartOf)
  {
    if rs == [] {
      DaysOfCons(x, []);
    } else if x.start <= rs[0].start {
      DaysOfCons(x, rs);
    } else {
      DaysOfInsert(x, rs[1..]);
      DaysOfCons(rs[0], Insert(x, rs[1..], RangeStart));
      DaysOfTail(rs);
    }
  }

  /** Sorting the rows by start sorts their spans by start. */
  lemma {:induction false} DaysOfSortBy(rs: seq<ContributionRange>)
    ensures DaysOf(SortBy(rs, RangeStart)) == SortBy(DaysOf(rs), StartOf)
  {
    if rs != [] {
      DaysOfSortBy(rs[1..]);
      DaysOfInsert(rs[0], SortBy(rs[1..], RangeStart));
      DaysOfTail(rs);
    }
  }

  lemma {:induction false} InsertUnique(x: ContributionRange, rs: seq<ContributionRange>)
    requires UniqueIds(rs)
    requires forall a :: a in rs ==> a.id != x.id
    ensures UniqueIds(Insert(x, rs, RangeStart))
  {
    if rs == [] {
    } else if x.start <= rs[0].start {
      UniqueCons(x, rs);
    } else {
      var tail := Insert(x, rs[1..], RangeStart);
      UniqueFirst(rs);
      InsertUnique(x, rs[1..]);
      forall a | a in tail ensures a.id != rs[0].id {
        assert a in multiset(tail);
        if a != x {
          assert a in multiset(rs[1..]);
        } else {
          assert rs[0] in rs;
        }
      }
      UniqueCons(rs[0], tail);
    }
  }

  lemma UniqueFirst(rs: seq<ContributionRange>)
    requires rs != [] && UniqueIds(rs)
    ensures UniqueIds(rs[1..])
    ensures forall a :: a in rs[1..] ==> a.id != rs[0].id
  {
    var t := rs[1..];
    forall i, j | 0 <= i < |t| && 0 <= j < |t| && t[i].id == t[j].id ensures i == j {
      assert rs[i + 1] == t[i] && rs[j + 1] == t[j];
    }
    forall a | a in t ensures a.id != rs[0].id {
      var k :| 0 <= k < |t| && t[k] == a;
      assert rs[k + 1] == a;
    }
  }

  /** Sorting keeps ids unique. */
  lemma {:induction false} SortUnique(rs: seq<ContributionRange>)
    requires UniqueIds(rs)
    ensures UniqueIds(SortBy(rs, RangeStart))
  {
    if rs != [] {
      var tail := SortBy(rs[1..], RangeStart);
      UniqueFirst(rs);
      SortUnique(rs[1..]);
      forall a | a in tail ensures a.id != rs[0].id {
        assert a in multiset(tail);
        assert a in multiset(rs[1..]);
      }
      InsertUnique(rs[0], tail);
    }
  }

  /** The rows returned are distinct: the pieces and the fills are. */
  lemma AddedUnique(pieces: seq<ContributionRange>, fills: seq<ContributionRange>, n1: nat, res: seq<ContributionRange>)
    requires UniqueIds(pieces) && UniqueIds(fills)
    requires forall p :: p in pieces ==> p.id < n1
    requires forall p :: p in fills ==> n1 <= p.id
    requires res == SortBy(pieces + fills, RangeStart)
    ensures UniqueIds(res)
  {
    UniqueAppend(pieces, fills);
    SortUnique(pieces + fills);
  }

  /** The table part of Added, from the loop and the gap fills. */
  lemma AddedTable(ov: seq<ContributionRange>, oldR: seq<ContributionRange>, oldN: nat,
                   pieces: seq<ContributionRange>, fills: seq<ContributionRange>,
                   rs1: seq<ContributionRange>, rs: seq<ContributionRange>, res: seq<ContributionRange>)
    requires UniqueIds(oldR)
    requires forall r :: r in ov ==> r in oldR
    requires forall x :: x in rs1 <==> (x in oldR && x.id !in RangeIds(ov)) || x in pieces
    requires forall x :: x in rs <==> x in rs1 || x in fills
    requires multiset(res) == multiset(pieces + fills)
    ensures forall x :: x in rs <==> (x in oldR && x !in ov) || x in res
  {
    SameMembers(res, pieces + fills);
    forall x | x in oldR ensures x.id in RangeIds(ov) <==> x in ov {
      InOverlapById(oldR, ov, x);
    }
  }

  /** The rows part of Added: users, ids and inherited pledges. */
  lemma AddedRows(ov: seq<ContributionRange>, user: nat, s: int, e: int,
                  oldR: seq<ContributionRange>, oldC: seq<GoalContribution>, oldN: nat,
                  pieces: seq<ContributionRange>, origin: seq<ContributionRange>,
                  rs1: seq<ContributionRange>, n1: nat, fills: seq<ContributionRange>,
                  rs: seq<ContributionRange>, cs: seq<GoalContribution>, n: nat, res: seq<ContributionRange>)
    requires SplitState(ov, s, e, oldR, oldC, oldN, |ov|, pieces, origin, rs1, cs, n1)
    requires Filling(user, Gaps(DaysOf(pieces), s, e), rs1, n1, fills, rs, cs, n)
    requires forall r :: r in ov ==> r.user == user
    requires multiset(res) == multiset(pieces + fills)
    ensures forall p :: p in res ==> p.user == user && oldN <= p.id < n
    ensures forall p :: p in res ==> Inherits(p, cs, oldC, ov, s, e)
  {
    SameMembers(res, pieces + fills);
    assert ov[..|ov|] == ov;
    forall p | p in res ensures p.user == user && oldN <= p.id < n && Inherits(p, cs, oldC, ov, s, e) {
      if p in pieces {
        var k :| 0 <= k < |pieces| && pieces[k] == p;
        assert Descends(pieces[k], origin[k], ov, s, e, oldN, n1);
      } else {
        assert p in fills;
        var k :| 0 <= k < |fills| && fills[k] == p;
        assert p.Days() == DaysOf(fills)[k];
      }
    }
  }

  /** The ranges the loop did not touch keep their pledges. */
  lemma AddedKeeps(ov: seq<ContributionRange>, s: int, e: int,
                   oldR: seq<ContributionRange>, oldC: seq<GoalContribution>, oldN: nat,
                   pieces: seq<ContributionRange>, origin: seq<ContributionRange>,
                   rs1: seq<ContributionRange>, cs: seq<GoalContribution>, n1: nat)
    requires SplitState(ov, s, e, oldR, oldC, oldN, |ov|, pieces, origin, rs1, cs, n1)
    requires RangesOk(oldR, oldN)
    requires forall r :: r in ov ==> r in oldR
    ensures forall x :: x in oldR && x !in ov ==> Pledges(cs, x.id) == Pledges(oldC, x.id)
  {
    assert ov[..|ov|] == ov;
    forall x | x in oldR && x !in ov ensures Pledges(cs, x.id) == Pledges(oldC, x.id) {
      InOverlapById(oldR, ov, x);
    }
  }

  /** The spans part of Added. */
  lemma AddedSpans(ov: seq<ContributionRange>, s: int, e: int, pieces: seq<ContributionRange>,
                   fills: seq<ContributionRange>, res: seq<ContributionRange>)
    requires DaysOf(pieces) == Filled(DaysOf(ov), s, e)
    requires DaysOf(fills) == Gaps(DaysOf(pieces), s, e)
    requires res == SortBy(pieces + fills, RangeStart)
    ensures DaysOf(res) == SortBy(Planned(DaysOf(ov), s, e), StartOf)
    ensures SortedBy(res, RangeStart)
  {
    DaysOfAppend(pieces, fills);
    DaysOfSortBy(pieces + fills);
    SortBySorted(pieces + fills, RangeStart);
  }

  /** A successful run split every overlapping range, filled the gaps and
      sorted: that is Added. */
  lemma AddedFromSteps(ov: seq<ContributionRange>, user: nat, s: int, e: int,
                       oldR: seq<ContributionRange>, oldC: seq<GoalContribution>, oldN: nat,
                       pieces: seq<ContributionRange>, origin: seq<ContributionRange>,
                       rs1: seq<ContributionRange>, n1: nat, fills: seq<ContributionRange>,
                       rs: seq<ContributionRange>, cs: seq<GoalContribution>, n: nat, res: seq<ContributionRange>)
    requires RangesOk(oldR, oldN) && ov == GetOverlappingRanges(oldR, user, s, e)
    requires SplitState(ov, s, e, oldR, oldC, oldN, |ov|, pieces, origin, rs1, cs, n1)
    requires Filling(user, Gaps(DaysOf(pieces), s, e), rs1, n1, fills, rs, cs, n)
    requires res == SortBy(pieces + fills, RangeStart)
    ensures Added(ov, user, s, e, oldR, oldC, oldN, res, rs, cs, n)
  {
    assert ov[..|ov|] == ov;
    AddedTable(ov, oldR, oldN, pieces, fills, rs1, rs, res);
    AddedRows(ov, user, s, e, oldR, oldC, oldN, pieces, origin, rs1, n1, fills, rs, cs, n, res);
    AddedKeeps(ov, s, e, oldR, oldC, oldN, pieces, origin, rs1, cs, n1);
    AddedSpans(ov, s, e, pieces, fills, res);
    forall p | p in pieces ensures p.id < n1 {
      var k :| 0 <= k < |pieces| && pieces[k] == p;
      assert Descends(pieces[k], origin[k], ov, s, e, oldN, n1);
    }
    AddedUnique(pieces, fills, n1, res);
  }

  /** With nothing overlapping, the one new range of the window is Added. */
  lemma AddedFresh(user: nat, s: int, e: int, oldR: seq<ContributionRange>, oldC: seq<GoalContribution>,
                   oldN: nat, row: ContributionRange, rs: seq<ContributionRange>, cs: seq<GoalContribution>)
    requires s < e && row == ContributionRange(oldN, user, s, e)
    requires rs == oldR + [row] && Pledges(cs, row.id) == [] && cs == oldC
    ensures Added([], user, s, e, oldR, oldC, oldN, [row], rs, cs, oldN + 1)
  {
    PlannedFresh(s, e);
    assert DaysOf([row]) == [Span(s, e)];
    assert Gaps(Filled([], s, e), s, e) == [Span(s, e)];
  }

  // ---------------------------------------------------------------------
  // What a successful add_new_range guarantees

  /** The returned rows are stored and have distinct ids. */
  lemma AddedStored(ov: seq<ContributionRange>, user: nat, s: int, e: int, oldR: seq<ContributionRange>,
                    oldC: seq<GoalContribution>, oldN: nat, res: seq<ContributionRange>,
                    rs: seq<ContributionRange>, cs: seq<GoalContribution>, n: nat)
    requires Added(ov, user, s, e, oldR, oldC, oldN, res, rs, cs, n)
    ensures UniqueIds(res) && forall p :: p in res ==> p in rs
  {
  }

  /** Every returned row lies before, inside or after the window. */
  lemma AddedSided(user: nat, s: int, e: int, oldR: seq<ContributionRange>, oldC: seq<GoalContribution>,
                   oldN: nat, res: seq<ContributionRange>, rs: seq<ContributionRange>,
                   cs: seq<GoalContribution>, n: nat)
    requires RangesOk(oldR, oldN) && s <= e
    requires Added(GetOverlappingRanges(oldR, user, s, e), user, s, e, oldR, oldC, oldN, res, rs, cs, n)
    ensures forall p :: p in res ==> Sided(p.Days(), s, e)
  {
    var ds := DaysOf(GetOverlappingRanges(oldR, user, s, e));
    OverlapShape(oldR, oldN, user, s, e);
    PlannedSided(ds, s, e);
    SameMembers(DaysOf(res), Planned(ds, s, e));
    forall p | p in res ensures Sided(p.Days(), s, e) {
      var k :| 0 <= k < |res| && res[k] == p;
      assert DaysOf(res)[k] in DaysOf(res);
    }
  }

  /** The returned rows that lie inside the window cover each of its days. */
  lemma AddedCoversWindow(user: nat, s: int, e: int, oldR: seq<ContributionRange>, oldC: seq<GoalContribution>,
                          oldN: nat, res: seq<ContributionRange>, rs: seq<ContributionRange>,
                          cs: seq<GoalContribution>, n: nat)
    requires RangesOk(oldR, oldN) && s <= e
    requires Added(GetOverlappingRanges(oldR, user, s, e), user, s, e, oldR, oldC, oldN, res, rs, cs, n)
    ensures forall d :: s <= d <= e ==> CoveredInside(DaysOf(res), s, e, d)
  {
    var ds := DaysOf(GetOverlappingRanges(oldR, user, s, e));
    var pl := Planned(ds, s, e);
    OverlapShape(oldR, oldN, user, s, e);
    PlannedCoversWindow(ds, s, e);
    SameMembers(DaysOf(res), pl);
    forall d | s <= d <= e ensures CoveredInside(DaysOf(res), s, e, d) {
      assert CoveredInside(pl, s, e, d);
      var q :| q in pl && Within(q, s, e) && Contains(q, d);
      assert q in DaysOf(res);
    }
  }

  /** The returned rows cover exactly the days the overlapping ranges and
      the window covered. */
  lemma AddedCoversExactly(user: nat, s: int, e: int, oldR: seq<ContributionRange>, oldC: seq<GoalContribution>,
                           oldN: nat, res: seq<ContributionRange>, rs: seq<ContributionRange>,
                           cs: seq<GoalContribution>, n: nat)
    requires RangesOk(oldR, oldN) && s <= e
    requires Added(GetOverlappingRanges(oldR, user, s, e), user, s, e, oldR, oldC, oldN, res, rs, cs, n)
    ensures forall d :: CoveredBy(DaysOf(res), d) <==> CoveredBy(DaysOf(GetOverlappingRanges(oldR, user, s, e)), d) || s <= d <= e
  {
    var ov := GetOverlappingRanges(oldR, user, s, e);
    OverlapShape(oldR, oldN, user, s, e);
    PlannedCoversExactly(DaysOf(ov), s, e);
    CoveredByPermutation(DaysOf(res), Planned(DaysOf(ov), s, e));
  }

  /** A stored range is the only one its own window overlaps. */
  lemma SameWindowOverlap(rs: seq<ContributionRange>, nextRangeId: nat, r: ContributionRange)
    requires RangesOk(rs, nextRangeId) && r in rs
    ensures GetOverlappingRanges(rs, r.user, r.start, r.end) == [r]
  {
    var ov := GetOverlappingRanges(rs, r.user, r.start, r.end);
    OverlapUnique(rs, r.user, r.start, r.end);
    OverlapIsIntersection(r, r.user, r.start, r.end);
    forall x | x in ov ensures x == r {
      OverlapIsIntersection(x, r.user, r.start, r.end);
      assert !Disjoint(x.Days(), r.Days());
    }
    assert ov[0] in ov && ov[|ov| - 1] in ov;
    assert ov[0].id == ov[|ov| - 1].id;
    assert ov == [r];
  }

  /** Adding the window of an existing range again keeps one range over the
      same days with the same pledges. */
  lemma AddedSameWindow(r: ContributionRange, oldR: seq<ContributionRange>, oldC: seq<GoalContribution>,
                        oldN: nat, res: seq<ContributionRange>, rs: seq<ContributionRange>,
                        cs: seq<GoalContribution>, n: nat)
    requires RangesOk(oldR, oldN) && r in oldR
    requires Added(GetOverlappingRanges(oldR, r.user, r.start, r.end), r.user, r.start, r.end,
                   oldR, oldC, oldN, res, rs, cs, n)
    ensures |res| == 1 && res[0].Days() == r.Days() && res[0].user == r.user
    ensures Pledges(cs, res[0].id) == Pledges(oldC, r.id)
    ensures forall x :: x in rs <==> (x in oldR && x != r) || x == res[0]
  {
    var s, e := r.start, r.end;
    SameWindowOverlap(oldR, oldN, r);
    PlannedSameWindow(s, e);
    assert DaysOf([r]) == [Span(s, e)];
    assert |res| == 1;
    assert res[0] in res;
    InheritsSingle(res[0], cs, oldC, r, s, e);
    assert PieceSpans(Span(s, e), s, e) == [Span(s, e)];
    assert Gaps([Span(s, e)], s, e) == [];
  }

  /** A row Added for a single overlapping range r is a gap fill without
      pledges or a piece of r with r's pledges. */
  lemma InheritsSingle(p: ContributionRange, after: seq<GoalContribution>, before: seq<GoalContribution>,
                       r: ContributionRange, s: int, e: int)
    requires Inherits(p, after, before, [r], s, e)
    ensures || (p.Days() in Gaps(PieceSpans(r.Days(), s, e), s, e) && Pledges(after, p.id) == [])
            || (p.Days() in PieceSpans(r.Days(), s, e) && Pledges(after, p.id) == Pledges(before, r.id))
  {
    assert DaysOf([r]) == [r.Days()];
    FilledSnoc([], r.Days(), s, e);
    assert [] + PieceSpans(r.Days(), s, e) == PieceSpans(r.Days(), s, e);
  }

  /** A window starting inside a range and ending after it leaves three
      rows: the range's part before the window and its part inside it, both
      with the range's pledges, and a fill without pledges for the rest
      (days 1 to 60 and a window of 31 to 90). */
  lemma AddedOverlapScenario(r: ContributionRange, oldR: seq<ContributionRange>, oldC: seq<GoalContribution>,
                             oldN: nat, res: seq<ContributionRange>, rs: seq<ContributionRange>,
                             cs: seq<GoalContribution>, n: nat)
    requires r.start == 1 && r.end == 60
    requires Added([r], r.user, 31, 90, oldR, oldC, oldN, res, rs, cs, n)
    ensures DaysOf(res) == [Span(1, 30), Span(31, 60), Span(61, 90)]
    ensures Pledges(cs, res[0].id) == Pledges(oldC, r.id) && Pledges(cs, res[1].id) == Pledges(oldC, r.id)
    ensures Pledges(cs, res[2].id) == []
  {
    PlannedOverlapScenario();
    OverlapScenarioSorted();
    assert DaysOf([r]) == [Span(1, 60)];
    assert DaysOf(res) == [Span(1, 30), Span(31, 60), Span(61, 90)];
    assert res[0] in res && res[1] in res && res[2] in res;
    InheritsSingle(res[0], cs, oldC, r, 31, 90);
    InheritsSingle(res[1], cs, oldC, r, 31, 90);
    InheritsSingle(res[2], cs, oldC, r, 31, 90);
  }

  /** A window that starts after every range of the user overlaps none of
      them, so `add_new_range` adds it as a further range. */
  lemma {:induction false} LaterWindowOverlapsNone(rs: seq<ContributionRange>, user: nat, s: int, e: int)
    requires forall r :: r in rs ==> r.start <= r.end
    requires forall r :: r in rs && r.user == user ==> r.end < s
    requires s <= e
    ensures GetOverlappingRanges(rs, user, s, e) == []
    decreases |rs|
  {
    if rs != [] {
      LaterWindowOverlapsNone(rs[..|rs| - 1], user, s, e);
      assert rs[|rs| - 1] in rs;
    }
  }

  /** After a successful `add_new_range(user, s, e)`, the overlap query of
      the same window returns exactly the returned rows inside it. */
  lemma AddedOverlapAgain(user: nat, s: int, e: int, oldR: seq<ContributionRange>, oldC: seq<GoalContribution>,
                          oldN: nat, res: seq<ContributionRange>, rs: seq<ContributionRange>,
                          cs: seq<GoalContribution>, n: nat)
    requires RangesOk(oldR, oldN) && RangesOk(rs, n) && s <= e
    requires Added(GetOverlappingRanges(oldR, user, s, e), user, s, e, oldR, oldC, oldN, res, rs, cs, n)
    ensures forall x :: x in GetOverlappingRanges(rs, user, s, e) <==> x in res && Within(x.Days(), s, e)
  {
    AddedSided(user, s, e, oldR, oldC, oldN, res, rs, cs, n);
    forall x | x in rs ensures OverlapQuery(x, user, s, e) <==> x in res && Within(x.Days(), s, e) {
      OverlapIsIntersection(x, user, s, e);
      if x !in res {
        assert x in oldR && x !in GetOverlappingRanges(oldR, user, s, e);
        OverlapIsIntersection(x, user, s, e);
      }
    }
  }

  /** After a successful `add_new_range(user, s, e)`, the user's ranges
      that meet the window cover every day of it. */
  lemma AddedWindowCovered(user: nat, s: int, e: int, oldR: seq<ContributionRange>, oldC: seq<GoalContribution>,
                           oldN: nat, res: seq<ContributionRange>, rs: seq<ContributionRange>,
                           cs: seq<GoalContribution>, n: nat)
    requires RangesOk(oldR, oldN) && RangesOk(rs, n) && s <= e
    requires Added(GetOverlappingRanges(oldR, user, s, e), user, s, e, oldR, oldC, oldN, res, rs, cs, n)
    ensures forall d :: s <= d <= e ==> CoveredBy(DaysOf(GetOverlappingRanges(rs, user, s, e)), d)
  {
    var ov := GetOverlappingRanges(rs, user, s, e);
    AddedCoversWindow(user, s, e, oldR, oldC, oldN, res, rs, cs, n);
    AddedOverlapAgain(user, s, e, oldR, oldC, oldN, res, rs, cs, n);
    forall d | s <= d <= e ensures CoveredBy(DaysOf(ov), d) {
      assert CoveredInside(DaysOf(res), s, e, d);
      var q :| q in DaysOf(res) && Within(q, s, e) && Contains(q, d);
      var k :| 0 <= k < |res| && DaysOf(res)[k] == q;
      assert res[k] in res;
      InDaysOf(ov, res[k]);
    }
  }

  /** The plan of a second `add_new_range(user, s, e)` on the store the
      first one left (rs1): the overlapping ranges are the first call's rows
      inside the window, each its own piece, and they leave no gap. */
  lemma AgainPlan(user: nat, s: int, e: int, rs0: seq<ContributionRange>, cs0: seq<GoalContribution>, n0: nat,
                  res1: seq<ContributionRange>, rs1: seq<ContributionRange>, cs1: seq<GoalContribution>, n1: nat)
    requires RangesOk(rs0, n0) && RangesOk(rs1, n1) && s <= e
    requires Added(GetOverlappingRanges(rs0, user, s, e), user, s, e, rs0, cs0, n0, res1, rs1, cs1, n1)
    ensures var ov := GetOverlappingRanges(rs1, user, s, e);
      && (forall x :: x in ov <==> x in res1 && Within(x.Days(), s, e))
      && (forall x :: x in ov ==> x.start < x.end && x in rs1)
      && Filled(DaysOf(ov), s, e) == DaysOf(ov)
      && Gaps(DaysOf(ov), s, e) == []
  {
    var ov := GetOverlappingRanges(rs1, user, s, e);
    var ds := DaysOf(ov);
    AddedOverlapAgain(user, s, e, rs0, cs0, n0, res1, rs1, cs1, n1);
    OverlapShape(rs1, n1, user, s, e);
    forall q | q in ds ensures Within(q, s, e) && q.start < q.end {
      var k :| 0 <= k < |ds| && ds[k] == q;
      assert ov[k] in ov;
    }
    FilledInside(ds, s, e);
    FilledReady(ds, s, e);
    AddedWindowCovered(user, s, e, rs0, cs0, n0, res1, rs1, cs1, n1);
    NoGaps(ds, s, e);
  }

  /** A row of a call whose overlapping ranges ov lie inside the window
      and leave no gap repeats one of them with its pledges. */
  lemma RepeatsOne(p: ContributionRange, after: seq<GoalContribution>, before: seq<GoalContribution>,
                   ov: seq<ContributionRange>, s: int, e: int)
    requires Inherits(p, after, before, ov, s, e)
    requires forall x :: x in ov ==> Within(x.Days(), s, e) && x.start < x.end
    requires Filled(DaysOf(ov), s, e) == DaysOf(ov) && Gaps(DaysOf(ov), s, e) == []
    ensures exists r :: r in ov && r.Days() == p.Days() && Pledges(after, p.id) == Pledges(before, r.id)
  {
    var r :| r in ov && p.Days() in PieceSpans(r.Days(), s, e) && Pledges(after, p.id) == Pledges(before, r.id);
    PieceInside(r.Days(), s, e);
  }

  /** `add_new_range` is idempotent on its window: run again for the same
      (user, s, e) on the store the first call left (rs1, cs1, n1), it
      returns rows over exactly the days of the first call's rows inside
      the window, each with the pledges of the row it repeats. */
  lemma AddedTwice(user: nat, s: int, e: int, rs0: seq<ContributionRange>, cs0: seq<GoalContribution>, n0: nat,
                   res1: seq<ContributionRange>, rs1: seq<ContributionRange>, cs1: seq<GoalContribution>, n1: nat,
                   res2: seq<ContributionRange>, rs2: seq<ContributionRange>, cs2: seq<GoalContribution>, n2: nat)
    requires RangesOk(rs0, n0) && RangesOk(rs1, n1) && s <= e
    requires Added(GetOverlappingRanges(rs0, user, s, e), user, s, e, rs0, cs0, n0, res1, rs1, cs1, n1)
    requires Added(GetOverlappingRanges(rs1, user, s, e), user, s, e, rs1, cs1, n1, res2, rs2, cs2, n2)
    ensures forall p2 :: p2 in res2 ==>
      exists p1 :: p1 in res1 && Within(p1.Days(), s, e) && p1.Days() == p2.Days() && Pledges(cs2, p2.id) == Pledges(cs1, p1.id)
    ensures forall p1 :: p1 in res1 && Within(p1.Days(), s, e) ==>
      exists p2 :: p2 in res2 && p2.Days() == p1.Days() && Pledges(cs2, p2.id) == Pledges(cs1, p1.id)
  {
    var ov := GetOverlappingRanges(rs1, user, s, e);
    AgainPlan(user, s, e, rs0, cs0, n0, res1, rs1, cs1, n1);
    forall p2 | p2 in res2
      ensures exists p1 :: p1 in res1 && Within(p1.Days(), s, e) && p1.Days() == p2.Days() && Pledges(cs2, p2.id) == Pledges(cs1, p1.id)
    {
      RepeatsOne(p2, cs2, cs1, ov, s, e);
    }
    forall p1 | p1 in res1 && Within(p1.Days(), s, e)
      ensures exists p2 :: p2 in res2 && p2.Days() == p1.Days() && Pledges(cs2, p2.id) == Pledges(cs1, p1.id)
    {
      RepeatedRow(user, s, e, rs1, cs1, n1, res2, rs2, cs2, n2, p1);
    }
  }

  /** A range of the user inside the window that the overlap query returns
      is repeated, with its pledges, by a row of a call that leaves no gap. */
  lemma RepeatedRow(user: nat, s: int, e: int, rs1: seq<ContributionRange>, cs1: seq<GoalContribution>, n1: nat,
                    res2: seq<ContributionRange>, rs2: seq<ContributionRange>, cs2: seq<GoalContribution>, n2: nat,
                    p1: ContributionRange)
    requires RangesOk(rs1, n1)
    requires Added(GetOverlappingRanges(rs1, user, s, e), user, s, e, rs1, cs1, n1, res2, rs2, cs2, n2)
    requires var ov := GetOverlappingRanges(rs1, user, s, e);
      && p1 in ov
      && (forall x :: x in ov ==> Within(x.Days(), s, e) && x.start < x.end)
      && Filled(DaysOf(ov), s, e) == DaysOf(ov) && Gaps(DaysOf(ov), s, e) == []
    ensures exists p2 :: p2 in res2 && p2.Days() == p1.Days() && Pledges(cs2, p2.id) == Pledges(cs1, p1.id)
  {
    var ov := GetOverlappingRanges(rs1, user, s, e);
    InDaysOf(ov, p1);
    PlannedRow(res2, DaysOf(ov), s, e, p1.Days());
    var p2 :| p2 in res2 && p2.Days() == p1.Days();
    RepeatsOne(p2, cs2, cs1, ov, s, e);
    var r :| r in ov && r.Days() == p2.Days() && Pledges(cs2, p2.id) == Pledges(cs1, r.id);
    SameDaysSame(rs1, n1, r, p1);
  }

  /** Every span planned with no gap is the days of a returned row. */
  lemma PlannedRow(res: seq<ContributionRange>, ds: seq<Span>, s: int, e: int, q: Span)
    requires DaysOf(res) == SortBy(Planned(ds, s, e), StartOf)
    requires Filled(ds, s, e) == ds && Gaps(ds, s, e) == [] && q in ds
    ensures exists p :: p in res && p.Days() == q
  {
    assert Planned(ds, s, e) == ds + [];
    SameMembers(DaysOf(res), ds);
    RowOfDays(res, q);
  }

  lemma RowOfDays(res: seq<ContributionRange>, q: Span)
    requires q in DaysOf(res)
    ensures exists p :: p in res && p.Days() == q
  {
    var k :| 0 <= k < |res| && DaysOf(res)[k] == q;
    assert res[k] in res;
  }

  /** Two stored ranges of one user over the same days are the same range. */
  lemma SameDaysSame(rs: seq<ContributionRange>, n: nat, a: ContributionRange, b: ContributionRange)
    requires RangesOk(rs, n) && a in rs && b in rs && a.user == b.user && a.Days() == b.Days()
    ensures a == b
  {
    assert !Disjoint(a.Days(), b.Days());
  }

  // ---------------------------------------------------------------------
  // When add_new_range is refused

  /** A backed-up pledge of goal g can be recreated on a range with days q:
      g is not completed and q lies inside its window [start, expected]
      (the checks of `GoalContribution.save` other than the total). */
  predicate PledgeFits(g: GoalRow, q: Span) {
    g.status != Completed && Ordinal(g.start) <= q.start && q.end <= Ordinal(g.expected)
  }

  /** Every pledge of backup whose goal is stored can be recreated on q. */
  ghost predicate BackupFits(goals: map<nat, GoalRow>, backup: seq<Pledge>, q: Span) {
    forall p :: p in backup && p.goal in goals ==> PledgeFits(goals[p.goal], q)
  }

  /** A piece with days q can be created and can take every pledge of
      backup: it is longer than a day and every pledge fits it. */
  ghost predicate SpanFits(goals: map<nat, GoalRow>, backup: seq<Pledge>, q: Span) {
    q.start < q.end && BackupFits(goals, backup, q)
  }

  ghost predicate SpansFit(goals: map<nat, GoalRow>, backup: seq<Pledge>, spans: seq<Span>) {
    forall q :: q in spans ==> SpanFits(goals, backup, q)
  }

  /** A piece q of r lies inside r and apart from the pieces done before. */
  predicate Apart(r: ContributionRange, done: seq<Span>, q: Span) {
    Within(q, r.start, r.end) && forall p :: p in done ==> Disjoint(p, q)
  }

  /** The three pieces of r one by one: the plan of r is left + middle +
      right, it fits exactly when each piece present fits, and on a window
      r meets each piece lies inside r apart from the ones before it. */
  lemma PieceParts(goals: map<nat, GoalRow>, backup: seq<Pledge>, r: ContributionRange, s: int, e: int,
                   ls: Span, ms: Span, rs: Span, left: seq<Span>, middle: seq<Span>, right: seq<Span>)
    requires r.start < r.end
    requires ls == Span(r.start, s - 1) && left == (if r.start < s then [ls] else [])
    requires ms.start == (if r.start <= s then s else r.start)
    requires ms.end == ms.start + Min(r.end - ms.start, e - ms.start)
    requires middle == (if ms.end > ms.start then [ms] else [])
    requires rs == Span(e + 1, r.end) && right == (if r.end > e then [rs] else [])
    ensures PieceSpans(r.Days(), s, e) == left + middle + right
    ensures SpansFit(goals, backup, left + middle + right) <==>
      && (r.start < s ==> SpanFits(goals, backup, ls))
      && (ms.end > ms.start ==> SpanFits(goals, backup, ms))
      && (r.end > e ==> SpanFits(goals, backup, rs))
    ensures s <= e && Intersects(r.Days(), s, e) ==>
      Apart(r, [], ls) && Apart(r, left, ms) && Apart(r, left + middle, rs)
  {
    assert forall q :: q in left + middle + right <==> q in left || q in middle || q in right;
  }

  /** Every piece of r for the window [s, e] can be created and can take
      every pledge r has in cs. */
  ghost predicate PiecesFit(goals: map<nat, GoalRow>, cs: seq<GoalContribution>, r: ContributionRange, s: int, e: int) {
    SpansFit(goals, Pledges(cs, r.id), PieceSpans(r.Days(), s, e))
  }

  /** `add_new_range` over the overlapping ranges ov goes through: every
      piece of every overlapping range fits its pledges, and every gap the
      pieces leave in [s, e] is longer than a day. */
  ghost predicate Splittable(ov: seq<ContributionRange>, goals: map<nat, GoalRow>, cs: seq<GoalContribution>,
                             s: int, e: int) {
    && (forall r :: r in ov ==> PiecesFit(goals, cs, r, s, e))
    && (forall g :: g in Gaps(Filled(DaysOf(ov), s, e), s, e) ==> g.start < g.end)
  }

  /** The gaps share no day with the ranges of the user in rs, nor with
      each other. */
  ghost predicate FreeGaps(rs: seq<ContributionRange>, user: nat, gaps: seq<Span>) {
    && (forall x, g :: x in rs && x.user == user && g in gaps ==> Disjoint(x.Days(), g))
    && (forall j, k :: 0 <= j < k < |gaps| ==> Disjoint(gaps[j], gaps[k]))
  }

  lemma InDaysOf(rs: seq<ContributionRange>, x: ContributionRange)
    requires x in rs
    ensures x.Days() in DaysOf(rs)
  {
    var k :| 0 <= k < |rs| && rs[k] == x;
    assert DaysOf(rs)[k] == x.Days();
  }

  /** A span that shares no day with any range of the user meets none of
      them in the overlap query. */
  lemma NoOverlapWith(rs: seq<ContributionRange>, user: nat, q: Span)
    requires forall x :: x in rs ==> x.start <= x.end
    ensures q.start <= q.end && (forall x :: x in rs && x.user == user ==> Disjoint(x.Days(), q)) ==>
      GetOverlappingRanges(rs, user, q.start, q.end) == []
  {
    var ov := GetOverlappingRanges(rs, user, q.start, q.end);
    if q.start <= q.end {
      forall x | x in ov ensures x.user == user && !Disjoint(x.Days(), q) {
        OverlapIsIntersection(x, user, q.start, q.end);
      }
    }
    if ov != [] {
      assert ov[0] in ov;
    }
  }

  /** The prefix sums of percentages grow. */
  lemma SumPercentPrefix(ps: seq<Pledge>, k: nat)
    requires k <= |ps|
    ensures SumPercent(ps[..k]) <= SumPercent(ps)
  {
    assert ps == ps[..k] + ps[k..];
    SumPercentAppend(ps[..k], ps[k..]);
  }

  /** The totals at pass i of copying backup onto a range whose pledges
      were before: adding backup[i] to the pledges so far makes the total of
      before and the first i + 1 backed-up pledges, which is at most the
      total of before and all of backup. */
  lemma CopyTotals(before: seq<Pledge>, backup: seq<Pledge>, i: nat)
    requires i < |backup|
    ensures SumPercent(before + backup[..i]) + backup[i].percentage == SumPercent(before) + SumPercent(backup[..i + 1])
    ensures SumPercent(backup[..i + 1]) <= SumPercent(backup)
    ensures backup[..i + 1] == backup[..i] + [backup[i]]
  {
    SumPercentAppend(before, backup[..i]);
    TakeNext(backup, i);
    SumPercentAppend(backup[..i], [backup[i]]);
    assert [backup[i]][..0] == [];
    SumPercentPrefix(backup, i + 1);
  }

  /** On a consistent store every range the overlap query returns for a
      window [s, e] with s <= e meets that window. */
  lemma OverlapsMeet(rs: seq<ContributionRange>, nextRangeId: nat, user: nat, s: int, e: int)
    requires RangesOk(rs, nextRangeId)
    ensures s <= e ==> forall r :: r in GetOverlappingRanges(rs, user, s, e) ==> Intersects(r.Days(), s, e)
  {
    forall r | r in GetOverlappingRanges(rs, user, s, e) && s <= e ensures Intersects(r.Days(), s, e) {
      OverlapIsIntersection(r, user, s, e);
    }
  }

  /** The gaps of [s, e] left by pairwise disjoint spans fl lie inside the
      window, share no day with any span of fl and none with each other. */
  lemma GapsApart(fl: seq<Span>, s: int, e: int)
    requires AllWellFormed(fl) && DistinctDisjoint(fl) && TouchesWindow(fl, s, e)
    ensures forall g :: g in Gaps(fl, s, e) ==> Within(g, s, e)
    ensures forall q, g :: q in fl && g in Gaps(fl, s, e) ==> Disjoint(q, g)
    ensures forall j, k :: 0 <= j < k < |Gaps(fl, s, e)| ==> Disjoint(Gaps(fl, s, e)[j], Gaps(fl, s, e)[k])
  {
    var gaps := Gaps(fl, s, e);
    GapsMeaning(fl, s, e);
    forall q, g | q in fl && g in gaps ensures Disjoint(q, g) {
      var d := if q.start <= g.start then g.start else q.start;
      assert Contains(q, d) ==> CoveredBy(fl, d);
      assert Contains(g, d) ==> CoveredBy(gaps, d);
    }
  }

  /** A range of the user that the overlap query of [s, e] did not return
      shares no day with the window. */
  lemma MissesWindow(oldR: seq<ContributionRange>, oldN: nat, user: nat, s: int, e: int, x: ContributionRange)
    requires RangesOk(oldR, oldN) && s <= e
    requires x in oldR && x.user == user && x.id !in RangeIds(GetOverlappingRanges(oldR, user, s, e))
    ensures !Intersects(x.Days(), s, e)
  {
    assert x !in GetOverlappingRanges(oldR, user, s, e);
    OverlapIsIntersection(x, user, s, e);
  }

  /** After the overlapping ranges have been split (the table rs1 holds the
      other ranges and the pieces), the gaps of the window are free for the
      fills: they meet no range of the user and are pairwise disjoint. */
  lemma GapsAreFree(ov: seq<ContributionRange>, user: nat, s: int, e: int, oldR: seq<ContributionRange>,
                    oldN: nat, pieces: seq<ContributionRange>, rs1: seq<ContributionRange>)
    requires RangesOk(oldR, oldN) && ov == GetOverlappingRanges(oldR, user, s, e) && s <= e
    requires forall x :: x in rs1 ==> (x in oldR && x.id !in RangeIds(ov)) || x in pieces
    requires DaysOf(pieces) == Filled(DaysOf(ov), s, e)
    ensures FreeGaps(rs1, user, Gaps(DaysOf(pieces), s, e))
  {
    var gaps := Gaps(DaysOf(pieces), s, e);
    OverlapShape(oldR, oldN, user, s, e);
    FilledReady(DaysOf(ov), s, e);
    GapsApart(DaysOf(pieces), s, e);
    forall x, g | x in rs1 && x.user == user && g in gaps ensures Disjoint(x.Days(), g) {
      GapMisses(ov, user, s, e, oldR, oldN, pieces, x, g);
    }
  }

  lemma GapMisses(ov: seq<ContributionRange>, user: nat, s: int, e: int, oldR: seq<ContributionRange>,
                  oldN: nat, pieces: seq<ContributionRange>, x: ContributionRange, g: Span)
    requires RangesOk(oldR, oldN) && ov == GetOverlappingRanges(oldR, user, s, e) && s <= e
    requires (x in oldR && x.user == user && x.id !in RangeIds(ov)) || x in pieces
    requires Within(g, s, e)
    requires forall q :: q in DaysOf(pieces) ==> Disjoint(q, g)
    ensures Disjoint(x.Days(), g)
  {
    if x in pieces {
      InDaysOf(pieces, x);
    } else {
      MissesWindow(oldR, oldN, user, s, e, x);
    }
  }

  /** A fill for gaps[i], created after the fills for the gaps before it
      (the table rs holds oldR and those fills), meets no range of the user
      when the gaps are free. */
  lemma FillIsFree(rs: seq<ContributionRange>, oldR: seq<ContributionRange>, fills: seq<ContributionRange>,
                   user: nat, gaps: seq<Span>, i: nat)
    requires forall x :: x in rs ==> x in oldR || x in fills
    requires forall x :: x in rs ==> x.start <= x.end
    requires i < |gaps| && DaysOf(fills) == gaps[..i]
    ensures gaps[i].start <= gaps[i].end && FreeGaps(oldR, user, gaps) ==>
      GetOverlappingRanges(rs, user, gaps[i].start, gaps[i].end) == []
  {
    assert gaps[i] in gaps;
    forall x | x in fills ensures exists k :: 0 <= k < i && x.Days() == gaps[k] {
      var k :| 0 <= k < |fills| && fills[k] == x;
      assert DaysOf(fills)[k] == x.Days();
    }
    NoOverlapWith(rs, user, gaps[i]);
  }

  /** A piece of r, created once r has been deleted (the table rs holds
      base, the table without r, and the pieces made so far), meets no range
      of r's user when it lies inside r and apart from those pieces. */
  lemma PieceIsFree(rs: seq<ContributionRange>, base: seq<ContributionRange>, pieces: seq<ContributionRange>,
                    r: ContributionRange, q: Span)
    requires forall x :: x in rs ==> x in base || x in pieces
    requires forall x :: x in rs ==> x.start <= x.end
    requires forall x :: x in base && x.user == r.user ==> Disjoint(x.Days(), r.Days())
    ensures q.start <= q.end && Within(q, r.start, r.end) && (forall p :: p in DaysOf(pieces) ==> Disjoint(p, q)) ==>
      GetOverlappingRanges(rs, r.user, q.start, q.end) == []
  {
    forall x | x in pieces ensures x.Days() in DaysOf(pieces) {
      InDaysOf(pieces, x);
    }
    NoOverlapWith(rs, r.user, q);
  }

  /** A stored range that meets the window has at least one piece. */
  lemma PiecesExist(r: ContributionRange, s: int, e: int)
    requires r.start < r.end && Intersects(r.Days(), s, e) && s <= e
    ensures PieceSpans(r.Days(), s, e) != []
  {
  }

  /** A pledge of a completed goal on a range the window meets refuses the
      whole call: the first piece it is recreated on is refused. */
  lemma CompletedPledgeRefused(rs: seq<ContributionRange>, nextRangeId: nat, cs: seq<GoalContribution>,
                               goals: map<nat, GoalRow>, user: nat, s: int, e: int, r: ContributionRange, p: Pledge)
    requires RangesOk(rs, nextRangeId) && s <= e
    requires r in GetOverlappingRanges(rs, user, s, e)
    requires p in Pledges(cs, r.id) && p.goal in goals && goals[p.goal].status == Completed
    ensures !Splittable(GetOverlappingRanges(rs, user, s, e), goals, cs, s, e)
  {
    OverlapIsIntersection(r, user, s, e);
    PiecesExist(r, s, e);
    var q := PieceSpans(r.Days(), s, e)[0];
    assert q in PieceSpans(r.Days(), s, e);
    assert !BackupFits(goals, Pledges(cs, r.id), q);
  }

  /** A window that leaves a gap of a single day is refused, whatever the
      pledges: the fill would be a range whose start is its end. Days 1 to
      60 and a window of 30 to 61 leave day 61 alone. */
  lemma OneDayGapScenario(goals: map<nat, GoalRow>, cs: seq<GoalContribution>, r: ContributionRange)
    requires r.start == 1 && r.end == 60
    ensures Filled(DaysOf([r]), 30, 61) == [Span(1, 29), Span(30, 60)]
    ensures Gaps(Filled(DaysOf([r]), 30, 61), 30, 61) == [Span(61, 61)]
    ensures !Splittable([r], goals, cs, 30, 61)
  {
    var f := [Span(1, 29), Span(30, 60)];
    assert DaysOf([r]) == [Span(1, 60)];
    FilledSnoc([], Span(1, 60), 30, 61);
    assert PieceSpans(Span(1, 60), 30, 61) == f;
    assert [] + f == f;
    assert Insert(Span(30, 60), [], StartOf) == [Span(30, 60)];
    assert SortBy(f, StartOf) == f;
    assert GapsFrom([], 61, 61) == [Span(61, 61)];
    assert GapsFrom([Span(30, 60)], 30, 61) == [Span(61, 61)];
    assert GapsFrom(f, 30, 61) == [Span(61, 61)];
    assert Span(61, 61) in Gaps(Filled(DaysOf([r]), 30, 61), 30, 61);
  }

  /** Adding the window of a stored range again goes through exactly when
      each of its pledges can be recreated on it. */
  lemma SameWindowSplittable(rs: seq<ContributionRange>, nextRangeId: nat, cs: seq<GoalContribution>,
                             goals: map<nat, GoalRow>, r: ContributionRange)
    requires RangesOk(rs, nextRangeId) && r in rs
    ensures Splittable(GetOverlappingRanges(rs, r.user, r.start, r.end), goals, cs, r.start, r.end) <==>
      BackupFits(goals, Pledges(cs, r.id), r.Days())
  {
    SameWindowOverlap(rs, nextRangeId, r);
    SingleRangeSplittable(goals, cs, r);
  }

  /** A range split over its own window goes through exactly when each of
      its pledges can be recreated on it. */
  lemma SingleRangeSplittable(goals: map<nat, GoalRow>, cs: seq<GoalContribution>, r: ContributionRange)
    requires r.start < r.end
    ensures Splittable([r], goals, cs, r.start, r.end) <==> BackupFits(goals, Pledges(cs, r.id), r.Days())
  {
    var s, e := r.start, r.end;
    assert DaysOf([r]) == [Span(s, e)];
    PlannedSameWindow(s, e);
    PieceInside(r.Days(), s, e);
    SingleSpanFits(goals, Pledges(cs, r.id), r.Days());
    assert PiecesFit(goals, cs, r, s, e) <==> BackupFits(goals, Pledges(cs, r.id), r.Days());
    assert Gaps(Filled(DaysOf([r]), s, e), s, e) == [];
  }

  lemma SingleSpanFits(goals: map<nat, GoalRow>, backup: seq<Pledge>, q: Span)
    requires q.start < q.end
    ensures SpansFit(goals, backup, [q]) <==> BackupFits(goals, backup, q)
  {
    assert q in [q];
  }

  /** Days 1 to 60 and a window of 31 to 90 go through exactly when every
      pledge of the range can be recreated on days 1 to 30 and on days 31
      to 60; the fill of 61 to 90 is always longer than a day. */
  lemma OverlapScenarioSplittable(goals: map<nat, GoalRow>, cs: seq<GoalContribution>, r: ContributionRange)
    requires r.start == 1 && r.end == 60
    ensures Splittable([r], goals, cs, 31, 90) <==>
      BackupFits(goals, Pledges(cs, r.id), Span(1, 30)) && BackupFits(goals, Pledges(cs, r.id), Span(31, 60))
  {
    var ps := [Span(1, 30), Span(31, 60)];
    ScenarioFilled(r);
    TwoSpansFit(goals, Pledges(cs, r.id), ps);
    assert r.Days() == Span(1, 60);
    assert PiecesFit(goals, cs, r, 31, 90) <==> SpansFit(goals, Pledges(cs, r.id), ps);
  }

  lemma ScenarioFilled(r: ContributionRange)
    requires r.start == 1 && r.end == 60
    ensures Filled(DaysOf([r]), 31, 90) == PieceSpans(r.Days(), 31, 90) == [Span(1, 30), Span(31, 60)]
    ensures Gaps(Filled(DaysOf([r]), 31, 90), 31, 90) == [Span(61, 90)]
  {
    PlannedOverlapScenario();
    assert DaysOf([r]) == [Span(1, 60)];
    FilledSnoc([], Span(1, 60), 31, 90);
    assert [] + PieceSpans(Span(1, 60), 31, 90) == PieceSpans(Span(1, 60), 31, 90);
  }

  lemma TwoSpansFit(goals: map<nat, GoalRow>, backup: seq<Pledge>, ps: seq<Span>)
    requires |ps| == 2 && ps[0].start < ps[0].end && ps[1].start < ps[1].end
    ensures SpansFit(goals, backup, ps) <==> BackupFits(goals, backup, ps[0]) && BackupFits(goals, backup, ps[1])
  {
    assert ps[0] in ps && ps[1] in ps;
    assert forall q :: q in ps ==> q == ps[0] || q == ps[1];
  }

  // ---------------------------------------------------------------------
  // The store

  class Db {
    var goals: map<nat, GoalRow>
    var ranges: seq<ContributionRange>
    var contributions: seq<GoalContribution>
    var nextGoalId: nat
    var nextRangeId: nat
    var nextContributionId: nat

    /** The integrity the save methods and the foreign keys maintain: stored
        goals are normalised, range ids are unique and fresh ids lie above
        them, a range spans at least two days, one user's ranges are pairwise
        disjoint, every contribution points at a stored goal and range, and
        no range carries more than 100 percent. */
    ghost predicate Valid()
      reads this
    {
      && GoalsOk(goals, nextGoalId)
      && RangesOk(ranges, nextRangeId)
      && ContributionsOk(contributions, goals.Keys, ranges, nextContributionId)
      && TotalsOk(ranges, contributions)
    }

    constructor ()
      ensures Valid()
      ensures goals == map[] && ranges == [] && contributions == []
    {
      goals := map[];
      ranges := [];
      contributions := [];
      nextGoalId := 0;
      nextRangeId := 0;
      nextContributionId := 0;
    }

    /** The database write of `Goal.save` for a new goal: the row is stored
        under the next goal id. */
    method InsertGoal(g: GoalRow) returns (id: nat)
      requires Valid() && RowValid(g)
      modifies this
      ensures Valid()
      ensures id == old(nextGoalId) && id !in old(goals)
      ensures goals == old(goals)[id := g.(id := id)] && nextGoalId == id + 1
      ensures ranges == old(ranges) && contributions == old(contributions)
      ensures nextRangeId == old(nextRangeId) && nextContributionId == old(nextContributionId)
    {
      id := nextGoalId;
      goals := goals[id := g.(id := id)];
      nextGoalId := nextGoalId + 1;
    }

    /** The database write of `Goal.save` for a stored goal. */
    method UpdateGoal(g: GoalRow)
      requires Valid() && g.id in goals && RowValid(g)
      modifies this
      ensures Valid()
      ensures goals == old(goals)[g.id := g] && nextGoalId == old(nextGoalId)
      ensures ranges == old(ranges) && contributions == old(contributions)
      ensures nextRangeId == old(nextRangeId) && nextContributionId == old(nextContributionId)
    {
      goals := goals[g.id := g];
    }

    /** `ContributionRange.objects.create(user, start_date, end_date)`: refused
        unless start < end and no range of the user overlaps [s, e]. */
    method CreateRange(user: nat, s: int, e: int) returns (res: Result<ContributionRange, LedgerError>)
      requires Valid()
      modifies this
      ensures Valid()
      ensures s >= e ==> res == Err(StartNotBeforeEnd)
      ensures s < e && GetOverlappingRanges(old(ranges), user, s, e) != [] ==> res == Err(OverlappingRanges)
      ensures s < e && GetOverlappingRanges(old(ranges), user, s, e) == [] ==>
        res == Ok(ContributionRange(old(nextRangeId), user, s, e))
      ensures res.Err? ==> unchanged(this)
      ensures res.Ok? ==>
        && ranges == old(ranges) + [res.value]
        && nextRangeId == old(nextRangeId) + 1
        && contributions == old(contributions) && nextContributionId == old(nextContributionId)
        && goals == old(goals) && nextGoalId == old(nextGoalId)
        && Pledges(contributions, res.value.id) == []
    {
      if s >= e {
        return Err(StartNotBeforeEnd);
      }
      if GetOverlappingRanges(ranges, user, s, e) != [] {
        return Err(OverlappingRanges);
      }
      var row := ContributionRange(nextRangeId, user, s, e);
      forall b | b in ranges && b.user == user ensures Disjoint(row.Days(), b.Days()) {
        OverlapIsIntersection(b, user, s, e);
      }
      AppendRangeOk(ranges, nextRangeId, contributions, goals.Keys, nextContributionId, row);
      ranges := ranges + [row];
      nextRangeId := nextRangeId + 1;
      return Ok(row);
    }

    /** Deletes every contribution on range rid. */
    method DeleteContributionsOf(rid: nat)
      requires Valid()
      modifies this
      ensures Valid()
      ensures contributions == DropRange(old(contributions), rid)
      ensures forall other :: Pledges(contributions, other) == if other == rid then [] else old(Pledges(contributions, other))
      ensures ranges == old(ranges) && goals == old(goals) && nextRangeId == old(nextRangeId)
      ensures nextGoalId == old(nextGoalId) && nextContributionId == old(nextContributionId)
    {
      DropOk(ranges, contributions, goals.Keys, nextContributionId, rid);
      contributions := DropRange(contributions, rid);
    }

    /** `range.delete()`: refused while a contribution still points at the
        range (`on_delete=PROTECT`). */
    method DeleteRange(r: ContributionRange) returns (o: Outcome<LedgerError>)
      requires Valid() && r in ranges
      modifies this
      ensures Valid()
      ensures o.Fail? <==> exists c :: c in old(contributions) && c.range == r.id
      ensures o.Fail? ==> o.error == ProtectedRange && unchanged(this)
      ensures o.Pass? ==> ranges == Without(old(ranges), r.id)
      ensures contributions == old(contributions) && goals == old(goals) && nextRangeId == old(nextRangeId)
      ensures nextGoalId == old(nextGoalId) && nextContributionId == old(nextContributionId)
    {
      if exists c :: c in contributions && c.range == r.id {
        return Fail(ProtectedRange);
      }
      RemoveRangeOk(ranges, nextRangeId, contributions, goals.Keys, nextContributionId, r.id);
      ranges := Without(ranges, r.id);
      return Pass;
    }

    /** `GoalContribution.objects.create(goal, percentage, date_range)`: a new
        contribution is refused, in this order, for a completed goal, for a
        range starting before the goal's start or ending after its expected
        date, and when it would take the range's total above 100. */
    method CreateContribution(goal: nat, r: ContributionRange, percentage: nat)
      returns (res: Result<GoalContribution, LedgerError>)
      requires Valid() && goal in goals && r in ranges
      modifies this
      ensures Valid()
      ensures var g := old(goals[goal]);
        && (g.status == Completed ==> res == Err(CompletedGoal))
        && (g.status != Completed && r.start < Ordinal(g.start) ==> res == Err(RangeBeforeGoalStart))
        && (g.status != Completed && r.start >= Ordinal(g.start) && r.end > Ordinal(g.expected) ==>
              res == Err(RangeAfterGoalEnd))
        && (g.status != Completed && r.start >= Ordinal(g.start) && r.end <= Ordinal(g.expected) ==>
              (res.Err? <==> old(TotalPercentage(contributions, r.id)) + percentage > 100))
      ensures res.Err? ==> unchanged(this)
      ensures res.Ok? ==>
        && res.value == GoalContribution(old(nextContributionId), goal, r.id, percentage, None)
        && contributions == old(contributions) + [res.value]
        && nextContributionId == old(nextContributionId) + 1
        && ranges == old(ranges) && goals == old(goals)
        && nextRangeId == old(nextRangeId) && nextGoalId == old(nextGoalId)
      ensures res.Ok? ==> forall rid :: (Pledges(contributions, rid) ==
        old(Pledges(contributions, rid)) + (if rid == r.id then [Pledge(goal, percentage)] else []))
    {
      var g := goals[goal];
      if g.status == Completed {
        return Err(CompletedGoal);
      }
      if r.start < Ordinal(g.start) {
        return Err(RangeBeforeGoalStart);
      }
      if r.end > Ordinal(g.expected) {
        return Err(RangeAfterGoalEnd);
      }
      if TotalPercentage(contributions, r.id) + percentage > 100 {
        return Err(PercentageOver100);
      }
      var c := GoalContribution(nextContributionId, goal, r.id, percentage, None);
      assert r.id in RangeIds(ranges);
      AppendContributionOk(ranges, contributions, goals.Keys, nextContributionId, c);
      contributions := contributions + [c];
      nextContributionId := nextContributionId + 1;
      return Ok(c);
    }

    /** `contribution.save()` of the stored contribution at position k with
        a new percentage. An existing contribution skips the completed-goal
        check but not the window check; its percentage check is the
        corrected one, which leaves the contribution's own stored share out
        of the range's sum (see ResaveAllowedAsWritten). */
    method UpdateContribution(k: nat, r: ContributionRange, percentage: nat)
      returns (res: Result<GoalContribution, LedgerError>)
      requires Valid() && k < |contributions| && r in ranges && r.id == contributions[k].range
      modifies this
      ensures Valid()
      ensures var c := old(contributions[k]); var g := old(goals[c.goal]);
        && (r.start < Ordinal(g.start) ==> res == Err(RangeBeforeGoalStart))
        && (r.start >= Ordinal(g.start) && r.end > Ordinal(g.expected) ==> res == Err(RangeAfterGoalEnd))
        && (r.start >= Ordinal(g.start) && r.end <= Ordinal(g.expected) ==>
              (res.Err? <==> !ResaveAllowed(old(contributions), k, percentage)))
      ensures res.Err? ==> unchanged(this)
      ensures res.Ok? ==>
        && res.value == old(contributions[k]).(percentage := percentage)
        && contributions == old(contributions)[k := res.value]
        && TotalPercentage(contributions, r.id) ==
             old(TotalPercentage(contributions, r.id)) - old(contributions[k].percentage) + percentage
        && (forall rid :: rid != r.id ==> TotalPercentage(contributions, rid) == old(TotalPercentage(contributions, rid)))
        && ranges == old(ranges) && goals == old(goals) && nextContributionId == old(nextContributionId)
        && nextRangeId == old(nextRangeId) && nextGoalId == old(nextGoalId)
    {
      var c := contributions[k];
      assert c in contributions;
      var g := goals[c.goal];
      if r.start < Ordinal(g.start) {
        return Err(RangeBeforeGoalStart);
      }
      if r.end > Ordinal(g.expected) {
        return Err(RangeAfterGoalEnd);
      }
      if !ResaveAllowed(contributions, k, percentage) {
        return Err(PercentageOver100);
      }
      var updated := c.(percentage := percentage);
      ghost var before := contributions;
      forall rid ensures TotalPercentage(before[k := updated], rid) + (if c.range == rid then c.percentage else 0)
                      == TotalPercentage(before, rid) + (if c.range == rid then percentage else 0) {
        TotalUpdate(before, k, percentage, rid);
      }
      forall x | x in before[k := updated] ensures x == updated || x in before {
        var j :| 0 <= j < |before| && before[k := updated][j] == x;
        if j != k { assert before[j] == x; }
      }
      contributions := contributions[k := updated];
      return Ok(updated);
    }

    // -------------------------------------------------------------------
    // add_new_range

    /** One `GoalContribution.objects.create` of a backed-up pledge on row:
        refused, and nothing written, unless the pledge fits the row and the
        row's total stays within 100. */
    method AddPledge(p: Pledge, row: ContributionRange) returns (o: Outcome<LedgerError>)
      requires Valid() && row in ranges && p.goal in goals
      modifies this
      ensures Valid()
      ensures ranges == old(ranges) && goals == old(goals)
      ensures nextRangeId == old(nextRangeId) && nextGoalId == old(nextGoalId)
      ensures o.Pass? <==>
        PledgeFits(goals[p.goal], row.Days()) && old(TotalPercentage(contributions, row.id)) + p.percentage <= 100
      ensures goals[p.goal].status == Completed ==> o == Fail(CompletedGoal)
      ensures o.Fail? ==> unchanged(this)
      ensures o.Pass? ==>
        contributions == old(contributions) + [GoalContribution(old(nextContributionId), p.goal, row.id, p.percentage, None)]
      ensures o.Pass? ==> forall rid :: (Pledges(contributions, rid) ==
        old(Pledges(contributions, rid)) + (if rid == row.id then [p] else []))
      ensures forall c :: c in old(contributions) ==> c in contributions
    {
      var res := CreateContribution(p.goal, row, p.percentage);
      if res.Err? {
        return Fail(res.error);
      }
      assert Pledge(p.goal, p.percentage) == p;
      return Pass;
    }

    /** `add_contributions`: one new contribution on row per backed-up
        pledge, in order, each through `GoalContribution.save`. It stops at
        the first refusal, which comes exactly when some pledge does not fit
        the row or the pledges would take the row above 100 percent. The
        new contributions carry no cached amount. */
    method CopyPledges(backup: seq<Pledge>, row: ContributionRange) returns (o: Outcome<LedgerError>)
      requires Valid() && row in ranges
      requires forall p :: p in backup ==> p.goal in goals
      modifies this
      ensures Valid()
      ensures ranges == old(ranges) && goals == old(goals)
      ensures nextRangeId == old(nextRangeId) && nextGoalId == old(nextGoalId)
      ensures o.Pass? <==>
        && (forall p :: p in backup ==> PledgeFits(goals[p.goal], row.Days()))
        && old(TotalPercentage(contributions, row.id)) + SumPercent(backup) <= 100
      ensures o.Pass? ==> Pledges(contributions, row.id) == old(Pledges(contributions, row.id)) + backup
      ensures forall rid :: rid != row.id ==> Pledges(contributions, rid) == old(Pledges(contributions, rid))
      ensures forall c :: c in old(contributions) ==> c in contributions
      ensures forall c :: c in contributions ==> c in old(contributions) || (c.range == row.id && c.amount.None?)
    {
      ghost var pre := Pledges(contributions, row.id);
      var i := 0;
      while i < |backup|
        invariant 0 <= i <= |backup|
        invariant Valid()
        invariant ranges == old(ranges) && goals == old(goals)
        invariant nextRangeId == old(nextRangeId) && nextGoalId == old(nextGoalId)
        invariant Pledges(contributions, row.id) == pre + backup[..i]
        invariant forall rid :: rid != row.id ==> Pledges(contributions, rid) == old(Pledges(contributions, rid))
        invariant forall p :: p in backup[..i] ==> PledgeFits(goals[p.goal], row.Days())
        invariant SumPercent(pre) + SumPercent(backup[..i]) <= 100
        invariant forall c :: c in old(contributions) ==> c in contributions
        invariant forall c :: c in contributions ==> c in old(contributions) || (c.range == row.id && c.amount.None?)
      {
        var step := CopyNext(backup, row, i, pre);
        if step.Fail? {
          return step;
        }
        i := i + 1;
      }
      assert backup[..i] == backup;
      return Pass;
    }

    /** One pass of `add_contributions`: the pledge backup[i] onto row,
        which holds the pledges pre it had before the loop and the pledges
        of backup before i. */
    method CopyNext(backup: seq<Pledge>, row: ContributionRange, i: nat, ghost pre: seq<Pledge>)
      returns (o: Outcome<LedgerError>)
      requires Valid() && row in ranges && i < |backup|
      requires forall p :: p in backup ==> p.goal in goals
      requires Pledges(contributions, row.id) == pre + backup[..i]
      modifies this
      ensures Valid()
      ensures ranges == old(ranges) && goals == old(goals)
      ensures nextRangeId == old(nextRangeId) && nextGoalId == old(nextGoalId)
      ensures backup[i] in backup && backup[..i + 1] == backup[..i] + [backup[i]]
      ensures SumPercent(backup[..i + 1]) <= SumPercent(backup)
      ensures o.Pass? <==>
        PledgeFits(goals[backup[i].goal], row.Days()) && SumPercent(pre) + SumPercent(backup[..i + 1]) <= 100
      ensures o.Pass? ==> Pledges(contributions, row.id) == pre + backup[..i + 1]
      ensures forall rid :: rid != row.id ==> Pledges(contributions, rid) == old(Pledges(contributions, rid))
      ensures forall c :: c in old(contributions) ==> c in contributions
      ensures forall c :: c in contributions ==> c in old(contributions) || (c.range == row.id && c.amount.None?)
    {
      assert backup[i] in backup;
      CopyTotals(pre, backup, i);
      o := AddPledge(backup[i], row);
    }

    /** One `ContributionRange.objects.create` of a piece followed by
        `add_contributions` of the backed-up pledges onto it: it goes
        through exactly when the piece is longer than a day, meets no range
        of the user, every pledge fits it and the pledges total at most
        100. */
    method CreatePiece(user: nat, span: Span, backup: seq<Pledge>) returns (res: Result<ContributionRange, LedgerError>)
      requires Valid()
      requires forall p :: p in backup ==> p.goal in goals
      modifies this
      ensures Valid()
      ensures goals == old(goals) && nextGoalId == old(nextGoalId) && nextRangeId >= old(nextRangeId)
      ensures res.Ok? <==>
        && span.start < span.end
        && GetOverlappingRanges(old(ranges), user, span.start, span.end) == []
        && BackupFits(goals, backup, span)
        && SumPercent(backup) <= 100
      ensures res.Ok? ==>
        && res.value == ContributionRange(old(nextRangeId), user, span.start, span.end)
        && ranges == old(ranges) + [res.value]
        && nextRangeId == old(nextRangeId) + 1
        && Pledges(contributions, res.value.id) == backup
        && (forall rid :: rid != res.value.id ==> Pledges(contributions, rid) == old(Pledges(contributions, rid)))
      ensures forall c :: c in old(contributions) ==> c in contributions
      ensures forall c :: c in contributions ==> c in old(contributions) || (c.range == old(nextRangeId) && c.amount.None?)
    {
      res := CreateRange(user, span.start, span.end);
      if res.Ok? {
        assert res.value.Days() == span;
        var o := CopyPledges(backup, res.value);
        if o.Fail? {
          res := Err(o.error);
        }
      }
    }

    /** The start of a pass of `add_new_range`: the pledges of r are backed
        up, its contributions deleted and then r itself. */
    method Detach(r: ContributionRange) returns (backup: seq<Pledge>)
      requires Valid() && r in ranges
      modifies this
      ensures Valid()
      ensures backup == old(Pledges(contributions, r.id))
      ensures forall p :: p in backup ==> p.goal in goals
      ensures SumPercent(backup) <= 100 && r.start < r.end
      ensures forall x :: x in ranges <==> x in old(ranges) && x.id != r.id
      ensures forall x :: x in ranges && x.user == r.user ==> Disjoint(x.Days(), r.Days())
      ensures forall c :: c in contributions ==> c in old(contributions)
      ensures forall c :: c in old(contributions) && c.range != r.id ==> c in contributions
      ensures forall rid :: rid != r.id ==> Pledges(contributions, rid) == old(Pledges(contributions, rid))
      ensures goals == old(goals) && nextGoalId == old(nextGoalId) && nextRangeId == old(nextRangeId)
    {
      backup := Pledges(contributions, r.id);
      PledgesFrom(contributions, r.id, goals.Keys);
      DeleteContributionsOf(r.id);
      var o := DeleteRange(r);
      assert o.Pass?;
    }

    /** While r is being rebuilt: the table is base (the table after r
        went) plus the pieces made so far, each a fresh range of r's user
        holding the backed-up pledges, and the ranges that existed before
        keep their pledges. */
    ghost predicate Rebuilding(r: ContributionRange, pieces: seq<ContributionRange>, backup: seq<Pledge>,
                               base: seq<ContributionRange>, n0: nat, before: seq<GoalContribution>)
      reads this
    {
      && (forall x :: x in ranges <==> x in base || x in pieces)
      && UniqueIds(pieces)
      && n0 <= nextRangeId
      && (forall p :: p in pieces ==>
            p.user == r.user && n0 <= p.id < nextRangeId && Pledges(contributions, p.id) == backup)
      && (forall rid: nat :: rid < n0 && rid != r.id ==> Pledges(contributions, rid) == Pledges(before, rid))
    }

    /** Creates one piece of r holding the backed-up pledges and appends it
        to the pieces made so far. */
    method AddPiece(r: ContributionRange, pieces: seq<ContributionRange>, span: Span, backup: seq<Pledge>,
                    ghost base: seq<ContributionRange>, ghost n0: nat, ghost before: seq<GoalContribution>)
      returns (res: Result<seq<ContributionRange>, LedgerError>)
      requires Valid()
      requires forall p :: p in backup ==> p.goal in goals
      requires Rebuilding(r, pieces, backup, base, n0, before)
      modifies this
      ensures Valid()
      ensures goals == old(goals) && nextGoalId == old(nextGoalId) && nextRangeId >= old(nextRangeId)
      ensures res.Ok? <==>
        && span.start < span.end
        && GetOverlappingRanges(old(ranges), r.user, span.start, span.end) == []
        && BackupFits(goals, backup, span)
        && SumPercent(backup) <= 100
      ensures res.Ok? ==> DaysOf(res.value) == DaysOf(pieces) + [span]
      ensures res.Ok? ==> Rebuilding(r, res.value, backup, base, n0, before)
      ensures forall c :: c in old(contributions) ==> c in contributions
      ensures forall c :: c in contributions ==> c in old(contributions) || (c.range >= old(nextRangeId) && c.amount.None?)
    {
      var piece := CreatePiece(r.user, span, backup);
      if piece.Err? {
        return Err(piece.error);
      }
      DaysOfSnoc(pieces, piece.value);
      UniqueSnoc(pieces, piece.value);
      return Ok(pieces + [piece.value]);
    }

    /** One pass of the loop of `add_new_range` over an overlapping range r:
        back up its pledges, delete its contributions, delete r (which the
        protection of its contributions would otherwise refuse) and recreate
        its left, middle and right pieces, each carrying the pledges. */
    method SplitRange(r: ContributionRange, s: int, e: int) returns (res: Result<seq<ContributionRange>, LedgerError>)
      requires Valid() && r in ranges
      modifies this
      ensures Valid()
      ensures goals == old(goals) && nextGoalId == old(nextGoalId) && nextRangeId >= old(nextRangeId)
      ensures res.Ok? ==>
        && DaysOf(res.value) == PieceSpans(r.Days(), s, e)
        && UniqueIds(res.value)
        && (forall x :: x in ranges <==> (x in old(ranges) && x.id != r.id) || x in res.value)
        && (forall p :: p in res.value ==> p.user == r.user && old(nextRangeId) <= p.id < nextRangeId)
        && (forall p :: p in res.value ==> Pledges(contributions, p.id) == old(Pledges(contributions, r.id)))
        && (forall rid: nat :: rid < old(nextRangeId) && rid != r.id ==>
              Pledges(contributions, rid) == old(Pledges(contributions, rid)))
      ensures res.Ok? ==> PiecesFit(goals, old(contributions), r, s, e)
      ensures s <= e && Intersects(r.Days(), s, e) && PiecesFit(goals, old(contributions), r, s, e) ==> res.Ok?
      ensures forall c :: c in old(contributions) && c.range != r.id ==> c in contributions
      ensures forall c :: c in contributions ==> c in old(contributions) || (c.range >= old(nextRangeId) && c.amount.None?)
    {
      ghost var before := contributions;
      var backup := Detach(r);
      res := Rebuild(r, s, e, backup, ranges, nextRangeId, before);
    }

    /** One of the three `if` blocks of a pass: when the piece is present
        and no earlier piece was refused, adds the piece span of r after the
        pieces acc holds; done are the spans of the earlier pieces. The
        piece is refused exactly when it is a day long or less, does not
        take every backed-up pledge, or meets a range of r's user, which a
        piece inside r and apart from the earlier pieces never does. */
    method Extend(r: ContributionRange, acc: Result<seq<ContributionRange>, LedgerError>, span: Span, present: bool,
                  backup: seq<Pledge>, ghost base: seq<ContributionRange>, ghost n0: nat,
                  ghost before: seq<GoalContribution>, ghost done: seq<Span>)
      returns (res: Result<seq<ContributionRange>, LedgerError>)
      requires Valid()
      requires forall p :: p in backup ==> p.goal in goals
      requires SumPercent(backup) <= 100
      requires forall x :: x in base && x.user == r.user ==> Disjoint(x.Days(), r.Days())
      requires acc.Ok? ==> DaysOf(acc.value) == done && Rebuilding(r, acc.value, backup, base, n0, before)
      modifies this
      ensures Valid()
      ensures goals == old(goals) && nextGoalId == old(nextGoalId) && nextRangeId >= old(nextRangeId)
      ensures acc.Err? || !present ==> res == acc
      ensures res.Ok? ==>
        && acc.Ok?
        && DaysOf(res.value) == done + (if present then [span] else [])
        && Rebuilding(r, res.value, backup, base, n0, before)
      ensures res.Ok? && present ==> SpanFits(goals, backup, span)
      ensures acc.Ok? && (present ==> SpanFits(goals, backup, span) && Apart(r, done, span)) ==> res.Ok?
      ensures forall c :: c in old(contributions) ==> c in contributions
      ensures forall c :: c in contributions ==> c in old(contributions) || (c.range >= old(nextRangeId) && c.amount.None?)
    {
      if acc.Err? || !present {
        assert done + [] == done;
        return acc;
      }
      PieceIsFree(ranges, base, acc.value, r, span);
      res := AddPiece(r, acc.value, span, backup, base, n0, before);
    }

    /** The left, middle and right pieces of a pass of `add_new_range`.
        base is the table after r went; no range of r's user in it meets r. */
    method Rebuild(r: ContributionRange, s: int, e: int, backup: seq<Pledge>,
                   ghost base: seq<ContributionRange>, ghost n0: nat, ghost before: seq<GoalContribution>)
      returns (res: Result<seq<ContributionRange>, LedgerError>)
      requires Valid()
      requires forall p :: p in backup ==> p.goal in goals
      requires SumPercent(backup) <= 100 && r.start < r.end
      requires forall x :: x in base && x.user == r.user ==> Disjoint(x.Days(), r.Days())
      requires Rebuilding(r, [], backup, base, n0, before)
      modifies this
      ensures Valid()
      ensures goals == old(goals) && nextGoalId == old(nextGoalId) && nextRangeId >= old(nextRangeId)
      ensures res.Ok? ==> DaysOf(res.value) == PieceSpans(r.Days(), s, e)
      ensures res.Ok? ==> Rebuilding(r, res.value, backup, base, n0, before)
      ensures res.Ok? ==> SpansFit(goals, backup, PieceSpans(r.Days(), s, e))
      ensures s <= e && Intersects(r.Days(), s, e) && SpansFit(goals, backup, PieceSpans(r.Days(), s, e)) ==> res.Ok?
      ensures forall c :: c in old(contributions) ==> c in contributions
      ensures forall c :: c in contributions ==> c in old(contributions) || (c.range >= old(nextRangeId) && c.amount.None?)
    {
      var middleStart := if r.start <= s then s else r.start;
      var middleEnd := Min(r.end - middleStart, e - middleStart);
      var ls, ms, rs := Span(r.start, s - 1), Span(middleStart, middleStart + middleEnd), Span(e + 1, r.end);
      ghost var left := if r.start < s then [ls] else [];
      ghost var middle := if middleEnd > 0 then [ms] else [];
      ghost var right := if r.end > e then [rs] else [];
      PieceParts(goals, backup, r, s, e, ls, ms, rs, left, middle, right);
      assert DaysOf([]) == [] && [] + left == left;
      // left side
      res := Extend(r, Ok([]), ls, r.start < s, backup, base, n0, before, []);
      // middle
      res := Extend(r, res, ms, middleEnd > 0, backup, base, n0, before, left);
      // right side
      res := Extend(r, res, rs, r.end > e, backup, base, n0, before, left + middle);
    }

    /** The loop of `add_new_range` over the overlapping ranges ov, in
        order; origin[k] is the range the k-th piece was cut from. */
    method SplitAll(ov: seq<ContributionRange>, s: int, e: int)
      returns (res: Result<seq<ContributionRange>, LedgerError>, ghost origin: seq<ContributionRange>)
      requires Valid() && SplitInput(ov, ranges, nextRangeId)
      modifies this
      ensures Valid()
      ensures goals == old(goals) && nextGoalId == old(nextGoalId)
      ensures res.Ok? ==> SplitState(ov, s, e, old(ranges), old(contributions), old(nextRangeId), |ov|,
                                     res.value, origin, ranges, contributions, nextRangeId)
      ensures res.Ok? ==> forall r :: r in ov ==> PiecesFit(goals, old(contributions), r, s, e)
      ensures s <= e && (forall r :: r in ov ==> Intersects(r.Days(), s, e) && PiecesFit(goals, old(contributions), r, s, e))
              ==> res.Ok?
      ensures forall c :: c in old(contributions) && c.range !in RangeIds(ov) ==> c in contributions
      ensures forall c :: c in contributions ==> c in old(contributions) || (c.range >= old(nextRangeId) && c.amount.None?)
    {
      var pieces: seq<ContributionRange> := [];
      origin := [];
      var i := 0;
      SplitStateStart(ov, s, e, ranges, contributions, nextRangeId);
      while i < |ov|
        invariant i <= |ov|
        invariant Valid()
        invariant goals == old(goals) && nextGoalId == old(nextGoalId)
        invariant SplitState(ov, s, e, old(ranges), old(contributions), old(nextRangeId), i,
                             pieces, origin, ranges, contributions, nextRangeId)
        invariant forall r :: r in ov[..i] ==> PiecesFit(goals, old(contributions), r, s, e)
        invariant forall c :: c in old(contributions) && c.range !in RangeIds(ov[..i]) ==> c in contributions
        invariant forall c :: c in contributions ==> c in old(contributions) || (c.range >= old(nextRangeId) && c.amount.None?)
      {
        var next;
        ghost var origin2;
        next, origin2 := SplitNext(ov, s, e, i, pieces, origin, old(ranges), old(contributions), old(nextRangeId));
        if next.Err? {
          return Err(next.error), origin;
        }
        pieces, origin := next.value, origin2;
        i := i + 1;
      }
      assert ov[..|ov|] == ov;
      return Ok(pieces), origin;
    }

    /** One pass of the loop of `add_new_range`, over ov[i]: the passes
        before it took the store (oldR, oldC, oldN) to the current one and
        made pieces, cut from origin. */
    method SplitNext(ov: seq<ContributionRange>, s: int, e: int, i: nat, pieces: seq<ContributionRange>,
                     ghost origin: seq<ContributionRange>, ghost oldR: seq<ContributionRange>,
                     ghost oldC: seq<GoalContribution>, ghost oldN: nat)
      returns (res: Result<seq<ContributionRange>, LedgerError>, ghost origin2: seq<ContributionRange>)
      requires Valid() && i < |ov| && SplitInput(ov, oldR, oldN)
      requires SplitState(ov, s, e, oldR, oldC, oldN, i, pieces, origin, ranges, contributions, nextRangeId)
      requires forall c :: c in oldC && c.range !in RangeIds(ov[..i]) ==> c in contributions
      requires forall c :: c in contributions ==> c in oldC || (c.range >= oldN && c.amount.None?)
      modifies this
      ensures Valid()
      ensures goals == old(goals) && nextGoalId == old(nextGoalId)
      ensures ov[i] in ov && ov[..i + 1] == ov[..i] + [ov[i]]
      ensures res.Ok? ==>
        SplitState(ov, s, e, oldR, oldC, oldN, i + 1, res.value, origin2, ranges, contributions, nextRangeId)
      ensures res.Ok? ==> PiecesFit(goals, oldC, ov[i], s, e)
      ensures s <= e && Intersects(ov[i].Days(), s, e) && PiecesFit(goals, oldC, ov[i], s, e) ==> res.Ok?
      ensures forall c :: c in oldC && c.range !in RangeIds(ov[..i + 1]) ==> c in contributions
      ensures forall c :: c in contributions ==> c in oldC || (c.range >= oldN && c.amount.None?)
    {
      SplitStateNextStored(ov, s, e, oldR, oldC, oldN, i, pieces, origin, ranges, contributions, nextRangeId);
      UniqueBefore(ov, i);
      assert ov[i] in ov;
      assert Pledges(contributions, ov[i].id) == Pledges(oldC, ov[i].id);
      ghost var rs, cs, n := ranges, contributions, nextRangeId;
      var split := SplitRange(ov[i], s, e);
      TakeNext(ov, i);
      KeptStep(oldC, cs, contributions, ov[..i], ov[i], oldN, n);
      if split.Err? {
        return Err(split.error), origin;
      }
      SplitStateNext(ov, s, e, oldR, oldC, oldN, i, pieces, origin, rs, cs, n, split.value, ranges, contributions, nextRangeId);
      res, origin2 := Ok(pieces + split.value), origin + seq(|split.value|, _ => ov[i]);
    }

    /** The last loop of `add_new_range`: one new range of the user per gap. */
    method FillGaps(user: nat, gaps: seq<Span>) returns (res: Result<seq<ContributionRange>, LedgerError>)
      requires Valid()
      modifies this
      ensures Valid()
      ensures goals == old(goals) && nextGoalId == old(nextGoalId) && contributions == old(contributions)
      ensures res.Ok? ==> Filling(user, gaps, old(ranges), old(nextRangeId), res.value, ranges, contributions, nextRangeId)
      ensures res.Ok? ==> forall g :: g in gaps ==> g.start < g.end
      ensures (forall g :: g in gaps ==> g.start < g.end) && FreeGaps(old(ranges), user, gaps) ==> res.Ok?
    {
      res := Ok([]);
      var i := 0;
      assert gaps[..0] == [];
      while i < |gaps| && res.Ok?
        invariant i <= |gaps|
        invariant Valid()
        invariant goals == old(goals) && nextGoalId == old(nextGoalId) && contributions == old(contributions)
        invariant res.Ok? ==> Filling(user, gaps[..i], old(ranges), old(nextRangeId), res.value, ranges, contributions, nextRangeId)
        invariant res.Ok? ==> forall g :: g in gaps[..i] ==> g.start < g.end
        invariant (forall g :: g in gaps ==> g.start < g.end) && FreeGaps(old(ranges), user, gaps) ==> res.Ok?
        decreases |gaps| - i, res.Ok?
      {
        res := FillNext(user, gaps, i, res.value, old(ranges), old(nextRangeId));
        if res.Ok? {
          i := i + 1;
        }
      }
      if res.Ok? {
        assert gaps[..i] == gaps;
      }
    }

    /** One pass of the last loop of `add_new_range`: the range of the user
        for gaps[i], after the fills for the gaps before it. It is refused
        exactly when the gap is a day long or less, or meets a range of the
        user, which a gap free of the table before the loop (oldR) never
        does. */
    method FillNext(user: nat, gaps: seq<Span>, i: nat, fills: seq<ContributionRange>,
                    ghost oldR: seq<ContributionRange>, ghost n0: nat)
      returns (res: Result<seq<ContributionRange>, LedgerError>)
      requires Valid() && i < |gaps|
      requires Filling(user, gaps[..i], oldR, n0, fills, ranges, contributions, nextRangeId)
      requires forall g :: g in gaps[..i] ==> g.start < g.end
      modifies this
      ensures Valid()
      ensures goals == old(goals) && nextGoalId == old(nextGoalId) && contributions == old(contributions)
      ensures res.Ok? ==> Filling(user, gaps[..i + 1], oldR, n0, res.value, ranges, contributions, nextRangeId)
      ensures res.Ok? ==> forall g :: g in gaps[..i + 1] ==> g.start < g.end
      ensures gaps[i].start < gaps[i].end && FreeGaps(oldR, user, gaps) ==> res.Ok?
    {
      FillIsFree(ranges, oldR, fills, user, gaps, i);
      ghost var rs, n := ranges, nextRangeId;
      var row := CreateRange(user, gaps[i].start, gaps[i].end);
      if row.Err? {
        return Err(row.error);
      }
      FillingSnoc(user, gaps, i, oldR, n0, fills, rs, contributions, n, row.value);
      res := Ok(fills + [row.value]);
    }

    /** `ContributionRange.add_new_range(user, s, e)`. With no range of the
        user meeting [s, e] it creates that one range. Otherwise it splits
        every overlapping range into pieces carrying its pledges, fills the
        parts of the window no piece covers, and returns the pieces and
        fills sorted by start (see Added). Any refused write undoes the
        whole call. */
    method AddNewRange(user: nat, s: int, e: int) returns (res: Result<seq<ContributionRange>, LedgerError>)
      requires Valid()
      modifies this
      ensures Valid()
      ensures goals == old(goals) && nextGoalId == old(nextGoalId)
      ensures res.Err? ==> ranges == old(ranges) && contributions == old(contributions)
      ensures res.Err? ==> nextRangeId == old(nextRangeId) && nextContributionId == old(nextContributionId)
      ensures GetOverlappingRanges(old(ranges), user, s, e) == [] ==>
        && (res.Err? <==> s >= e)
        && (res.Ok? ==> res.value == [ContributionRange(old(nextRangeId), user, s, e)] &&
                        ranges == old(ranges) + res.value && contributions == old(contributions) &&
                        Pledges(contributions, old(nextRangeId)) == [])
      ensures res.Ok? ==> Added(GetOverlappingRanges(old(ranges), user, s, e), user, s, e, old(ranges),
                                old(contributions), old(nextRangeId), res.value, ranges, contributions, nextRangeId)
      ensures s <= e && GetOverlappingRanges(old(ranges), user, s, e) != [] ==>
        (res.Ok? <==> Splittable(GetOverlappingRanges(old(ranges), user, s, e), old(goals), old(contributions), s, e))
      ensures forall c :: c in old(contributions) && c.range !in RangeIds(GetOverlappingRanges(old(ranges), user, s, e)) ==>
        c in contributions
      ensures forall c :: c in contributions ==> c in old(contributions) || (c.range >= old(nextRangeId) && c.amount.None?)
    {
      var ov := GetOverlappingRanges(ranges, user, s, e);
      if ov == [] {
        var row := CreateRange(user, s, e);
        if row.Ok? {
          AddedFresh(user, s, e, old(ranges), old(contributions), old(nextRangeId), row.value, ranges, contributions);
          res := Ok([row.value]);
        } else {
          res := Err(row.error);
        }
      } else {
        var g0, r0, c0 := goals, ranges, contributions;
        var ng0, nr0, nc0 := nextGoalId, nextRangeId, nextContributionId;
        res := Reshape(ov, user, s, e);
        if res.Err? {
          goals, ranges, contributions := g0, r0, c0;
          nextGoalId, nextRangeId, nextContributionId := ng0, nr0, nc0;
        }
      }
    }

    /** The body of `add_new_range` when ranges overlap the window: split
        them all, then fill the gaps the pieces leave and sort by start. */
    method Reshape(ov: seq<ContributionRange>, user: nat, s: int, e: int)
      returns (res: Result<seq<ContributionRange>, LedgerError>)
      requires Valid() && ov == GetOverlappingRanges(ranges, user, s, e)
      modifies this
      ensures Valid()
      ensures goals == old(goals) && nextGoalId == old(nextGoalId)
      ensures res.Ok? ==> Added(ov, user, s, e, old(ranges), old(contributions), old(nextRangeId),
                                res.value, ranges, contributions, nextRangeId)
      ensures s <= e ==> (res.Ok? <==> Splittable(ov, old(goals), old(contributions), s, e))
      ensures forall c :: c in old(contributions) && c.range !in RangeIds(ov) ==> c in contributions
      ensures forall c :: c in contributions ==> c in old(contributions) || (c.range >= old(nextRangeId) && c.amount.None?)
    {
      OverlapUnique(ranges, user, s, e);
      OverlapsMeet(ranges, nextRangeId, user, s, e);
      var split, origin := SplitAll(ov, s, e);
      if split.Err? {
        return Err(split.error);
      }
      res := FillWindow(ov, user, s, e, split.value, origin, old(ranges), old(contributions), old(nextRangeId));
    }

    /** The end of `add_new_range` once the overlapping ranges ov of the
        store (oldR, oldC, oldN) are split into pieces: one new range per
        gap the pieces leave in [s, e], then the pieces and fills sorted by
        start. It is refused exactly when a gap is a day long or less. */
    method FillWindow(ov: seq<ContributionRange>, user: nat, s: int, e: int, pieces: seq<ContributionRange>,
                      ghost origin: seq<ContributionRange>, ghost oldR: seq<ContributionRange>,
                      ghost oldC: seq<GoalContribution>, ghost oldN: nat)
      returns (res: Result<seq<ContributionRange>, LedgerError>)
      requires Valid()
      requires RangesOk(oldR, oldN) && ov == GetOverlappingRanges(oldR, user, s, e)
      requires SplitState(ov, s, e, oldR, oldC, oldN, |ov|, pieces, origin, ranges, contributions, nextRangeId)
      modifies this
      ensures Valid()
      ensures goals == old(goals) && nextGoalId == old(nextGoalId) && contributions == old(contributions)
      ensures res.Ok? ==> Added(ov, user, s, e, oldR, oldC, oldN, res.value, ranges, contributions, nextRangeId)
      ensures s <= e ==> (res.Ok? <==> forall g :: g in Gaps(Filled(DaysOf(ov), s, e), s, e) ==> g.start < g.end)
    {
      assert ov[..|ov|] == ov;
      ghost var r1, n1 := ranges, nextRangeId;
      var gaps := FindGaps(DaysOf(pieces), s, e);
      if s <= e {
        GapsAreFree(ov, user, s, e, oldR, oldN, pieces, r1);
      }
      var fill := FillGaps(user, gaps);
      if fill.Err? {
        return Err(fill.error);
      }
      var rows := SortBy(pieces + fill.value, RangeStart);
      AddedFromSteps(ov, user, s, e, oldR, oldC, oldN, pieces, origin, r1, n1, fill.value,
                     ranges, contributions, nextRangeId, rows);
      return Ok(rows);
    }
  }
}
