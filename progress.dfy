/** `GoalContribution.contribution` and `Goal.get_progress` of
    goal/models.py: what each contribution has saved towards its goal, from
    the cached amount or from the user's transactions inside its range, and
    the goal's progress as a sum or a percentage. Amounts are exact reals. */
module Progress {
  import opened Wrappers
  import opened Goals
  import opened Ledger

  /** A transaction as `contribution` reads it: its owner, its day (as an
      ordinal, like the ranges), its amount, and whether its category is an
      income category. */
  datatype Txn = Txn(user: nat, day: int, amount: real, income: bool)

  /** The transaction belongs to the user and falls in the days s to e. */
  predicate InWindow(t: Txn, user: nat, s: int, e: int) {
    t.user == user && s <= t.day <= e
  }

  /** One row of the grouped query: the sum of the user's transactions in
      the window whose category has the given income flag, 0 without any. */
  function GroupTotal(ts: seq<Txn>, user: nat, s: int, e: int, income: bool): real {
    if ts == [] then 0.0
    else
      var t := ts[|ts| - 1];
      GroupTotal(ts[..|ts| - 1], user, s, e, income) + (if InWindow(t, user, s, e) && t.income == income then t.amount else 0.0)
  }

  /** The loop over the grouped rows: the income row is added, the expense
      row subtracted. */
  function NetSaved(ts: seq<Txn>, user: nat, s: int, e: int): real {
    GroupTotal(ts, user, s, e, true) - GroupTotal(ts, user, s, e, false)
  }

  /** Reference: every transaction in the window counted on its own, income
      as a gain and anything else as a cost. */
  function SignedSum(ts: seq<Txn>, user: nat, s: int, e: int): real {
    if ts == [] then 0.0
    else
      var t := ts[|ts| - 1];
      SignedSum(ts[..|ts| - 1], user, s, e) +
      (if !InWindow(t, user, s, e) then 0.0 else if t.income then t.amount else -t.amount)
  }

  /** Grouping by the income flag and netting the two rows gives what
      counting each transaction on its own gives. */
  lemma {:induction false} NetSavedSigned(ts: seq<Txn>, user: nat, s: int, e: int)
    ensures NetSaved(ts, user, s, e) == SignedSum(ts, user, s, e)
  {
    if ts != [] {
      NetSavedSigned(ts[..|ts| - 1], user, s, e);
    }
  }

  /** Transactions of other users or outside the window change nothing. */
  lemma {:induction false} NetSavedIgnoresOthers(ts: seq<Txn>, t: Txn, user: nat, s: int, e: int)
    requires !InWindow(t, user, s, e)
    ensures NetSaved(ts + [t], user, s, e) == NetSaved(ts, user, s, e)
  {
    assert (ts + [t])[..|ts|] == ts;
  }

  /** `if self.amount`: a cached amount that is present and not zero. */
  predicate Cached(c: GoalContribution) {
    c.amount.Some? && c.amount.value != 0.0
  }

  /** `contribution`, given the net savings `net` of the goal's user over
      the contribution's range: the cached amount, or that net times the
      contribution's percentage. */
  function Contribution(c: GoalContribution, net: real): real {
    if Cached(c) then c.amount.value
    else net * (c.percentage as real / 100.0)
  }

  /** An uncached contribution of the whole range saves the range's net
      savings, one of no percentage saves nothing, and one of a valid
      percentage saves part of non-negative savings. */
  lemma ContributionShares(c: GoalContribution, net: real)
    requires !Cached(c)
    ensures c.percentage == 100 ==> Contribution(c, net) == net
    ensures c.percentage == 0 ==> Contribution(c, net) == 0.0
    ensures net >= 0.0 && c.percentage <= 100 ==> 0.0 <= Contribution(c, net) <= net
  {
    var f := c.percentage as real / 100.0;
    if net >= 0.0 && c.percentage <= 100 {
      assert 0.0 <= f <= 1.0;
      assert net * f <= net * 1.0;
      assert 0.0 <= net * f;
      assert Contribution(c, net) == net * f;
    }
  }

  /** The sum of `contribution` over the contributions on range rid, whose
      net savings are `net`. */
  function RangeShares(cs: seq<GoalContribution>, rid: nat, net: real): real {
    if cs == [] then 0.0
    else
      var c := cs[|cs| - 1];
      RangeShares(cs[..|cs| - 1], rid, net) + (if c.range == rid then Contribution(c, net) else 0.0)
  }

  /** Without cached amounts, the contributions on a range split its net
      savings in proportion to their percentages: together they save the
      net savings times the range's total percentage. */
  lemma {:induction false} RangeSharesTotal(cs: seq<GoalContribution>, rid: nat, net: real)
    requires forall k :: 0 <= k < |cs| && cs[k].range == rid ==> !Cached(cs[k])
    ensures RangeShares(cs, rid, net) == net * (TotalPercentage(cs, rid) as real / 100.0)
  {
    if cs != [] {
      RangeSharesTotal(cs[..|cs| - 1], rid, net);
      if cs[|cs| - 1].range == rid {
        RangeSharesOn(cs, rid, net);
      } else {
        var ps := Pledges(cs[..|cs| - 1], rid);
        assert ps + [] == ps;
      }
    }
  }

  /** The step of RangeSharesTotal for a last contribution on the range. */
  lemma RangeSharesOn(cs: seq<GoalContribution>, rid: nat, net: real)
    requires cs != [] && cs[|cs| - 1].range == rid && !Cached(cs[|cs| - 1])
    requires var front := cs[..|cs| - 1];
      RangeShares(front, rid, net) == net * (TotalPercentage(front, rid) as real / 100.0)
    ensures RangeShares(cs, rid, net) == net * (TotalPercentage(cs, rid) as real / 100.0)
  {
    var front := cs[..|cs| - 1];
    var c := cs[|cs| - 1];
    var x := Pledge(c.goal, c.percentage);
    SumPercentAppend(Pledges(front, rid), [x]);
    assert [x][..0] == [];
    var before := TotalPercentage(front, rid);
    assert TotalPercentage(cs, rid) == before + c.percentage;
    ShareSum(net, before, c.percentage);
  }

  /** A range topped up to 100 percent hands out exactly its net savings. */
  lemma RangeSharesFull(cs: seq<GoalContribution>, rid: nat, net: real)
    requires forall k :: 0 <= k < |cs| && cs[k].range == rid ==> !Cached(cs[k])
    requires TotalPercentage(cs, rid) == 100
    ensures RangeShares(cs, rid, net) == net
  {
    RangeSharesTotal(cs, rid, net);
  }

  /** Shares of one amount by two percentages add up to the share by their
      sum. */
  lemma ShareSum(n: real, p: nat, q: nat)
    ensures n * (p as real / 100.0) + n * (q as real / 100.0) == n * ((p + q) as real / 100.0)
  {
  }

  /** The net savings of the user over the days of range r. */
  function RangeNet(r: ContributionRange, user: nat, ts: seq<Txn>): real {
    NetSaved(ts, user, r.start, r.end)
  }

  /** The stored range with the given id, if any. */
  function RangeById(rs: seq<ContributionRange>, rid: nat): (o: Option<ContributionRange>)
    ensures o.Some? ==> o.value in rs && o.value.id == rid
    ensures o.None? ==> rid !in RangeIds(rs)
  {
    if rs == [] then None
    else if rs[|rs| - 1].id == rid then Some(rs[|rs| - 1])
    else
      assert forall r :: r in rs[..|rs| - 1] ==> r in rs;
      RangeById(rs[..|rs| - 1], rid)
  }

  /** Every contribution points at a stored range, as the foreign key of
      `GoalContribution.date_range` guarantees. */
  predicate RangesPresent(cs: seq<GoalContribution>, rs: seq<ContributionRange>) {
    forall k :: 0 <= k < |cs| ==> RangeById(rs, cs[k].range).Some?
  }

  /** `sum(c.contribution for c in contributions)` over the goal's
      contributions. */
  function GoalTotal(g: GoalRow, cs: seq<GoalContribution>, rs: seq<ContributionRange>, ts: seq<Txn>): real
    requires RangesPresent(cs, rs)
  {
    if cs == [] then 0.0
    else
      var c := cs[|cs| - 1];
      GoalTotal(g, cs[..|cs| - 1], rs, ts) +
      (if c.goal == g.id then Contribution(c, RangeNet(RangeById(rs, c.range).value, g.user, ts)) else 0.0)
  }

  /** A goal without contributions has saved nothing. */
  lemma {:induction false} GoalTotalNone(g: GoalRow, cs: seq<GoalContribution>, rs: seq<ContributionRange>, ts: seq<Txn>)
    requires RangesPresent(cs, rs)
    requires forall k :: 0 <= k < |cs| ==> cs[k].goal != g.id
    ensures GoalTotal(g, cs, rs, ts) == 0.0
  {
    if cs != [] {
      GoalTotalNone(g, cs[..|cs| - 1], rs, ts);
    }
  }

  datatype ProgressError = ZeroAmount

  /** `get_progress(percentage)`: the goal's total, or that total as a
      percentage of its amount; a goal of amount 0 has no percentage (the
      decimal division raises). */
  function GetProgress(g: GoalRow, cs: seq<GoalContribution>, rs: seq<ContributionRange>, ts: seq<Txn>,
                       percentage: bool): (r: Result<real, ProgressError>)
    requires RangesPresent(cs, rs)
    ensures !percentage ==> r == Ok(GoalTotal(g, cs, rs, ts))
    ensures percentage ==> (r.Err? <==> g.amount == 0)
    ensures percentage && r.Ok? ==> r.value * (g.amount as real) == GoalTotal(g, cs, rs, ts) * 100.0
  {
    var total := GoalTotal(g, cs, rs, ts);
    if !percentage then Ok(total)
    else if g.amount == 0 then Err(ZeroAmount)
    else Ok(total / (g.amount as real) * 100.0)
  }

  /** The progress of 100 that the status rules test for is reached exactly
      when the contributions add up to the goal's amount. */
  lemma ProgressComplete(g: GoalRow, cs: seq<GoalContribution>, rs: seq<ContributionRange>, ts: seq<Txn>)
    requires RangesPresent(cs, rs) && g.amount > 0
    ensures GetProgress(g, cs, rs, ts, true) == Ok(100.0) <==> GoalTotal(g, cs, rs, ts) == g.amount as real
  {
    var total := GoalTotal(g, cs, rs, ts);
    var v := GetProgress(g, cs, rs, ts, true).value;
    assert v * (g.amount as real) == total * 100.0;
  }

  /** A goal with half of the January range of a user who earned 500 and
      spent 200 that month (and earned 1000 later) has saved 150, which is
      15 percent of an amount of 1000. */
  lemma ProgressExample(g: GoalRow)
    requires g.id == 1 && g.user == 2 && g.amount == 1000
    ensures var r := ContributionRange(3, 2, 1, 31);
      var cs := [GoalContribution(4, 1, 3, 50, None)];
      var ts := [Txn(2, 5, 500.0, true), Txn(2, 6, 200.0, false), Txn(2, 40, 1000.0, true)];
      && GetProgress(g, cs, [r], ts, false) == Ok(150.0)
      && GetProgress(g, cs, [r], ts, true) == Ok(15.0)
  {
    var r := ContributionRange(3, 2, 1, 31);
    var cs := [GoalContribution(4, 1, 3, 50, None)];
    var ts := [Txn(2, 5, 500.0, true), Txn(2, 6, 200.0, false), Txn(2, 40, 1000.0, true)];
    var ts2 := [Txn(2, 5, 500.0, true), Txn(2, 6, 200.0, false)];
    var ts1 := [Txn(2, 5, 500.0, true)];
    assert ts[..2] == ts2 && ts2[..1] == ts1 && ts1[..0] == [];
    assert GroupTotal(ts1, 2, 1, 31, true) == 500.0 && GroupTotal(ts1, 2, 1, 31, false) == 0.0;
    assert GroupTotal(ts2, 2, 1, 31, true) == 500.0 && GroupTotal(ts2, 2, 1, 31, false) == 200.0;
    assert NetSaved(ts, 2, 1, 31) == 300.0;
    assert RangeById([r], 3) == Some(r);
    assert GoalTotal(g, cs, [r], ts) == 150.0;
  }
}
