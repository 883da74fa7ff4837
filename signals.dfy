/** The `post_save` handler of goal/signals.py: when a goal has just been
    created, `add_new_range` reshapes its user's ranges over the goal's
    window and every returned range inside the window is topped up to 100
    percent by one new contribution of the goal. */
module GoalSignals {
  import opened Wrappers
  import opened Calendar
  import opened Spans
  import opened Goals
  import opened RangePlan
  import opened Ledger

  /** The returned range r lies inside the goal's window. */
  predicate InWindow(r: ContributionRange, g: GoalRow) {
    r.start >= Ordinal(g.start) && r.end <= Ordinal(g.expected)
  }

  /** `100 - r.total_percentage`, the share of range rid not yet pledged;
      never below 0 on a consistent store. */
  function Remaining(cs: seq<GoalContribution>, rid: nat): (p: nat)
    ensures TotalPercentage(cs, rid) <= 100 ==> TotalPercentage(cs, rid) + p == 100
  {
    if TotalPercentage(cs, rid) <= 100 then 100 - TotalPercentage(cs, rid) else 0
  }

  /** The ids of the ranges of rows the handler tops up. */
  function TopIds(rows: seq<ContributionRange>, g: GoalRow): set<nat> {
    set r | r in rows && InWindow(r, g) :: r.id
  }

  /** After topping up the rows done, starting from the contributions
      before: each row in the window gained one pledge of the goal for the
      share its range was missing, and no other range changed. */
  ghost predicate ToppedUp(done: seq<ContributionRange>, goal: nat, g: GoalRow,
                           before: seq<GoalContribution>, after: seq<GoalContribution>) {
    && (forall r :: r in done && InWindow(r, g) ==>
          Pledges(after, r.id) == Pledges(before, r.id) + [Pledge(goal, Remaining(before, r.id))])
    && (forall rid :: rid !in TopIds(done, g) ==> Pledges(after, rid) == Pledges(before, rid))
  }

  /** A range topped up from a total within 100 then totals exactly 100. */
  lemma ToppedUpTotal(done: seq<ContributionRange>, goal: nat, g: GoalRow,
                      before: seq<GoalContribution>, after: seq<GoalContribution>, r: ContributionRange)
    requires ToppedUp(done, goal, g, before, after)
    requires r in done && InWindow(r, g) && TotalPercentage(before, r.id) <= 100
    ensures TotalPercentage(after, r.id) == 100
  {
    var p := Pledge(goal, Remaining(before, r.id));
    SumPercentAppend(Pledges(before, r.id), [p]);
    assert [p][..0] == [];
  }

  /** A row outside the window is skipped. */
  lemma ToppedUpSkip(done: seq<ContributionRange>, goal: nat, g: GoalRow, before: seq<GoalContribution>,
                     cur: seq<GoalContribution>, r: ContributionRange)
    requires ToppedUp(done, goal, g, before, cur) && !InWindow(r, g)
    ensures ToppedUp(done + [r], goal, g, before, cur)
  {
    assert TopIds(done + [r], g) == TopIds(done, g);
  }

  /** A row inside the window, whose range no earlier row shares, gains its
      missing share. */
  lemma ToppedUpAdd(done: seq<ContributionRange>, goal: nat, g: GoalRow, before: seq<GoalContribution>,
                    cur: seq<GoalContribution>, next: seq<GoalContribution>, r: ContributionRange)
    requires ToppedUp(done, goal, g, before, cur) && InWindow(r, g)
    requires forall x :: x in done ==> x.id != r.id
    requires forall rid :: (Pledges(next, rid) ==
      Pledges(cur, rid) + (if rid == r.id then [Pledge(goal, Remaining(cur, r.id))] else []))
    ensures ToppedUp(done + [r], goal, g, before, next)
  {
    assert r.id !in TopIds(done, g);
    assert TopIds(done + [r], g) == TopIds(done, g) + {r.id};
  }

  /** `GoalContribution.objects.create(goal, 100 - r.total_percentage, r)`
      for a range r inside the goal's window: only a completed goal is
      refused. */
  method TopUpRange(db: Db, goal: nat, r: ContributionRange) returns (o: Outcome<LedgerError>)
    requires db.Valid() && goal in db.goals && r in db.ranges && InWindow(r, db.goals[goal])
    modifies db
    ensures db.Valid()
    ensures db.ranges == old(db.ranges) && db.goals == old(db.goals)
    ensures db.nextRangeId == old(db.nextRangeId) && db.nextGoalId == old(db.nextGoalId)
    ensures o.Fail? <==> old(db.goals[goal]).status == Completed
    ensures o.Fail? ==> o.error == CompletedGoal && db.contributions == old(db.contributions)
    ensures o.Pass? ==> forall rid :: (Pledges(db.contributions, rid) == old(Pledges(db.contributions, rid)) +
      (if rid == r.id then [Pledge(goal, old(Remaining(db.contributions, r.id)))] else []))
    ensures forall c :: c in old(db.contributions) ==> c in db.contributions
  {
    var share := 100 - TotalPercentage(db.contributions, r.id);
    assert share == Remaining(db.contributions, r.id);
    var c := db.CreateContribution(goal, r, share);
    if c.Err? {
      o := Fail(c.error);
    } else {
      o := Pass;
    }
  }

  /** The loop of `on_goal_create` over the returned rows: every row inside
      the goal's window gets one contribution of the goal for the share its
      range is missing. */
  method TopUp(db: Db, goal: nat, rows: seq<ContributionRange>) returns (o: Outcome<LedgerError>)
    requires db.Valid() && goal in db.goals
    requires UniqueIds(rows) && forall r :: r in rows ==> r in db.ranges
    modifies db
    ensures db.Valid()
    ensures db.ranges == old(db.ranges) && db.goals == old(db.goals)
    ensures db.nextRangeId == old(db.nextRangeId) && db.nextGoalId == old(db.nextGoalId)
    ensures o.Fail? ==> o.error == CompletedGoal && old(db.goals[goal]).status == Completed
    ensures o.Pass? ==> ToppedUp(rows, goal, old(db.goals[goal]), old(db.contributions), db.contributions)
    ensures o.Pass? ==> forall r :: r in rows && InWindow(r, old(db.goals[goal])) ==>
      TotalPercentage(db.contributions, r.id) == 100
    ensures old(db.goals[goal]).status == Completed ==>
      && db.contributions == old(db.contributions)
      && (o.Fail? <==> exists r :: r in rows && InWindow(r, old(db.goals[goal])))
    ensures forall c :: c in old(db.contributions) ==> c in db.contributions
  {
    var g := db.goals[goal];
    ghost var before := db.contributions;
    var i := 0;
    o := Pass;
    while i < |rows| && o.Pass?
      invariant 0 <= i <= |rows|
      invariant db.Valid() && db.ranges == old(db.ranges) && db.goals == old(db.goals)
      invariant db.nextRangeId == old(db.nextRangeId) && db.nextGoalId == old(db.nextGoalId)
      invariant o.Fail? ==> o.error == CompletedGoal && g.status == Completed
      invariant o.Pass? ==> ToppedUp(rows[..i], goal, g, before, db.contributions)
      invariant g.status == Completed ==> db.contributions == before
      invariant g.status == Completed && o.Pass? ==> forall r :: r in rows[..i] ==> !InWindow(r, g)
      invariant g.status == Completed && o.Fail? ==> i < |rows| && InWindow(rows[i], g)
      invariant forall c :: c in old(db.contributions) ==> c in db.contributions
      decreases |rows| - i, o.Pass?
    {
      var r := rows[i];
      assert rows[..i + 1] == rows[..i] + [r];
      ghost var cur := db.contributions;
      forall x | x in rows[..i] ensures x.id != r.id {
        var j :| 0 <= j < i && rows[j] == x;
      }
      if InWindow(r, g) {
        o := TopUpRange(db, goal, r);
        if o.Pass? {
          ToppedUpAdd(rows[..i], goal, g, before, cur, db.contributions, r);
        }
      } else {
        ToppedUpSkip(rows[..i], goal, g, before, cur, r);
      }
      if o.Pass? {
        i := i + 1;
      }
    }
    if o.Fail? {
      assert rows[i] in rows;
    }
    if o.Pass? {
      assert rows[..i] == rows;
      forall r | r in rows && InWindow(r, g) ensures TotalPercentage(db.contributions, r.id) == 100 {
        ToppedUpTotal(rows, goal, g, before, db.contributions, r);
      }
    }
  }

  /** A successful `add_new_range` over a goal's window returns at least
      one row inside it: the one holding the window's first day. */
  lemma WindowRowReturned(g: GoalRow, oldR: seq<ContributionRange>, oldC: seq<GoalContribution>, oldN: nat,
                          rows: seq<ContributionRange>, rs: seq<ContributionRange>, cs: seq<GoalContribution>, n: nat)
    requires RangesOk(oldR, oldN) && Ordinal(g.start) <= Ordinal(g.expected)
    requires Added(GetOverlappingRanges(oldR, g.user, Ordinal(g.start), Ordinal(g.expected)), g.user,
                   Ordinal(g.start), Ordinal(g.expected), oldR, oldC, oldN, rows, rs, cs, n)
    ensures exists r :: r in rows && InWindow(r, g)
  {
    var s, e := Ordinal(g.start), Ordinal(g.expected);
    AddedCoversWindow(g.user, s, e, oldR, oldC, oldN, rows, rs, cs, n);
    assert CoveredInside(DaysOf(rows), s, e, s);
    var q :| q in DaysOf(rows) && Within(q, s, e) && Contains(q, s);
    var k :| 0 <= k < |rows| && DaysOf(rows)[k] == q;
    assert InWindow(rows[k], g);
  }

  /** A stored goal's window is [its start, its expected date] in days,
      and spans more than one day. */
  lemma WindowProper(g: GoalRow)
    requires RowValid(g)
    ensures Ordinal(g.start) < Ordinal(g.expected)
  {
    assert Before(g.start, g.expected);
    OrdinalStrict(g.start, g.expected);
  }

  /** `on_goal_create(sender, instance, created)` for the stored goal with id
      goal, returning the ranges `add_new_range` returned; mid is the
      contributions table between the two steps. */
  method OnGoalCreate(db: Db, goal: nat, created: bool)
    returns (o: Outcome<LedgerError>, rows: seq<ContributionRange>, ghost mid: seq<GoalContribution>)
    requires db.Valid() && goal in db.goals
    modifies db
    ensures db.Valid() && db.goals == old(db.goals) && db.nextGoalId == old(db.nextGoalId)
    ensures !created ==> o.Pass? && rows == [] && unchanged(db)
    ensures var g := old(db.goals[goal]);
      created && o.Pass? ==>
        && Added(GetOverlappingRanges(old(db.ranges), g.user, Ordinal(g.start), Ordinal(g.expected)),
                 g.user, Ordinal(g.start), Ordinal(g.expected), old(db.ranges), old(db.contributions),
                 old(db.nextRangeId), rows, db.ranges, mid, db.nextRangeId)
        && ToppedUp(rows, goal, g, mid, db.contributions)
        && (forall r :: r in rows && InWindow(r, g) ==> TotalPercentage(db.contributions, r.id) == 100)
    ensures var g := old(db.goals[goal]);
      created && o.Fail? && g.status != Completed ==>
        db.ranges == old(db.ranges) && db.contributions == old(db.contributions)
    ensures created && old(db.goals[goal]).status == Completed ==>
      && o.Fail? && db.contributions == mid
      && (rows == [] ==> db.ranges == old(db.ranges) && mid == old(db.contributions))
    ensures var g := old(db.goals[goal]);
      var ov := GetOverlappingRanges(old(db.ranges), g.user, Ordinal(g.start), Ordinal(g.expected));
      created && g.status != Completed ==>
        (o.Pass? <==> ov == [] || Splittable(ov, old(db.goals), old(db.contributions), Ordinal(g.start), Ordinal(g.expected)))
    ensures var g := old(db.goals[goal]);
      created && g.status != Completed && (forall r :: r in old(db.ranges) ==> r.user != g.user) ==>
        && o.Pass?
        && rows == [ContributionRange(old(db.nextRangeId), g.user, Ordinal(g.start), Ordinal(g.expected))]
        && db.ranges == old(db.ranges) + rows
        && Pledges(db.contributions, rows[0].id) == [Pledge(goal, 100)]
    ensures var g := old(db.goals[goal]);
      var ov := GetOverlappingRanges(old(db.ranges), g.user, Ordinal(g.start), Ordinal(g.expected));
      forall c :: c in old(db.contributions) && c.range !in RangeIds(ov) ==> c in db.contributions
  {
    if created {
      o, rows, mid := CreateDefaults(db, goal);
    } else {
      o, rows, mid := Pass, [], db.contributions;
    }
  }

  /** The body of `on_goal_create` for a goal just created: reshape the
      user's ranges over the goal's window, then top up the returned ranges
      inside the window. */
  method CreateDefaults(db: Db, goal: nat)
    returns (o: Outcome<LedgerError>, rows: seq<ContributionRange>, ghost mid: seq<GoalContribution>)
    requires db.Valid() && goal in db.goals
    modifies db
    ensures db.Valid() && db.goals == old(db.goals) && db.nextGoalId == old(db.nextGoalId)
    ensures var g := old(db.goals[goal]);
      o.Pass? ==>
        && Added(GetOverlappingRanges(old(db.ranges), g.user, Ordinal(g.start), Ordinal(g.expected)),
                 g.user, Ordinal(g.start), Ordinal(g.expected), old(db.ranges), old(db.contributions),
                 old(db.nextRangeId), rows, db.ranges, mid, db.nextRangeId)
        && ToppedUp(rows, goal, g, mid, db.contributions)
        && (forall r :: r in rows && InWindow(r, g) ==> TotalPercentage(db.contributions, r.id) == 100)
    ensures o.Fail? && old(db.goals[goal]).status != Completed ==>
      db.ranges == old(db.ranges) && db.contributions == old(db.contributions)
    ensures rows == [] ==>
      o.Fail? && db.ranges == old(db.ranges) && db.contributions == old(db.contributions) && mid == db.contributions
    ensures var g := old(db.goals[goal]);
      rows != [] ==>
        Added(GetOverlappingRanges(old(db.ranges), g.user, Ordinal(g.start), Ordinal(g.expected)),
              g.user, Ordinal(g.start), Ordinal(g.expected), old(db.ranges), old(db.contributions),
              old(db.nextRangeId), rows, db.ranges, mid, db.nextRangeId)
    ensures old(db.goals[goal]).status == Completed ==> o.Fail? && db.contributions == mid
    ensures var g := old(db.goals[goal]);
      var ov := GetOverlappingRanges(old(db.ranges), g.user, Ordinal(g.start), Ordinal(g.expected));
      g.status != Completed ==>
        (o.Pass? <==> ov == [] || Splittable(ov, old(db.goals), old(db.contributions), Ordinal(g.start), Ordinal(g.expected)))
    ensures var g := old(db.goals[goal]);
      g.status != Completed && (forall r :: r in old(db.ranges) ==> r.user != g.user) ==>
        && o.Pass?
        && rows == [ContributionRange(old(db.nextRangeId), g.user, Ordinal(g.start), Ordinal(g.expected))]
        && db.ranges == old(db.ranges) + rows
        && Pledges(db.contributions, rows[0].id) == [Pledge(goal, 100)]
    ensures var g := old(db.goals[goal]);
      var ov := GetOverlappingRanges(old(db.ranges), g.user, Ordinal(g.start), Ordinal(g.expected));
      forall c :: c in old(db.contributions) && c.range !in RangeIds(ov) ==> c in db.contributions
  {
    var g := db.goals[goal];
    var s, e := Ordinal(g.start), Ordinal(g.expected);
    WindowProper(g);
    ghost var newUser := forall r :: r in db.ranges ==> r.user != g.user;
    if newUser {
      LaterWindowOverlapsNone(db.ranges, g.user, s, e);
    }
    var added := db.AddNewRange(g.user, s, e);
    mid := db.contributions;
    rows := [];
    if added.Err? {
      o := Fail(added.error);
    } else {
      rows := added.value;
      AddedStored(GetOverlappingRanges(old(db.ranges), g.user, s, e), g.user, s, e, old(db.ranges),
                  old(db.contributions), old(db.nextRangeId), rows, db.ranges, db.contributions, db.nextRangeId);
      WindowRowReturned(g, old(db.ranges), old(db.contributions), old(db.nextRangeId), rows,
                        db.ranges, db.contributions, db.nextRangeId);
      o := TopUp(db, goal, rows);
      if o.Pass? && newUser {
        FirstGoal(g, rows, mid, db.contributions, goal);
      }
    }
  }

  /** For a user without ranges, the single returned range is the window
      and it ends up carrying the goal's 100 percent alone. */
  lemma FirstGoal(g: GoalRow, rows: seq<ContributionRange>,
                  mid: seq<GoalContribution>, after: seq<GoalContribution>, goal: nat)
    requires |rows| == 1 && rows[0].start == Ordinal(g.start) && rows[0].end == Ordinal(g.expected)
    requires Pledges(mid, rows[0].id) == []
    requires ToppedUp(rows, goal, g, mid, after)
    ensures Pledges(after, rows[0].id) == [Pledge(goal, 100)]
  {
    assert rows[0] in rows && InWindow(rows[0], g);
  }
}
