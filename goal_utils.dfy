/** goal/utils.py: month arithmetic (`diff_month`, `add_months`), the status
    refresh of `update_status` and the creation of the successors of
    recurring goals in `create_goals`. "Today" and each goal's progress are
    parameters. */
module GoalUtils {
  import opened Wrappers
  import opened Calendar
  import opened Goals
  import opened RangePlan
  import opened Ledger
  import opened GoalSignals

  // ---------------------------------------------------------------------
  // Month arithmetic

  /** `diff_month(d1, d2)`: how many calendar months d1's month lies after
      d2's; the days play no part. */
  function DiffMonth(d1: Date, d2: Date): (k: int)
    ensures k == 0 <==> d1.year == d2.year && d1.month == d2.month
    ensures k > 0 <==> d1.year > d2.year || (d1.year == d2.year && d1.month > d2.month)
  {
    (d1.year - d2.year) * 12 + d1.month - d2.month
  }

  /** `add_months(sourcedate, months)`: the same day `months` months later
      (earlier when negative), clamped to the length of the target month;
      None where `datetime.date` raises for a year outside 1 to 9999. Python
      floors `//` and `%`, which for the divisor 12 agree with Dafny's
      Euclidean operators. */
  function AddMonths(d: Date, months: int): (r: Option<Date>)
    ensures r.Some? <==> MinYear <= d.year + (d.month - 1 + months) / 12 <= MaxYear
    ensures r.Some? ==> DiffMonth(r.value, d) == months
    ensures r.Some? ==> r.value.day <= d.day && (r.value.day < d.day ==> r.value.day == DaysInMonth(r.value.year, r.value.month))
  {
    var m := d.month - 1 + months;
    var year := d.year + m / 12;
    var month := m % 12 + 1;
    if MinYear <= year <= MaxYear then Some(YMD(year, month, Min(d.day, DaysInMonth(year, month)))) else None
  }

  /** Adding no months gives the date back. */
  lemma AddMonthsZero(d: Date)
    ensures AddMonths(d, 0) == Some(d)
  {
    assert (d.month - 1) / 12 == 0 && (d.month - 1) % 12 == d.month - 1;
  }

  /** Adding a positive number of months lands in a later month. */
  lemma AddMonthsLater(d: Date, months: int)
    requires months >= 0 && AddMonths(d, months).Some?
    ensures NotAfter(d, AddMonths(d, months).value)
  {
    if months == 0 {
      AddMonthsZero(d);
    }
  }

  // ---------------------------------------------------------------------
  // update_status

  /** The status rule of the refresh loops: a goal past its expected date is
      completed when its progress is 100 and failed otherwise; any other
      goal is in progress once it has started and pending before. With
      strictStart, as in the management command, a goal starts only the day
      after its start date. */
  function StatusRule(g: GoalRow, today: Date, progress: real, strictStart: bool): GoalStatus {
    if Before(g.expected, today) then
      (if progress == 100.0 then Completed else Failed)
    else if (if strictStart then Before(g.start, today) else NotAfter(g.start, today)) then
      InProgress
    else
      Pending
  }

  /** The rule of goal/utils.py and the rule of the management command give
      different statuses exactly to a goal, not past due, that starts today. */
  lemma StatusRulesDiffer(g: GoalRow, today: Date, progress: real)
    ensures StatusRule(g, today, progress, false) != StatusRule(g, today, progress, true) <==>
      !Before(g.expected, today) && g.start == today
    ensures StatusRule(g, today, progress, false) != StatusRule(g, today, progress, true) ==>
      StatusRule(g, today, progress, false) == InProgress && StatusRule(g, today, progress, true) == Pending
  {
  }

  /** A goal the refresh visits: in progress or pending, and the user's
      when one is given. */
  predicate Visited(g: GoalRow, user: Option<nat>) {
    (g.status == InProgress || g.status == Pending) && (user.None? || g.user == user.value)
  }

  /** Goal g after `goal.status = status; goal.save()`: a goal that
      becomes completed has today stamped as its actual completion date. */
  function Transition(g: GoalRow, status: GoalStatus, today: Date): (h: GoalRow)
    ensures h.status == status && h.start == g.start && h.expected == g.expected && h.id == g.id
    ensures RowValid(g) && g.actual.None? ==> RowValid(h)
  {
    g.(status := status, actual := if status == Completed then Some(today) else g.actual)
  }

  /** The goal table after the refresh has visited the ids below i. */
  ghost function Refreshed(goals: map<nat, GoalRow>, user: Option<nat>, today: Date, progress: nat -> real,
                           strictStart: bool, i: int): map<nat, GoalRow> {
    map id | id in goals ::
      if id < i && Visited(goals[id], user)
      then Transition(goals[id], StatusRule(goals[id], today, progress(id), strictStart), today)
      else goals[id]
  }

  /** The ids below i the refresh visits, in ascending order. */
  function VisitedIds(goals: map<nat, GoalRow>, user: Option<nat>, i: nat): seq<nat> {
    if i == 0 then []
    else VisitedIds(goals, user, i - 1) + (if i - 1 in goals && Visited(goals[i - 1], user) then [i - 1] else [])
  }

  lemma {:induction false} VisitedIdsMeaning(goals: map<nat, GoalRow>, user: Option<nat>, i: nat)
    ensures forall id :: id in VisitedIds(goals, user, i) <==> id < i && id in goals && Visited(goals[id], user)
    ensures forall a, b :: 0 <= a < b < |VisitedIds(goals, user, i)| ==>
      VisitedIds(goals, user, i)[a] < VisitedIds(goals, user, i)[b]
  {
    if i > 0 {
      VisitedIdsMeaning(goals, user, i - 1);
      var front := VisitedIds(goals, user, i - 1);
      forall k | 0 <= k < |front| ensures front[k] < i - 1 {
        assert front[k] in front;
      }
    }
  }

  /** Refreshing a refreshed table changes nothing: the goals that became
      completed or failed are no longer visited, and the others get the
      same status again. */
  lemma RefreshIdempotent(goals: map<nat, GoalRow>, user: Option<nat>, today: Date, progress: nat -> real,
                          strictStart: bool, i: int)
    ensures var once := Refreshed(goals, user, today, progress, strictStart, i);
      Refreshed(once, user, today, progress, strictStart, i) == once
  {
    var once := Refreshed(goals, user, today, progress, strictStart, i);
    var twice := Refreshed(once, user, today, progress, strictStart, i);
    assert twice.Keys == once.Keys;
    forall id | id in once ensures twice[id] == once[id] {
      RefreshedTwiceAt(goals, user, today, progress, strictStart, i, id);
    }
  }

  /** Goal id after one and after two refreshes. */
  lemma RefreshedTwiceAt(goals: map<nat, GoalRow>, user: Option<nat>, today: Date, progress: nat -> real,
                         strictStart: bool, i: int, id: nat)
    requires id in goals
    ensures var once := Refreshed(goals, user, today, progress, strictStart, i);
      Refreshed(once, user, today, progress, strictStart, i)[id] == once[id]
  {
    var g := goals[id];
    if id < i && Visited(g, user) {
      var once := Refreshed(goals, user, today, progress, strictStart, i);
      assert StatusRule(once[id], today, progress(id), strictStart) == StatusRule(g, today, progress(id), strictStart);
    }
  }

  /** Visiting id extends the refreshed table by that one goal. */
  lemma RefreshedStep(goals: map<nat, GoalRow>, user: Option<nat>, today: Date, progress: nat -> real,
                      strictStart: bool, id: nat)
    ensures var before := Refreshed(goals, user, today, progress, strictStart, id);
      && (id in goals ==> before[id] == goals[id])
      && Refreshed(goals, user, today, progress, strictStart, id + 1) ==
         if id in goals && Visited(goals[id], user)
         then before[id := Transition(goals[id], StatusRule(goals[id], today, progress(id), strictStart), today)]
         else before
  {
  }

  /** The refresh loop shared by `update_status` and the management command:
      every visited goal gets the status of the rule and is saved, in
      ascending id order. */
  method Refresh(db: Db, user: Option<nat>, today: Date, progress: nat -> real, strictStart: bool)
    returns (visited: seq<nat>)
    requires db.Valid()
    modifies db
    ensures db.Valid()
    ensures db.goals == Refreshed(old(db.goals), user, today, progress, strictStart, old(db.nextGoalId))
    ensures visited == VisitedIds(old(db.goals), user, old(db.nextGoalId))
    ensures db.ranges == old(db.ranges) && db.contributions == old(db.contributions)
    ensures db.nextGoalId == old(db.nextGoalId) && db.nextRangeId == old(db.nextRangeId)
    ensures db.nextContributionId == old(db.nextContributionId)
  {
    ghost var goals := db.goals;
    var n := db.nextGoalId;
    visited := [];
    var id := 0;
    assert Refreshed(goals, user, today, progress, strictStart, 0) == goals;
    while id < n
      invariant 0 <= id <= n && db.Valid() && db.nextGoalId == n
      invariant db.goals == Refreshed(goals, user, today, progress, strictStart, id)
      invariant visited == VisitedIds(goals, user, id)
      invariant db.ranges == old(db.ranges) && db.contributions == old(db.contributions)
      invariant db.nextRangeId == old(db.nextRangeId) && db.nextContributionId == old(db.nextContributionId)
    {
      var hit := RefreshOne(db, goals, user, today, progress, strictStart, id);
      visited := visited + (if hit then [id] else []);
      id := id + 1;
    }
  }

  /** One step of the refresh loop: goal id, when visited, gets the status of
      the rule and is saved. */
  method RefreshOne(db: Db, ghost goals: map<nat, GoalRow>, user: Option<nat>, today: Date, progress: nat -> real,
                    strictStart: bool, id: nat) returns (hit: bool)
    requires db.Valid() && db.goals == Refreshed(goals, user, today, progress, strictStart, id)
    modifies db
    ensures db.Valid() && db.goals == Refreshed(goals, user, today, progress, strictStart, id + 1)
    ensures hit == (id in goals && Visited(goals[id], user))
    ensures db.ranges == old(db.ranges) && db.contributions == old(db.contributions)
    ensures db.nextGoalId == old(db.nextGoalId) && db.nextRangeId == old(db.nextRangeId)
    ensures db.nextContributionId == old(db.nextContributionId)
  {
    RefreshedStep(goals, user, today, progress, strictStart, id);
    hit := id in db.goals && Visited(db.goals[id], user);
    if hit {
      var g := db.goals[id];
      db.UpdateGoal(Transition(g, StatusRule(g, today, progress(id), strictStart), today));
    }
  }

  /** `update_status(user)`, with the rule of goal/utils.py (a goal starting
      today is in progress). */
  method UpdateStatus(db: Db, user: Option<nat>, today: Date, progress: nat -> real) returns (visited: seq<nat>)
    requires db.Valid()
    modifies db
    ensures db.Valid()
    ensures db.goals == Refreshed(old(db.goals), user, today, progress, false, old(db.nextGoalId))
    ensures visited == VisitedIds(old(db.goals), user, old(db.nextGoalId))
    ensures db.ranges == old(db.ranges) && db.contributions == old(db.contributions)
  {
    visited := Refresh(db, user, today, progress, false);
  }

  /** `goal.save()` after the refresh sets a stored goal's status, as
      written: `Goal.save` runs its checks again, so a goal past its
      expected date is refused as completing in the past, and the refresh
      can never complete or fail a goal. Any other visited goal saves. The
      refresh above stores the evidently intended transition instead. */
  method ResaveAsWritten(g: GoalRow, status: GoalStatus, today: Date) returns (o: Outcome<GoalError>)
    requires RowValid(g)
    ensures Before(g.expected, today) ==> o == Fail(CompletionInPast)
    ensures !Before(g.expected, today) && g.actual.None? ==> o == Pass
  {
    var goal := new Goal(g.user, g.amount, g.kind, g.description, Some(g.start), g.expected, g.actual,
                         status, g.recurring, g.frequency, g.previous);
    o := goal.Save(today);
  }

  /** Every stored goal is refreshed: a visited goal has the status of the
      rule, any other goal is unchanged. */
  lemma RefreshedAll(goals: map<nat, GoalRow>, user: Option<nat>, today: Date, progress: nat -> real,
                     strictStart: bool, n: nat, id: nat)
    requires GoalsOk(goals, n) && id in goals
    ensures var h := Refreshed(goals, user, today, progress, strictStart, n)[id];
      && (Visited(goals[id], user) ==> h.status == StatusRule(goals[id], today, progress(id), strictStart))
      && (!Visited(goals[id], user) ==> h == goals[id])
      && RowValid(h) && h.start == goals[id].start && h.expected == goals[id].expected
  {
  }

  // ---------------------------------------------------------------------
  // create_goals

  datatype UtilError = DateOutOfRange | Invalid(goalError: GoalError) | Ledger(ledgerError: LedgerError)

  /** The goal is among those `create_goals` considers: the user's when one
      is given. */
  predicate InScope(g: GoalRow, user: Option<nat>) {
    user.None? || g.user == user.value
  }

  /** The ids the considered goals name as their previous goal. */
  function Predecessors(goals: map<nat, GoalRow>, user: Option<nat>): (ps: set<nat>)
    ensures forall id :: id in goals && InScope(goals[id], user) && goals[id].previous.Some? ==>
      goals[id].previous.value in ps
  {
    set id | id in goals && InScope(goals[id], user) && goals[id].previous.Some? :: goals[id].previous.value
  }

  /** A recurring goal that no goal succeeds yet, whose expected date lies at
      least `reccuring_frequency` months before today's month. (A stored
      recurring goal always carries a frequency.) */
  predicate Due(g: GoalRow, predecessors: set<nat>, today: Date) {
    && (g.recurring == Fixed || g.recurring == Indefinite)
    && g.id !in predecessors
    && g.frequency.Some?
    && !(DiffMonth(today, g.expected) <= g.frequency.value - 1)
  }

  /** The goal `create_goals` creates after p, as `Goal.save` stores it under
      id: it starts the day after p's expected date and ends as many months
      later as p spans, snapped to the end of that month; or what stops it. */
  function Successor(p: GoalRow, today: Date, id: nat): Result<GoalRow, UtilError> {
    match NextDay(p.expected)
    case None => Err(DateOutOfRange)
    case Some(start) =>
      match AddMonths(start, DiffMonth(p.expected, p.start))
      case None => Err(DateOutOfRange)
      case Some(end) =>
        if Before(end, today) then Err(Invalid(CompletionInPast))
        else Ok(GoalRow(id, p.user, p.amount, Savings, p.description, start, LastOfMonth(end), None,
                        InProgress, p.recurring, p.frequency, Some(p.id)))
  }

  /** The successor of a stored goal follows it without gap, spans as many
      months, names it as previous, is in progress and is a valid row. */
  lemma SuccessorShape(p: GoalRow, today: Date, id: nat)
    requires RowValid(p) && Successor(p, today, id).Ok?
    ensures var q := Successor(p, today, id).value;
      && q.id == id && q.user == p.user && q.previous == Some(p.id) && q.status == InProgress
      && Ordinal(q.start) == Ordinal(p.expected) + 1
      && DiffMonth(q.expected, q.start) == DiffMonth(p.expected, p.start)
      && !Before(q.expected, today)
      && RowValid(q)
  {
    var start := NextDay(p.expected).value;
    NextDayOrdinal(p.expected);
    assert start.day == 1;
    var k := DiffMonth(p.expected, p.start);
    assert k >= 0;
    AddMonthsLater(start, k);
  }

  /** A goal of 1 to 31 January 2021 recurring every month is due on
      1 February 2021; with a frequency of 2 it is not due yet. */
  lemma DueExample(p: GoalRow)
    requires p.expected == YMD(2021, 1, 31) && p.recurring == Fixed && p.frequency == Some(1)
    ensures Due(p, {}, YMD(2021, 2, 1))
    ensures !Due(p.(frequency := Some(2)), {}, YMD(2021, 2, 1))
  {
    var feb1: Date := YMD(2021, 2, 1);
    var none: set<nat> := {};
    assert p.id !in none;
    assert DiffMonth(feb1, p.expected) == 1 && p.frequency.value - 1 == 0;
  }

  /** The successor of a goal of 1 to 31 January 2021, created on
      1 February 2021, runs from 1 to 28 February 2021. */
  lemma SuccessorExample(p: GoalRow)
    requires p.start == YMD(2021, 1, 1) && p.expected == YMD(2021, 1, 31) && p.recurring == Fixed
    requires p.frequency == Some(1)
    ensures Successor(p, YMD(2021, 2, 1), 7) == Ok(GoalRow(7, p.user, p.amount, Savings, p.description,
      YMD(2021, 2, 1), YMD(2021, 2, 28), None, InProgress, Fixed, Some(1), Some(p.id)))
  {
    var feb1: Date := YMD(2021, 2, 1);
    January2021();
    AddMonthsZero(feb1);
    assert DiffMonth(p.expected, p.start) == 0;
    SuccessorOk(p, feb1, 7, feb1, feb1);
  }

  /** Successor once its two date steps are known. */
  lemma SuccessorOk(p: GoalRow, today: Date, id: nat, start: Date, end: Date)
    requires NextDay(p.expected) == Some(start)
    requires AddMonths(start, DiffMonth(p.expected, p.start)) == Some(end) && !Before(end, today)
    ensures Successor(p, today, id) == Ok(GoalRow(id, p.user, p.amount, Savings, p.description, start,
      LastOfMonth(end), None, InProgress, p.recurring, p.frequency, Some(p.id)))
  {
  }

  /** Calendar facts of January and February 2021. */
  lemma January2021()
    ensures NextDay(YMD(2021, 1, 31)) == Some(YMD(2021, 2, 1))
    ensures LastOfMonth(YMD(2021, 2, 1)) == YMD(2021, 2, 28)
  {
    assert 2021 % 4 == 1;
  }

  /** The ids among the first i of the snapshot whose successor is due, in
      ascending order. */
  function DueIds(goals: map<nat, GoalRow>, user: Option<nat>, predecessors: set<nat>, today: Date, i: nat): seq<nat> {
    if i == 0 then []
    else
      DueIds(goals, user, predecessors, today, i - 1) +
      (if i - 1 in goals && InScope(goals[i - 1], user) && Due(goals[i - 1], predecessors, today) then [i - 1] else [])
  }

  /** The goal table `now` holds the goals of the snapshot unchanged and,
      under the ids n, n + 1, ..., the successor of each due goal in turn. */
  ghost predicate Created(goals: map<nat, GoalRow>, due: seq<nat>, today: Date, n: nat, now: map<nat, GoalRow>) {
    && (forall id :: id in now <==> id in goals || n <= id < n + |due|)
    && (forall id :: id in goals ==> now[id] == goals[id])
    && (forall k :: 0 <= k < |due| ==>
          due[k] in goals && Successor(goals[due[k]], today, n + k).Ok? &&
          now[n + k] == Successor(goals[due[k]], today, n + k).value)
  }

  /** Storing the successor of one more due goal under the next id keeps the
      table created. */
  lemma CreatedSnoc(goals: map<nat, GoalRow>, due: seq<nat>, id: nat, today: Date, n: nat, now: map<nat, GoalRow>)
    requires forall j :: j in goals ==> j < n
    requires Created(goals, due, today, n, now)
    requires id in goals && Successor(goals[id], today, n + |due|).Ok?
    ensures Created(goals, due + [id], today, n, now[n + |due| := Successor(goals[id], today, n + |due|).value])
  {
    var after := now[n + |due| := Successor(goals[id], today, n + |due|).value];
    var due' := due + [id];
    forall k | 0 <= k < |due'|
      ensures due'[k] in goals && Successor(goals[due'[k]], today, n + k).Ok?
      ensures after[n + k] == Successor(goals[due'[k]], today, n + k).value
    {
      if k < |due| {
        assert due'[k] == due[k];
      }
    }
  }

  /** The successor of p as `Goal.objects.create` builds it: the new
      instance, saved through `Goal.save`, is the row Successor describes. */
  method BuildSuccessor(p: GoalRow, today: Date, id: nat) returns (res: Result<GoalRow, UtilError>)
    requires RowValid(p) && (p.recurring == Fixed || p.recurring == Indefinite)
    ensures res == Successor(p, today, id)
  {
    var start := NextDay(p.expected);
    if start.None? {
      return Err(DateOutOfRange);
    }
    var end := AddMonths(start.value, DiffMonth(p.expected, p.start));
    if end.None? {
      return Err(DateOutOfRange);
    }
    var goal := new Goal(p.user, p.amount, Savings, p.description, Some(start.value), end.value, None,
                         InProgress, p.recurring, p.frequency, Some(p.id));
    assert start.value.day == 1 && FirstOfMonth(start.value) == start.value;
    AddMonthsLater(start.value, DiffMonth(p.expected, p.start));
    var o := goal.Save(today);
    if o.Fail? {
      assert o.error == CompletionInPast;
      return Err(Invalid(o.error));
    }
    return Ok(goal.Row(id));
  }

  /** One pass of `create_goals`: build the successor of p, store it and
      run `on_goal_create` for it. (The second `new_goal.save()` of the
      source saves a normalised goal whose expected date is not past, which
      changes nothing; see Goal.Save.) */
  method CreateSuccessor(db: Db, p: GoalRow, today: Date) returns (res: Result<nat, UtilError>)
    requires db.Valid() && p.id in db.goals && db.goals[p.id] == p
    requires p.recurring == Fixed || p.recurring == Indefinite
    modifies db
    ensures db.Valid() && forall id :: id in old(db.goals) ==> id in db.goals && db.goals[id] == old(db.goals)[id]
    ensures db.nextGoalId >= old(db.nextGoalId)
    ensures forall id :: id in db.goals ==> id in old(db.goals) || id >= old(db.nextGoalId)
    ensures Successor(p, today, old(db.nextGoalId)).Err? ==>
      res == Err(Successor(p, today, old(db.nextGoalId)).error) && db.goals == old(db.goals)
    ensures res.Ok? ==>
      && res.value == old(db.nextGoalId) && db.nextGoalId == res.value + 1
      && Successor(p, today, res.value).Ok?
      && db.goals == old(db.goals)[res.value := Successor(p, today, res.value).value]
    ensures var next := Successor(p, today, old(db.nextGoalId));
      next.Ok? ==>
        && db.nextGoalId == old(db.nextGoalId) + 1
        && db.goals == old(db.goals)[old(db.nextGoalId) := next.value]
    ensures var next := Successor(p, today, old(db.nextGoalId));
      next.Ok? ==>
        var s, e := Ordinal(next.value.start), Ordinal(next.value.expected);
        var ov := GetOverlappingRanges(old(db.ranges), p.user, s, e);
        (res.Ok? <==> ov == [] || Splittable(ov, old(db.goals)[old(db.nextGoalId) := next.value], old(db.contributions), s, e))
  {
    var row := BuildSuccessor(p, today, db.nextGoalId);
    if row.Err? {
      return Err(row.error);
    }
    SuccessorShape(p, today, db.nextGoalId);
    var id := db.InsertGoal(row.value);
    assert row.value.(id := id) == row.value;
    var handled, rows, mid := OnGoalCreate(db, id, true);
    if handled.Fail? {
      return Err(Ledger(handled.error));
    }
    return Ok(id);
  }

  /** `create_goals(user)` over a snapshot of the goals: in ascending id
      order, every considered goal that is due gets its successor; the ids
      of the new goals are returned. */
  method CreateGoals(db: Db, user: Option<nat>, today: Date) returns (res: Result<seq<nat>, UtilError>)
    requires db.Valid()
    modifies db
    ensures db.Valid()
    ensures forall id :: id in old(db.goals) ==> id in db.goals && db.goals[id] == old(db.goals)[id]
    ensures res.Ok? ==>
      var due := DueIds(old(db.goals), user, Predecessors(old(db.goals), user), today, old(db.nextGoalId));
      && |res.value| == |due|
      && (forall k :: 0 <= k < |due| ==> res.value[k] == old(db.nextGoalId) + k)
      && Created(old(db.goals), due, today, old(db.nextGoalId), db.goals)
  {
    ghost var goals := db.goals;
    var n := db.nextGoalId;
    var predecessors := Predecessors(db.goals, user);
    var created: seq<nat> := [];
    var id := 0;
    var failed: Option<UtilError> := None;
    while id < n && failed.None?
      invariant 0 <= id <= n && db.Valid() && GoalsOk(goals, n) && Keeps(goals, n, db.goals)
      invariant failed.None? ==> CreatedUpTo(goals, user, predecessors, today, n, id, created, db.goals, db.nextGoalId)
      decreases n - id, failed.None?
    {
      var step := CreateNext(db, goals, user, predecessors, today, n, id, created);
      if step.Ok? {
        created := step.value;
        id := id + 1;
      } else {
        failed := Some(step.error);
      }
    }
    if failed.Some? {
      res := Err(failed.value);
    } else {
      res := Ok(created);
    }
  }

  /** The table `now` keeps every goal of the snapshot and adds goals only
      under ids from n on. */
  ghost predicate Keeps(goals: map<nat, GoalRow>, n: nat, now: map<nat, GoalRow>) {
    && (forall j :: j in goals ==> j in now && now[j] == goals[j])
    && (forall j :: j in now ==> j in goals || j >= n)
  }

  /** After the first id goals of the snapshot: the ids created so far are
      n, n + 1, ..., one per due goal, and the table is created. */
  ghost predicate CreatedUpTo(goals: map<nat, GoalRow>, user: Option<nat>, predecessors: set<nat>, today: Date,
                              n: nat, id: nat, created: seq<nat>, now: map<nat, GoalRow>, nextGoalId: nat) {
    var due := DueIds(goals, user, predecessors, today, id);
    && |created| == |due| && nextGoalId == n + |created|
    && (forall k :: 0 <= k < |due| ==> created[k] == n + k)
    && Created(goals, due, today, n, now)
  }

  /** One pass of the `create_goals` loop: goal id of the snapshot, when due,
      gets its successor. */
  method CreateNext(db: Db, ghost goals: map<nat, GoalRow>, user: Option<nat>, predecessors: set<nat>, today: Date,
                    n: nat, id: nat, created: seq<nat>) returns (res: Result<seq<nat>, UtilError>)
    requires id < n && db.Valid() && GoalsOk(goals, n) && Keeps(goals, n, db.goals)
    requires CreatedUpTo(goals, user, predecessors, today, n, id, created, db.goals, db.nextGoalId)
    modifies db
    ensures db.Valid() && Keeps(goals, n, db.goals)
    ensures res.Ok? ==> CreatedUpTo(goals, user, predecessors, today, n, id + 1, res.value, db.goals, db.nextGoalId)
  {
    ghost var due := DueIds(goals, user, predecessors, today, id);
    if id in db.goals && InScope(db.goals[id], user) && Due(db.goals[id], predecessors, today) {
      var p := db.goals[id];
      assert p == goals[id] && p.id == id;
      var made := CreateSuccessor(db, p, today);
      if made.Ok? {
        CreatedUpToDue(goals, user, predecessors, today, n, id, created, old(db.goals), old(db.nextGoalId));
        res := Ok(created + [made.value]);
      } else {
        res := Err(made.error);
      }
    } else {
      assert id in goals ==> id in db.goals && db.goals[id] == goals[id];
      res := Ok(created);
    }
  }

  /** A due goal adds its successor under the next id. */
  lemma CreatedUpToDue(goals: map<nat, GoalRow>, user: Option<nat>, predecessors: set<nat>, today: Date,
                       n: nat, id: nat, created: seq<nat>, now: map<nat, GoalRow>, nextGoalId: nat)
    requires forall j :: j in goals ==> j < n
    requires CreatedUpTo(goals, user, predecessors, today, n, id, created, now, nextGoalId)
    requires id in goals && InScope(goals[id], user) && Due(goals[id], predecessors, today)
    requires Successor(goals[id], today, nextGoalId).Ok?
    ensures CreatedUpTo(goals, user, predecessors, today, n, id + 1, created + [nextGoalId],
                        now[nextGoalId := Successor(goals[id], today, nextGoalId).value], nextGoalId + 1)
  {
    var due := DueIds(goals, user, predecessors, today, id);
    assert DueIds(goals, user, predecessors, today, id + 1) == due + [id];
    CreatedSnoc(goals, due, id, today, n, now);
  }
}
