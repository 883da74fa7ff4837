/** goal/management/commands/update_status.py: the status refresh run as a
    management command over every user's goals, with a strict start rule. */
module StatusCommand {
  import opened Wrappers
  import opened Calendar
  import opened Goals
  import opened Ledger
  import opened GoalUtils

  /** `Command.handle`: every in-progress or pending goal, of any user, gets
      the status of the rule in which a goal starts only after its start
      date, and is saved; all other goals are untouched. */
  method Handle(db: Db, today: Date, progress: nat -> real) returns (visited: seq<nat>)
    requires db.Valid()
    modifies db
    ensures db.Valid()
    ensures db.goals == Refreshed(old(db.goals), None, today, progress, true, old(db.nextGoalId))
    ensures visited == VisitedIds(old(db.goals), None, old(db.nextGoalId))
    ensures db.ranges == old(db.ranges) && db.contributions == old(db.contributions)
  {
    visited := Refresh(db, None, today, progress, true);
  }

  /** The tables the command and `update_status()` leave differ exactly in
      the visited goals that are not past due and start today: the command
      leaves those pending, `update_status` puts them in progress. */
  lemma CommandVersusUtils(goals: map<nat, GoalRow>, today: Date, progress: nat -> real, n: nat, id: nat)
    requires GoalsOk(goals, n) && id in goals
    ensures var byCommand := Refreshed(goals, None, today, progress, true, n)[id];
      var byUtils := Refreshed(goals, None, today, progress, false, n)[id];
      && (byCommand != byUtils <==>
            Visited(goals[id], None) && !Before(goals[id].expected, today) && goals[id].start == today)
      && (byCommand != byUtils ==> byCommand.status == Pending && byUtils.status == InProgress)
  {
    var g := goals[id];
    RefreshedAll(goals, None, today, progress, true, n, id);
    RefreshedAll(goals, None, today, progress, false, n, id);
    StatusRulesDiffer(g, today, progress(id));
  }
}
