/** The `Goal` model of goal/models.py: its enumerations, the row it stores,
    and `Goal.save` with the `validate_*` steps that normalise the dates and
    reject inconsistent goals. */
module Goals {
  import opened Wrappers
  import opened Calendar

  datatype GoalType = Savings | Debt | Investment

  datatype GoalStatus = Pending | InProgress | Completed | Failed

  datatype Recurrence = Indefinite | Fixed | NonRecurring

  datatype GoalError =
    | MissingFrequency
    | CompletionInPast
    | CompletionBeforeStart
    | ActualBeforeStart
    | ActualWithoutCompletion

  /** A stored goal. `frequency` is the nullable month count of a recurring
      goal; `previous` is the id of the goal it succeeds. */
  datatype GoalRow = GoalRow(
    id: nat,
    user: nat,
    amount: nat,
    kind: GoalType,
    description: string,
    start: Date,
    expected: Date,
    actual: Option<Date>,
    status: GoalStatus,
    recurring: Recurrence,
    frequency: Option<nat>,
    previous: Option<nat>)

  /** `reccuring_frequency` is truthy: present and not zero. */
  predicate HasFrequency(f: Option<nat>) {
    f.Some? && f.value > 0
  }

  /** What every goal written by `Goal.save` satisfies. */
  predicate RowValid(g: GoalRow) {
    && g.start.day == 1
    && g.expected.day == DaysInMonth(g.expected.year, g.expected.month)
    && NotAfter(g.start, g.expected)
    && (g.recurring != NonRecurring ==> HasFrequency(g.frequency))
    && (g.actual.Some? <==> g.status == Completed)
  }

  /** A goal instance before and between saves; `start` may still be unset. */
  class Goal {
    var user: nat
    var amount: nat
    var kind: GoalType
    var description: string
    var start: Option<Date>
    var expected: Date
    var actual: Option<Date>
    var status: GoalStatus
    var recurring: Recurrence
    var frequency: Option<nat>
    var previous: Option<nat>

    constructor (user: nat, amount: nat, kind: GoalType, description: string, start: Option<Date>,
                 expected: Date, actual: Option<Date>, status: GoalStatus, recurring: Recurrence,
                 frequency: Option<nat>, previous: Option<nat>)
      ensures this.user == user && this.amount == amount && this.kind == kind
      ensures this.description == description && this.start == start && this.expected == expected
      ensures this.actual == actual && this.status == status && this.recurring == recurring
      ensures this.frequency == frequency && this.previous == previous
    {
      this.user := user;
      this.amount := amount;
      this.kind := kind;
      this.description := description;
      this.start := start;
      this.expected := expected;
      this.actual := actual;
      this.status := status;
      this.recurring := recurring;
      this.frequency := frequency;
      this.previous := previous;
    }

    /** The row this instance is stored as under the given id. */
    function Row(id: nat): (g: GoalRow)
      reads this
      requires start.Some?
      ensures g.id == id && g.user == user && g.start == start.value && g.expected == expected
      ensures g.actual == actual && g.status == status && g.recurring == recurring
    {
      GoalRow(id, user, amount, kind, description, start.value, expected, actual, status,
              recurring, frequency, previous)
    }

    /** The instance holds exactly what a stored row holds. */
    ghost predicate Normalized()
      reads this
    {
      start.Some? && RowValid(Row(0))
    }

    /** A recurring goal must carry a frequency. */
    method ValidateRecurring() returns (o: Outcome<GoalError>)
      ensures o.Fail? <==> recurring != NonRecurring && !HasFrequency(frequency)
      ensures o.Fail? ==> o.error == MissingFrequency
    {
      if recurring != NonRecurring && !HasFrequency(frequency) {
        return Fail(MissingFrequency);
      }
      return Pass;
    }

    /** The expected date may be neither in the past nor before the start;
        once accepted it moves to the last day of its month. */
    method ValidateCompletionDate(today: Date) returns (o: Outcome<GoalError>)
      requires start.Some?
      modifies this
      ensures start == old(start) && actual == old(actual) && status == old(status)
      ensures Before(old(expected), today) ==> o == Fail(CompletionInPast) && expected == old(expected)
      ensures !Before(old(expected), today) && Before(old(expected), start.value) ==>
        o == Fail(CompletionBeforeStart) && expected == old(expected)
      ensures !Before(old(expected), today) && !Before(old(expected), start.value) ==>
        o == Pass && expected == LastOfMonth(old(expected)) && NotAfter(start.value, expected)
      ensures recurring == old(recurring) && frequency == old(frequency) && user == old(user)
      ensures amount == old(amount) && kind == old(kind) && description == old(description)
      ensures previous == old(previous)
    {
      if Before(expected, today) {
        return Fail(CompletionInPast);
      }
      if Before(expected, start.value) {
        return Fail(CompletionBeforeStart);
      }
      expected := LastOfMonth(expected);
      return Pass;
    }

    /** An actual completion date, when given, may not precede the start. */
    method ValidateActualCompletionDate() returns (o: Outcome<GoalError>)
      requires start.Some?
      ensures o.Fail? <==> actual.Some? && Before(actual.value, start.value)
      ensures o.Fail? ==> o.error == ActualBeforeStart
    {
      if actual.None? {
        return Pass;
      }
      if Before(actual.value, start.value) {
        return Fail(ActualBeforeStart);
      }
      return Pass;
    }

    /** A completed goal without an actual date gets today's; any other goal
        may not carry one. */
    method ValidateStatus(today: Date) returns (o: Outcome<GoalError>)
      modifies this
      ensures old(status) == Completed && old(actual).None? ==> actual == Some(today)
      ensures !(old(status) == Completed && old(actual).None?) ==> actual == old(actual)
      ensures o.Fail? <==> old(status) != Completed && old(actual).Some?
      ensures o.Fail? ==> o.error == ActualWithoutCompletion
      ensures o.Pass? ==> (actual.Some? <==> status == Completed)
      ensures start == old(start) && expected == old(expected) && status == old(status)
      ensures recurring == old(recurring) && frequency == old(frequency) && user == old(user)
      ensures amount == old(amount) && kind == old(kind) && description == old(description)
      ensures previous == old(previous)
    {
      if status == Completed && actual.None? {
        actual := Some(today);
      }
      if status != Completed && actual.Some? {
        return Fail(ActualWithoutCompletion);
      }
      return Pass;
    }

    /** `Goal.save` up to the database write: the checks in the source's
        order, the start date defaulted to today and moved to the 1st, the
        expected date moved to the end of its month, the actual date stamped
        on completed goals. A successful save leaves a valid row, and saving
        a valid goal whose expected date is not past (and whose actual date,
        if any, is not before its start) changes nothing. */
    method Save(today: Date) returns (o: Outcome<GoalError>)
      modifies this
      ensures var s0 := FirstOfMonth(if old(start).Some? then old(start).value else today);
        && (old(recurring) != NonRecurring && !HasFrequency(old(frequency)) ==> o == Fail(MissingFrequency))
        && (!(old(recurring) != NonRecurring && !HasFrequency(old(frequency))) ==>
             && (Before(old(expected), today) ==> o == Fail(CompletionInPast))
             && (!Before(old(expected), today) && Before(old(expected), s0) ==> o == Fail(CompletionBeforeStart))
             && (!Before(old(expected), today) && !Before(old(expected), s0) ==>
                   && (old(actual).Some? && Before(old(actual).value, s0) ==> o == Fail(ActualBeforeStart))
                   && (!(old(actual).Some? && Before(old(actual).value, s0)) ==>
                         && (old(status) != Completed && old(actual).Some? ==> o == Fail(ActualWithoutCompletion))
                         && (!(old(status) != Completed && old(actual).Some?) ==> o == Pass))))
      ensures o.Pass? ==>
        && start == Some(FirstOfMonth(if old(start).Some? then old(start).value else today))
        && expected == LastOfMonth(old(expected))
        && actual == (if old(status) == Completed && old(actual).None? then Some(today) else old(actual))
        && Normalized()
      ensures o == Fail(MissingFrequency) ==> start == old(start) && expected == old(expected) && actual == old(actual)
      ensures o != Fail(MissingFrequency) ==>
        start == Some(FirstOfMonth(if old(start).Some? then old(start).value else today))
      ensures o == Fail(CompletionInPast) || o == Fail(CompletionBeforeStart) ==>
        expected == old(expected) && actual == old(actual)
      ensures o == Fail(ActualBeforeStart) || o == Fail(ActualWithoutCompletion) ==>
        expected == LastOfMonth(old(expected)) && actual == old(actual)
      ensures old(Normalized()) && !Before(old(expected), today) &&
              (old(actual).Some? ==> NotAfter(old(start).value, old(actual).value)) ==>
        o == Pass && start == old(start) && expected == old(expected) && actual == old(actual)
      ensures status == old(status) && recurring == old(recurring) && frequency == old(frequency)
      ensures user == old(user) && amount == old(amount) && kind == old(kind)
      ensures description == old(description) && previous == old(previous)
    {
      if Normalized() {
        assert NotAfter(start.value, expected) && FirstOfMonth(start.value) == start.value;
      }
      o := ValidateRecurring();
      if o.Fail? {
        return;
      }
      if start.None? {
        start := Some(today);
      }
      start := Some(FirstOfMonth(start.value));
      o := ValidateCompletionDate(today);
      if o.Fail? {
        return;
      }
      o := ValidateActualCompletionDate();
      if o.Fail? {
        return;
      }
      o := ValidateStatus(today);
    }
  }
}
