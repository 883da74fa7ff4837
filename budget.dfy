/** The `Budget` model of budget/models.py: a monthly budget for a category,
    kept until a budget with a later start replaces it; the normalisation and
    guards of `save`; the (category, start_date, user) constraint; and the
    monthly summary of `get_budget_by_category`, which joins each expense
    category's latest budget with the month's spending in it. Amounts are
    exact reals. */
module Budgets {
  import opened Wrappers
  import opened Calendar
  import opened Categories

  /** A stored budget; `category` is the id of its category row. */
  datatype BudgetRow = BudgetRow(id: nat, category: nat, amount: real, start: Date, user: nat)

  datatype BudgetError =
    | NegativeAmount
    | MissingCategory
    | ForeignCategory
    | DuplicateBudget
    | MonthOutOfRange

  /** The two budgets agree on (category, start_date, user). */
  predicate SameKey(a: BudgetRow, b: BudgetRow) {
    a.category == b.category && a.start == b.start && a.user == b.user
  }

  /** Some stored budget has b's (category, start_date, user). */
  predicate KeyTaken(rows: seq<BudgetRow>, b: BudgetRow) {
    exists k :: 0 <= k < |rows| && SameKey(rows[k], b)
  }

  /** The `unique_budget` constraint. */
  ghost predicate UniqueKeys(rows: seq<BudgetRow>) {
    forall i, j :: 0 <= i < j < |rows| ==> !SameKey(rows[i], rows[j])
  }

  /** Every budget whose category is stored belongs to the category's owner,
      as the guard of `save` ensures. */
  ghost predicate Owned(rows: seq<BudgetRow>, cats: map<nat, CategoryRow>) {
    forall k :: 0 <= k < |rows| && rows[k].category in cats ==> cats[rows[k].category].user == rows[k].user
  }

  /** The budget table. */
  class BudgetTable {
    var rows: seq<BudgetRow>
    var nextId: nat

    /** Keys are unique, ids are below the next id, and every start is the
        first of its month. */
    ghost predicate Valid()
      reads this
    {
      && UniqueKeys(rows)
      && (forall k :: 0 <= k < |rows| ==> rows[k].id < nextId && rows[k].start.day == 1)
    }

    constructor ()
      ensures Valid() && rows == [] && nextId == 0
    {
      rows := [];
      nextId := 0;
    }
  }

  /** A budget not yet saved. */
  class Budget {
    var category: nat
    var amount: real
    var start: Date
    var user: nat

    constructor (category: nat, amount: real, start: Date, user: nat)
      ensures this.category == category && this.amount == amount && this.start == start && this.user == user
    {
      this.category := category;
      this.amount := amount;
      this.start := start;
      this.user := user;
    }

    /** The row this budget is inserted as under the given id. */
    function Row(id: nat): BudgetRow
      reads this
    {
      BudgetRow(id, category, amount, start, user)
    }

    /** `Budget.save`: moves the start to the first of its month (even when
        the save then fails), refuses a negative amount and a category of
        another user, and inserts the row unless its key is taken. */
    method Save(table: BudgetTable, cats: map<nat, CategoryRow>) returns (res: Result<nat, BudgetError>)
      requires table.Valid()
      modifies this, table
      ensures table.Valid()
      ensures start == FirstOfMonth(old(start))
      ensures category == old(category) && amount == old(amount) && user == old(user)
      ensures amount < 0.0 ==> res == Err(NegativeAmount)
      ensures amount >= 0.0 && category !in cats ==> res == Err(MissingCategory)
      ensures amount >= 0.0 && category in cats && cats[category].user != user ==> res == Err(ForeignCategory)
      ensures amount >= 0.0 && category in cats && cats[category].user == user ==>
        (res == Err(DuplicateBudget) <==> KeyTaken(old(table.rows), Row(0)))
      ensures res.Ok? ==>
        && res.value == old(table.nextId)
        && table.rows == old(table.rows) + [Row(res.value)]
        && table.nextId == old(table.nextId) + 1
      ensures res.Err? ==> table.rows == old(table.rows) && table.nextId == old(table.nextId)
    {
      start := FirstOfMonth(start);
      if amount < 0.0 {
        return Err(NegativeAmount);
      }
      if category !in cats {
        return Err(MissingCategory);
      }
      if cats[category].user != user {
        return Err(ForeignCategory);
      }
      var id := table.nextId;
      var row := Row(id);
      if KeyTaken(table.rows, row) {
        return Err(DuplicateBudget);
      }
      table.rows := table.rows + [row];
      table.nextId := table.nextId + 1;
      return Ok(id);
    }
  }

  /** A successful save keeps the budgets owned by their categories' owners. */
  lemma SaveKeepsOwned(rows: seq<BudgetRow>, cats: map<nat, CategoryRow>, b: BudgetRow)
    requires Owned(rows, cats) && b.category in cats && cats[b.category].user == b.user
    ensures Owned(rows + [b], cats)
  {
    forall k | 0 <= k < |rows + [b]| && (rows + [b])[k].category in cats
      ensures cats[(rows + [b])[k].category].user == (rows + [b])[k].user
    {
      if k < |rows| {
        assert (rows + [b])[k] == rows[k];
      }
    }
  }

  /** Two budgets of one category saved with starts in the same month clash:
      once first is stored in a table, any later budget of its category and
      user starting in that month has a taken key, so its save is refused. */
  lemma SameMonthClash(rows: seq<BudgetRow>, first: BudgetRow, c: nat, a: real, d: Date, u: nat)
    requires first in rows && first.category == c && first.user == u
    requires first.start == FirstOfMonth(first.start) && d.year == first.start.year && d.month == first.start.month
    ensures KeyTaken(rows, BudgetRow(0, c, a, FirstOfMonth(d), u))
  {
    var k :| 0 <= k < |rows| && rows[k] == first;
    assert SameKey(rows[k], BudgetRow(0, c, a, FirstOfMonth(d), u));
  }

  /** `start + relativedelta(months=1)` for a first of month; None where the
      year would pass 9999. */
  function NextMonth(d: Date): (r: Option<Date>)
    requires d.day == 1
    ensures r.None? <==> d.year == MaxYear && d.month == 12
    ensures r.Some? ==> r.value.day == 1 && Before(d, r.value)
    ensures r.Some? && d.month < 12 ==> r.value.year == d.year && r.value.month == d.month + 1
    ensures r.Some? && d.month == 12 ==> r.value.year == d.year + 1 && r.value.month == 1
  {
    if d.month < 12 then Some(YMD(d.year, d.month + 1, 1))
    else if d.year < MaxYear then Some(YMD(d.year + 1, 1, 1))
    else None
  }

  /** The summary window of the month of `month`: its first day and the day
      before the first of the next month; None where that computation leaves
      the calendar. */
  function MonthWindow(month: Date): (w: Option<(Date, Date)>)
    ensures w.None? <==> month.year == MaxYear && month.month == 12
    ensures w.Some? ==> w.value.0 == FirstOfMonth(month) && w.value.1 == LastOfMonth(month)
  {
    var s := FirstOfMonth(month);
    var n := NextMonth(s);
    if n.None? then None
    else
      var e := PrevDay(n.value);
      if e.None? then None
      else
        assert e.value == LastOfMonth(month);
        Some((s, e.value))
  }

  /** A day falls in the window of a month exactly when it lies in that
      month. */
  lemma MonthWindowMeaning(month: Date, d: Date)
    requires MonthWindow(month).Some?
    ensures var w := MonthWindow(month).value;
      NotAfter(w.0, d) && NotAfter(d, w.1) <==> d.year == month.year && d.month == month.month
  {
  }

  /** The subquery: the greatest start on or before ws among the budgets of
      the category, if there is one. */
  function LatestStart(rows: seq<BudgetRow>, category: nat, ws: Date): (r: Option<Date>)
    ensures r.None? <==> forall k :: 0 <= k < |rows| && rows[k].category == category ==> Before(ws, rows[k].start)
    ensures r.Some? ==> NotAfter(r.value, ws)
    ensures r.Some? ==> exists k :: 0 <= k < |rows| && rows[k].category == category && rows[k].start == r.value
    ensures r.Some? ==> forall k :: 0 <= k < |rows| && rows[k].category == category && NotAfter(rows[k].start, ws) ==>
      NotAfter(rows[k].start, r.value)
  {
    if rows == [] then None
    else
      var front := rows[..|rows| - 1];
      var b := rows[|rows| - 1];
      var m := LatestStart(front, category, ws);
      assert forall k :: 0 <= k < |front| ==> front[k] == rows[k];
      if b.category != category || Before(ws, b.start) then m
      else if m.Some? && Before(b.start, m.value) then m
      else Some(b.start)
  }

  /** The outer query: b belongs to the user, its category is stored and not
      an income category, and it is the latest budget of that category
      starting on or before ws. */
  predicate Selected(rows: seq<BudgetRow>, cats: map<nat, CategoryRow>, b: BudgetRow, user: nat, ws: Date) {
    && b.user == user
    && b.category in cats && !cats[b.category].income
    && NotAfter(b.start, ws)
    && LatestStart(rows, b.category, ws) == Some(b.start)
  }

  /** The selected budgets among the first rows of the table `all`, in table
      order. */
  function SelectedBudgets(rows: seq<BudgetRow>, all: seq<BudgetRow>, cats: map<nat, CategoryRow>, user: nat, ws: Date): (r: seq<BudgetRow>)
    ensures forall b :: b in r <==> b in rows && Selected(all, cats, b, user, ws)
  {
    if rows == [] then []
    else
      var front := rows[..|rows| - 1];
      var b := rows[|rows| - 1];
      assert rows == front + [b];
      SelectedBudgets(front, all, cats, user, ws) + (if Selected(all, cats, b, user, ws) then [b] else [])
  }

  /** The category name of a selected budget. */
  function NameOf(b: BudgetRow, cats: map<nat, CategoryRow>): string
    requires b.category in cats
  {
    cats[b.category].name
  }

  /** Among the budgets of the user that are latest for their category, at
      most one has a given category name: names are unique per user, and
      keys are unique. */
  lemma SelectedUnique(rows: seq<BudgetRow>, cats: map<nat, CategoryRow>, nextId: nat, user: nat, ws: Date,
                       i: nat, j: nat)
    requires UniqueKeys(rows) && Owned(rows, cats) && TableOk(cats, nextId)
    requires i < |rows| && j < |rows|
    requires Selected(rows, cats, rows[i], user, ws) && Selected(rows, cats, rows[j], user, ws)
    requires NameOf(rows[i], cats) == NameOf(rows[j], cats)
    ensures i == j
  {
    var a, b := rows[i], rows[j];
    assert cats[a.category].user == user == cats[b.category].user;
    assert a.category == b.category;
    assert SameKey(a, b);
  }

  /** A transaction as the summary reads it: owner, date, amount, and the
      name and income flag of its category. */
  datatype Txn = Txn(user: nat, date: Date, amount: real, category: string, income: bool)

  /** The transaction filter: the user's expense transactions dated s to e. */
  predicate InSummary(t: Txn, user: nat, s: Date, e: Date) {
    t.user == user && !t.income && NotAfter(s, t.date) && NotAfter(t.date, e)
  }

  /** The `actual` of the group of a category name: the sum of its
      transactions in the window. */
  function Actual(ts: seq<Txn>, user: nat, s: Date, e: Date, name: string): real {
    if ts == [] then 0.0
    else
      var t := ts[|ts| - 1];
      Actual(ts[..|ts| - 1], user, s, e, name) + (if InSummary(t, user, s, e) && t.category == name then t.amount else 0.0)
  }

  /** A category name without transactions in the window has an actual of 0,
      as the default `{"actual": 0}` gives it. */
  lemma {:induction false} ActualNone(ts: seq<Txn>, user: nat, s: Date, e: Date, name: string)
    requires forall t :: t in ts && InSummary(t, user, s, e) ==> t.category != name
    ensures Actual(ts, user, s, e, name) == 0.0
  {
    if ts != [] {
      var front := ts[..|ts| - 1];
      assert forall t :: t in front ==> t in ts;
      ActualNone(front, user, s, e, name);
    }
  }

  /** Non-negative amounts give a non-negative actual. */
  lemma {:induction false} ActualNonNegative(ts: seq<Txn>, user: nat, s: Date, e: Date, name: string)
    requires forall k :: 0 <= k < |ts| ==> ts[k].amount >= 0.0
    ensures Actual(ts, user, s, e, name) >= 0.0
  {
    if ts != [] {
      ActualNonNegative(ts[..|ts| - 1], user, s, e, name);
    }
  }

  /** The names of the transaction groups. */
  function TxnNames(ts: seq<Txn>, user: nat, s: Date, e: Date): set<string> {
    set t | t in ts && InSummary(t, user, s, e) :: t.category
  }

  /** The names of the selected budgets. */
  function BudgetNames(sel: seq<BudgetRow>, cats: map<nat, CategoryRow>): set<string>
    requires forall b :: b in sel ==> b.category in cats
  {
    set b | b in sel :: NameOf(b, cats)
  }

  /** `next(...)` over the selected budgets: the amount of the first one with
      the name, or 0 without one. */
  function BudgetFor(sel: seq<BudgetRow>, cats: map<nat, CategoryRow>, name: string): (r: real)
    requires forall b :: b in sel ==> b.category in cats
    ensures (forall b :: b in sel ==> NameOf(b, cats) != name) ==> r == 0.0
    ensures (exists b :: b in sel && NameOf(b, cats) == name) ==>
      exists k :: 0 <= k < |sel| && NameOf(sel[k], cats) == name && r == sel[k].amount &&
        forall i :: 0 <= i < k ==> NameOf(sel[i], cats) != name
  {
    if sel == [] then 0.0
    else if NameOf(sel[0], cats) == name then sel[0].amount
    else
      var r := BudgetFor(sel[1..], cats, name);
      assert forall b :: b in sel[1..] ==> b in sel;
      assert forall b :: b in sel && b != sel[0] ==> b in sel[1..];
      assert forall k :: 0 <= k < |sel[1..]| ==> sel[1..][k] == sel[k + 1];
      r
  }

  /** One line of the summary. */
  datatype Entry = Entry(category: string, budget: real, actual: real, remaining: real)

  /** The category names of the entries. */
  function EntryNames(es: seq<Entry>): set<string> {
    set i | 0 <= i < |es| :: es[i].category
  }

  /** An entry for a category name: the budget of the name's selected budget
      (0 without one), the sum of the name's transactions in the window, and
      their difference. */
  ghost predicate EntryOk(x: Entry, sel: seq<BudgetRow>, cats: map<nat, CategoryRow>, ts: seq<Txn>,
                          user: nat, s: Date, e: Date)
    requires forall b :: b in sel ==> b.category in cats
  {
    && x.budget == BudgetFor(sel, cats, x.category)
    && x.actual == Actual(ts, user, s, e, x.category)
    && x.remaining == x.budget - x.actual
  }

  /** No category name occurs twice. */
  ghost predicate DistinctNames(es: seq<Entry>) {
    forall i, j :: 0 <= i < j < |es| ==> es[i].category != es[j].category
  }

  /** What the summary promises: one entry per name of a selected budget or
      window transaction group and no other, no name twice, each entry as
      EntryOk states it. */
  ghost predicate Summary(es: seq<Entry>, sel: seq<BudgetRow>, cats: map<nat, CategoryRow>, ts: seq<Txn>,
                          user: nat, s: Date, e: Date)
    requires forall b :: b in sel ==> b.category in cats
  {
    && EntryNames(es) == BudgetNames(sel, cats) + TxnNames(ts, user, s, e)
    && DistinctNames(es)
    && (forall i :: 0 <= i < |es| ==> EntryOk(es[i], sel, cats, ts, user, s, e))
  }

  /** Appending an entry adds its name. */
  lemma EntryNamesSnoc(es: seq<Entry>, x: Entry)
    ensures EntryNames(es + [x]) == EntryNames(es) + {x.category}
  {
    var es' := es + [x];
    assert es'[|es|] == x;
    forall n | n in EntryNames(es') ensures n in EntryNames(es) + {x.category} {
      var i :| 0 <= i < |es'| && es'[i].category == n;
      if i < |es| {
        assert es'[i] == es[i];
      }
    }
    forall n | n in EntryNames(es) ensures n in EntryNames(es') {
      var i :| 0 <= i < |es| && es[i].category == n;
      assert es'[i] == es[i];
    }
  }

  /** Appending an entry of a new name keeps the names distinct and every
      entry correct. */
  lemma EntriesSnoc(es: seq<Entry>, x: Entry, sel: seq<BudgetRow>, cats: map<nat, CategoryRow>, ts: seq<Txn>,
                    user: nat, s: Date, e: Date)
    requires forall b :: b in sel ==> b.category in cats
    requires DistinctNames(es) && x.category !in EntryNames(es)
    requires forall i :: 0 <= i < |es| ==> EntryOk(es[i], sel, cats, ts, user, s, e)
    requires EntryOk(x, sel, cats, ts, user, s, e)
    ensures DistinctNames(es + [x])
    ensures forall i :: 0 <= i < |es + [x]| ==> EntryOk((es + [x])[i], sel, cats, ts, user, s, e)
    ensures EntryNames(es + [x]) == EntryNames(es) + {x.category}
  {
    EntryNamesSnoc(es, x);
    assert forall i :: 0 <= i < |es| ==> es[i].category in EntryNames(es);
    assert forall i :: 0 <= i < |es| ==> (es + [x])[i] == es[i];
  }

  /** `get_budget_by_category(month, user)`: the summary of the month, in
      some order of its category names; it fails for a month whose window
      leaves the calendar. */
  method GetBudgetByCategory(rows: seq<BudgetRow>, cats: map<nat, CategoryRow>, ts: seq<Txn>, month: Date, user: nat)
    returns (r: Result<seq<Entry>, BudgetError>)
    ensures r.Err? <==> MonthWindow(month).None?
    ensures r.Err? ==> r.error == MonthOutOfRange
    ensures r.Ok? ==>
      var w := MonthWindow(month).value;
      var sel := SelectedBudgets(rows, rows, cats, user, w.0);
      Summary(r.value, sel, cats, ts, user, w.0, w.1)
  {
    var w := MonthWindow(month);
    if w.None? {
      return Err(MonthOutOfRange);
    }
    var (s, e) := w.value;
    var sel := SelectedBudgets(rows, rows, cats, user, s);
    var names := BudgetNames(sel, cats) + TxnNames(ts, user, s, e);
    var out := Combine(sel, cats, ts, user, s, e, names);
    return Ok(out);
  }

  /** The loop over the category names: one entry per name, in the order the
      names are picked. */
  method Combine(sel: seq<BudgetRow>, cats: map<nat, CategoryRow>, ts: seq<Txn>, user: nat, s: Date, e: Date,
                 names: set<string>) returns (out: seq<Entry>)
    requires forall b :: b in sel ==> b.category in cats
    ensures EntryNames(out) == names && DistinctNames(out)
    ensures forall i :: 0 <= i < |out| ==> EntryOk(out[i], sel, cats, ts, user, s, e)
  {
    var left := names;
    out := [];
    while left != {}
      invariant Partial(out, left, names, sel, cats, ts, user, s, e)
      decreases |left|
    {
      var name :| name in left;
      var budget := BudgetFor(sel, cats, name);
      var actual := Actual(ts, user, s, e, name);
      var x := Entry(name, budget, actual, budget - actual);
      CombineStep(out, left, names, x, sel, cats, ts, user, s, e);
      out := out + [x];
      left := left - {name};
    }
  }

  /** The state of the loop of Combine: the names done have distinct,
      correct entries, and the names left are the others. */
  ghost predicate Partial(out: seq<Entry>, left: set<string>, names: set<string>, sel: seq<BudgetRow>,
                          cats: map<nat, CategoryRow>, ts: seq<Txn>, user: nat, s: Date, e: Date)
    requires forall b :: b in sel ==> b.category in cats
  {
    && EntryNames(out) + left == names && EntryNames(out) !! left
    && DistinctNames(out)
    && (forall i :: 0 <= i < |out| ==> EntryOk(out[i], sel, cats, ts, user, s, e))
  }

  /** One turn of the loop of Combine keeps its state. */
  lemma CombineStep(out: seq<Entry>, left: set<string>, names: set<string>, x: Entry, sel: seq<BudgetRow>,
                    cats: map<nat, CategoryRow>, ts: seq<Txn>, user: nat, s: Date, e: Date)
    requires forall b :: b in sel ==> b.category in cats
    requires Partial(out, left, names, sel, cats, ts, user, s, e)
    requires x.category in left && EntryOk(x, sel, cats, ts, user, s, e)
    ensures Partial(out + [x], left - {x.category}, names, sel, cats, ts, user, s, e)
  {
    EntriesSnoc(out, x, sel, cats, ts, user, s, e);
  }

  /** A budget of 100 from January and one of 200 from the year before: the
      summary of January selects the January budget. */
  lemma LatestExample(cats: map<nat, CategoryRow>)
    requires 1 in cats && cats[1].user == 5 && !cats[1].income
    ensures var jan := BudgetRow(0, 1, 100.0, YMD(2021, 1, 1), 5);
      var prev := BudgetRow(1, 1, 200.0, YMD(2020, 1, 1), 5);
      SelectedBudgets([jan, prev], [jan, prev], cats, 5, YMD(2021, 1, 1)) == [jan]
  {
    var jan := BudgetRow(0, 1, 100.0, YMD(2021, 1, 1), 5);
    var prev := BudgetRow(1, 1, 200.0, YMD(2020, 1, 1), 5);
    var rows := [jan, prev];
    assert rows[..1] == [jan] && [jan][..0] == [];
    assert LatestStart([jan], 1, YMD(2021, 1, 1)) == Some(YMD(2021, 1, 1));
    assert LatestStart(rows, 1, YMD(2021, 1, 1)) == Some(YMD(2021, 1, 1));
    assert Selected(rows, cats, jan, 5, YMD(2021, 1, 1));
    assert !Selected(rows, cats, prev, 5, YMD(2021, 1, 1));
    assert SelectedBudgets([jan], rows, cats, 5, YMD(2021, 1, 1)) == [jan];
  }
}
