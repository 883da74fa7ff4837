/** Gregorian calendar dates as Python's `datetime.date` and `calendar.monthrange`
    provide them: years 1 to 9999, month lengths with leap years, lexicographic
    order, day ordinals (`date.toordinal`, with 0001-01-01 as day 1) and the
    one-day steps `date + timedelta(days=1)` and `date - timedelta(days=1)`. */
module Calendar {
  import opened Wrappers

  const MinYear := 1
  const MaxYear := 9999

  datatype YMD = YMD(year: int, month: int, day: int)

  predicate IsLeap(y: int) {
    y % 4 == 0 && (y % 100 != 0 || y % 400 == 0)
  }

  /** `calendar.monthrange(y, m)[1]`: the number of days in month m of year y. */
  function DaysInMonth(y: int, m: int): (n: int)
    ensures 28 <= n <= 31
    ensures n == 28 <==> m == 2 && !IsLeap(y)
    ensures n == 29 <==> m == 2 && IsLeap(y)
  {
    if m == 2 then (if IsLeap(y) then 29 else 28)
    else if m == 4 || m == 6 || m == 9 || m == 11 then 30
    else 31
  }

  predicate IsValid(d: YMD) {
    MinYear <= d.year <= MaxYear && 1 <= d.month <= 12 && 1 <= d.day <= DaysInMonth(d.year, d.month)
  }

  /** A date that `datetime.date` accepts. */
  type Date = d: YMD | IsValid(d) witness YMD(2000, 1, 1)

  /** `a < b` on dates. */
  predicate Before(a: YMD, b: YMD) {
    a.year < b.year || (a.year == b.year && (a.month < b.month || (a.month == b.month && a.day < b.day)))
  }

  /** `a <= b` on dates. */
  predicate NotAfter(a: YMD, b: YMD) {
    !Before(b, a)
  }

  /** `d.replace(day=1)`. */
  function FirstOfMonth(d: Date): (r: Date)
    ensures r.year == d.year && r.month == d.month && r.day == 1
    ensures NotAfter(r, d)
  {
    YMD(d.year, d.month, 1)
  }

  /** `d.replace(day=calendar.monthrange(d.year, d.month)[1])`. */
  function LastOfMonth(d: Date): (r: Date)
    ensures r.year == d.year && r.month == d.month && r.day == DaysInMonth(d.year, d.month)
    ensures NotAfter(d, r)
  {
    YMD(d.year, d.month, DaysInMonth(d.year, d.month))
  }

  function DaysInYear(y: int): int {
    if IsLeap(y) then 366 else 365
  }

  function DaysBeforeYear(y: int): int
    decreases y
  {
    if y <= 1 then 0 else DaysBeforeYear(y - 1) + DaysInYear(y - 1)
  }

  function DaysBeforeMonth(y: int, m: int): int
    decreases m
  {
    if m <= 1 then 0 else DaysBeforeMonth(y, m - 1) + DaysInMonth(y, m - 1)
  }

  /** `d.toordinal()`: the number of the day counted from 0001-01-01 (day 1). */
  function Ordinal(d: YMD): int {
    DaysBeforeYear(d.year) + DaysBeforeMonth(d.year, d.month) + d.day
  }

  /** `d + timedelta(days=1)`; None where Python raises OverflowError. */
  function NextDay(d: Date): (r: Option<Date>)
    ensures r.None? <==> d.year == MaxYear && d.month == 12 && d.day == 31
    ensures r.Some? ==> Before(d, r.value)
  {
    if d.day < DaysInMonth(d.year, d.month) then
      Some(YMD(d.year, d.month, d.day + 1))
    else if d.month < 12 then
      Some(YMD(d.year, d.month + 1, 1))
    else if d.year < MaxYear then
      Some(YMD(d.year + 1, 1, 1))
    else
      None
  }

  /** `d - timedelta(days=1)`; None where Python raises OverflowError. */
  function PrevDay(d: Date): (r: Option<Date>)
    ensures r.None? <==> d.year == MinYear && d.month == 1 && d.day == 1
    ensures r.Some? ==> Before(r.value, d)
  {
    if d.day > 1 then
      Some(YMD(d.year, d.month, d.day - 1))
    else if d.month > 1 then
      Some(YMD(d.year, d.month - 1, DaysInMonth(d.year, d.month - 1)))
    else if d.year > MinYear then
      Some(YMD(d.year - 1, 12, 31))
    else
      None
  }

  /** The day after d is the next ordinal. */
  lemma NextDayOrdinal(d: Date)
    requires NextDay(d).Some?
    ensures Ordinal(NextDay(d).value) == Ordinal(d) + 1
  {
    if d.day == DaysInMonth(d.year, d.month) {
      if d.month < 12 {
        MonthBoundary(d.year, d.month + 1);
      } else {
        YearBoundary(d.year + 1);
      }
    }
  }

  /** The day before d is the previous ordinal. */
  lemma PrevDayOrdinal(d: Date)
    requires PrevDay(d).Some?
    ensures Ordinal(PrevDay(d).value) + 1 == Ordinal(d)
  {
    if d.day == 1 {
      if d.month > 1 {
        MonthBoundary(d.year, d.month);
      } else {
        YearBoundary(d.year);
      }
    }
  }

  /** The first of month m follows the last day of month m - 1. */
  lemma MonthBoundary(y: int, m: int)
    requires 1 < m
    ensures Ordinal(YMD(y, m, 1)) == Ordinal(YMD(y, m - 1, DaysInMonth(y, m - 1))) + 1
  {
    MonthStep(y, m - 1);
  }

  /** New Year's Day follows the 31st of December before it. */
  lemma YearBoundary(y: int)
    requires 1 < y
    ensures Ordinal(YMD(y, 1, 1)) == Ordinal(YMD(y - 1, 12, 31)) + 1
  {
    YearLength(y - 1);
    YearStep(y - 1);
  }

  lemma MonthStep(y: int, m: int)
    requires 1 <= m
    ensures DaysBeforeMonth(y, m + 1) == DaysBeforeMonth(y, m) + DaysInMonth(y, m)
  {
  }

  lemma YearStep(y: int)
    requires 1 <= y
    ensures DaysBeforeYear(y + 1) == DaysBeforeYear(y) + DaysInYear(y)
  {
  }

  /** The twelve months of a year add up to the year's length. */
  lemma YearLength(y: int)
    ensures DaysBeforeMonth(y, 12) + 31 == DaysInYear(y)
  {
    assert DaysBeforeMonth(y, 1) == 0;
    assert DaysBeforeMonth(y, 2) == 31;
    assert DaysBeforeMonth(y, 3) == 31 + DaysInMonth(y, 2);
    assert DaysBeforeMonth(y, 4) == 62 + DaysInMonth(y, 2);
    assert DaysBeforeMonth(y, 5) == 92 + DaysInMonth(y, 2);
    assert DaysBeforeMonth(y, 6) == 123 + DaysInMonth(y, 2);
    assert DaysBeforeMonth(y, 7) == 153 + DaysInMonth(y, 2);
    assert DaysBeforeMonth(y, 8) == 184 + DaysInMonth(y, 2);
    assert DaysBeforeMonth(y, 9) == 215 + DaysInMonth(y, 2);
    assert DaysBeforeMonth(y, 10) == 245 + DaysInMonth(y, 2);
    assert DaysBeforeMonth(y, 11) == 276 + DaysInMonth(y, 2);
    assert DaysBeforeMonth(y, 12) == 306 + DaysInMonth(y, 2);
  }

  lemma {:induction false} DaysBeforeMonthMonotone(y: int, m1: int, m2: int)
    requires 1 <= m1 <= m2
    ensures DaysBeforeMonth(y, m1) + (if m1 < m2 then DaysInMonth(y, m1) else 0) <= DaysBeforeMonth(y, m2)
    decreases m2 - m1
  {
    if m1 < m2 {
      DaysBeforeMonthMonotone(y, m1 + 1, m2);
    }
  }

  lemma {:induction false} DaysBeforeYearMonotone(y1: int, y2: int)
    requires 1 <= y1 <= y2
    ensures DaysBeforeYear(y1) + (if y1 < y2 then DaysInYear(y1) else 0) <= DaysBeforeYear(y2)
    decreases y2 - y1
  {
    if y1 < y2 {
      DaysBeforeYearMonotone(y1 + 1, y2);
    }
  }

  /** Ordinals respect the calendar order, so comparing dates and comparing
      their ordinals are the same thing. */
  lemma OrdinalMonotone(a: Date, b: Date)
    ensures Before(a, b) <==> Ordinal(a) < Ordinal(b)
    ensures a == b <==> Ordinal(a) == Ordinal(b)
  {
    if Before(a, b) {
      OrdinalStrict(a, b);
    } else if Before(b, a) {
      OrdinalStrict(b, a);
    } else {
      assert a == b;
    }
  }

  lemma OrdinalStrict(a: Date, b: Date)
    requires Before(a, b)
    ensures Ordinal(a) < Ordinal(b)
  {
    if a.year < b.year {
      OrdinalBelowNextYear(a);
      OrdinalFromYear(b);
      DaysBeforeYearMonotone(a.year + 1, b.year);
    } else if a.month < b.month {
      DaysBeforeMonthMonotone(a.year, a.month, b.month);
    }
  }

  /** Every day of year y comes before the first day of year y + 1. */
  lemma OrdinalBelowNextYear(a: Date)
    ensures Ordinal(a) <= DaysBeforeYear(a.year + 1)
  {
    var y := a.year;
    DaysBeforeMonthMonotone(y, a.month, 12);
    assert DaysBeforeMonth(y, a.month) + a.day <= DaysBeforeMonth(y, 12) + 31;
    YearLength(y);
    YearStep(y);
  }

  /** Every day of year y comes after the last day of year y - 1. */
  lemma OrdinalFromYear(b: Date)
    ensures DaysBeforeYear(b.year) < Ordinal(b)
  {
    DaysBeforeMonthMonotone(b.year, 1, b.month);
  }
}
