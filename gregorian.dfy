/**
  Proleptic Gregorian calendar arithmetic: the part of the date library the
  calendar widget relies on (days in a month, the weekday of a date, moving the
  displayed month and year).  Weekdays are numbered 0 = Sunday .. 6 = Saturday.
 */
module Gregorian {

  type Month = m: int | 1 <= m <= 12 witness 1

  /** A calendar date; it is a real date when ValidDate holds. */
  datatype Date = Date(year: int, month: Month, day: int)

  /** The month shown by the grid (the widget's `currentDate`, up to its day). */
  datatype YearMonth = YearMonth(year: int, month: Month)

  predicate IsLeapYear(y: int) {
    y % 4 == 0 && (y % 100 != 0 || y % 400 == 0)
  }

  function DaysInYear(y: int): int {
    if IsLeapYear(y) then 366 else 365
  }

  function DaysInMonth(y: int, m: Month): (n: int)
    ensures 28 <= n <= 31
  {
    if m == 2 then (if IsLeapYear(y) then 29 else 28)
    else if m == 4 || m == 6 || m == 9 || m == 11 then 30
    else 31
  }

  predicate ValidDate(d: Date) {
    1 <= d.day <= DaysInMonth(d.year, d.month)
  }

  /** Days in the years before `y`, counted so that 0001-01-01 is day 1. */
  function DaysBeforeYear(y: int): int {
    365 * (y - 1) + (y - 1) / 4 - (y - 1) / 100 + (y - 1) / 400
  }

  /** Days in the months of year `y` before month `m`. */
  function DaysBeforeMonth(y: int, m: Month): int
    decreases m
  {
    if m == 1 then 0 else DaysBeforeMonth(y, m - 1) + DaysInMonth(y, m - 1)
  }

  /** Serial day number: consecutive dates get consecutive numbers (see NextDay). */
  function DayNumber(d: Date): int {
    DaysBeforeYear(d.year) + DaysBeforeMonth(d.year, d.month) + d.day
  }

  /** Day of the week, 0 = Sunday; 0001-01-01 (day number 1) was a Monday. */
  function Weekday(d: Date): (w: int)
    ensures 0 <= w <= 6
  {
    DayNumber(d) % 7
  }

  /** The weekday of the 1st of the month: the number of blank cells before it in the grid. */
  function StartDay(ym: YearMonth): (w: int)
    ensures 0 <= w <= 6
  {
    Weekday(Date(ym.year, ym.month, 1))
  }

  /** The date after `d`. */
  function NextDay(d: Date): (r: Date)
    requires ValidDate(d)
    ensures ValidDate(r)
    ensures DayNumber(r) == DayNumber(d) + 1
  {
    if d.day < DaysInMonth(d.year, d.month) then
      Date(d.year, d.month, d.day + 1)
    else if d.month < 12 then
      Date(d.year, d.month + 1, 1)
    else
      YearEnd(d.year);
      Date(d.year + 1, 1, 1)
  }

  /** The twelve months of a year add up to its length, and the next year starts right after. */
  lemma YearEnd(y: int)
    ensures DaysBeforeMonth(y, 12) + DaysInMonth(y, 12) == DaysInYear(y)
    ensures DaysBeforeYear(y + 1) == DaysBeforeYear(y) + DaysInYear(y)
  {
    MonthOffsets(y);
    DivisionStep(y);
    LeapCount(y);
    var z := y - 1;
    assert DaysBeforeYear(y + 1) - DaysBeforeYear(y)
      == 365 + (y / 4 - z / 4) - (y / 100 - z / 100) + (y / 400 - z / 400);
  }

  /** A year's length counts its divisibility by 4, 100 and 400. */
  lemma LeapCount(y: int)
    ensures DaysInYear(y) == 365 + (if y % 4 == 0 then 1 else 0)
      - (if y % 100 == 0 then 1 else 0) + (if y % 400 == 0 then 1 else 0)
  {
    if y % 400 == 0 {
      FourHundredsAreHundreds(y);
    }
    if y % 100 == 0 {
      HundredsAreFours(y);
    }
  }

  lemma HundredsAreFours(y: int)
    requires y % 100 == 0
    ensures y % 4 == 0
  {
    var q := y / 100;
    assert y == 4 * (25 * q);
  }

  lemma FourHundredsAreHundreds(y: int)
    requires y % 400 == 0
    ensures y % 100 == 0
  {
    var q := y / 400;
    assert y == 100 * (4 * q);
  }

  lemma MonthOffsets(y: int)
    ensures DaysBeforeMonth(y, 12) == 306 + DaysInMonth(y, 2)
  {
    var feb := DaysInMonth(y, 2);
    assert DaysBeforeMonth(y, 3) == 31 + feb;
    assert DaysBeforeMonth(y, 4) == 62 + feb;
    assert DaysBeforeMonth(y, 5) == 92 + feb;
    assert DaysBeforeMonth(y, 6) == 123 + feb;
    assert DaysBeforeMonth(y, 7) == 153 + feb;
    assert DaysBeforeMonth(y, 8) == 184 + feb;
    assert DaysBeforeMonth(y, 9) == 215 + feb;
    assert DaysBeforeMonth(y, 10) == 245 + feb;
    assert DaysBeforeMonth(y, 11) == 276 + feb;
  }

  /** Going from year y - 1 to year y, each of the leap-year counters steps exactly when y is a multiple. */
  lemma DivisionStep(y: int)
    ensures y / 4 - (y - 1) / 4 == (if y % 4 == 0 then 1 else 0)
    ensures y / 100 - (y - 1) / 100 == (if y % 100 == 0 then 1 else 0)
    ensures y / 400 - (y - 1) / 400 == (if y % 400 == 0 then 1 else 0)
  {
  }

  /** Consecutive dates fall on consecutive weekdays. */
  lemma NextDayWeekday(d: Date)
    requires ValidDate(d)
    ensures Weekday(NextDay(d)) == (Weekday(d) + 1) % 7
  {
    ModSevenShift(DayNumber(d), 1);
  }

  /** Day `d` of a month falls `d - 1` weekdays after the 1st of that month. */
  lemma WeekdayInMonth(ym: YearMonth, d: int)
    ensures Weekday(Date(ym.year, ym.month, d)) == (StartDay(ym) + d - 1) % 7
  {
    ModSevenShift(DayNumber(Date(ym.year, ym.month, 1)), d - 1);
  }

  /** Shifting a day number by `k` shifts its weekday by `k`. */
  lemma ModSevenShift(a: int, k: int)
    ensures (a + k) % 7 == (a % 7 + k) % 7
  {
    var q := a / 7;
    assert a == 7 * q + a % 7;
    assert a + k == 7 * q + (a % 7 + k);
  }

  /** Fixed points of the calendar: 1970-01-01 was a Thursday and 2024-01-01 a Monday. */
  lemma KnownWeekdays()
    ensures Weekday(Date(1970, 1, 1)) == 4
    ensures Weekday(Date(2024, 1, 1)) == 1
  {
  }

  /** The Gregorian calendar repeats every 400 years, weekdays included (146097 days = 20871 weeks). */
  lemma FourHundredYearCycle(d: Date)
    ensures DaysInMonth(d.year + 400, d.month) == DaysInMonth(d.year, d.month)
    ensures Weekday(Date(d.year + 400, d.month, d.day)) == Weekday(d)
  {
    LeapCycle(d.year);
    CycleMonths(d.year, d.month);
    CycleYears(d.year);
    ModSevenShift(DayNumber(d), 7 * 20871);
  }

  lemma CycleYears(y: int)
    ensures DaysBeforeYear(y + 400) == DaysBeforeYear(y) + 7 * 20871
  {
    var z := y - 1;
    assert (z + 400) / 4 == z / 4 + 100;
    assert (z + 400) / 100 == z / 100 + 4;
    assert (z + 400) / 400 == z / 400 + 1;
  }

  lemma {:induction false} CycleMonths(y: int, m: Month)
    ensures DaysBeforeMonth(y + 400, m) == DaysBeforeMonth(y, m)
    decreases m
  {
    if m > 1 {
      CycleMonths(y, m - 1);
      LeapCycle(y);
    }
  }

  lemma LeapCycle(y: int)
    ensures IsLeapYear(y + 400) == IsLeapYear(y)
  {
    assert (y + 400) % 4 == y % 4;
    assert (y + 400) % 100 == y % 100;
    assert (y + 400) % 400 == y % 400;
  }

  /** Months counted from January of year 0; navigation moves this count. */
  function MonthIndex(ym: YearMonth): int {
    ym.year * 12 + ym.month - 1
  }

  lemma {:induction false} MonthIndexInjective(a: YearMonth, b: YearMonth)
    requires MonthIndex(a) == MonthIndex(b)
    ensures a == b
  {
  }

  /** One month forward (the "next month" button). */
  function NextMonth(ym: YearMonth): (r: YearMonth)
    ensures MonthIndex(r) == MonthIndex(ym) + 1
  {
    if ym.month == 12 then YearMonth(ym.year + 1, 1) else YearMonth(ym.year, ym.month + 1)
  }

  /** One month back (the "previous month" button). */
  function PrevMonth(ym: YearMonth): (r: YearMonth)
    ensures MonthIndex(r) == MonthIndex(ym) - 1
  {
    if ym.month == 1 then YearMonth(ym.year - 1, 12) else YearMonth(ym.year, ym.month - 1)
  }

  /** One year forward (the "next year" button). */
  function NextYear(ym: YearMonth): (r: YearMonth)
    ensures MonthIndex(r) == MonthIndex(ym) + 12
  {
    YearMonth(ym.year + 1, ym.month)
  }

  /** One year back (the "previous year" button). */
  function PrevYear(ym: YearMonth): (r: YearMonth)
    ensures MonthIndex(r) == MonthIndex(ym) - 12
  {
    YearMonth(ym.year - 1, ym.month)
  }

  /** The month buttons undo each other, and so do the year buttons. */
  lemma NavigationRoundTrips(ym: YearMonth)
    ensures PrevMonth(NextMonth(ym)) == ym && NextMonth(PrevMonth(ym)) == ym
    ensures PrevYear(NextYear(ym)) == ym && NextYear(PrevYear(ym)) == ym
  {
    MonthIndexInjective(PrevMonth(NextMonth(ym)), ym);
    MonthIndexInjective(NextMonth(PrevMonth(ym)), ym);
  }
}
