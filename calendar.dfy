/** Calendar dates as the ledger's `Date` column holds them after parsing:
    proleptic Gregorian (year, month, day) triples, their chronological order,
    and the day count that `(max - min).days` measures. */
module Calendar {

  datatype Date = Date(year: int, month: int, day: int)

  predicate IsLeapYear(y: int) {
    y % 4 == 0 && (y % 100 != 0 || y % 400 == 0)
  }

  function DaysInYear(y: int): int {
    if IsLeapYear(y) then 366 else 365
  }

  function DaysInMonth(y: int, m: int): int {
    if m == 2 then (if IsLeapYear(y) then 29 else 28)
    else if m == 4 || m == 6 || m == 9 || m == 11 then 30
    else 31
  }

  /** A date the ledger loader can produce: a real day of a year from 1 on. */
  predicate ValidDate(d: Date) {
    1 <= d.year && 1 <= d.month <= 12 && 1 <= d.day <= DaysInMonth(d.year, d.month)
  }

  /** Chronological order: `a` is on or before `b`. On valid dates this is the
      order of their `YYYY-MM-DD` spellings and of the parsed timestamps. */
  predicate AtOrBefore(a: Date, b: Date) {
    a.year < b.year || (a.year == b.year && (a.month < b.month || (a.month == b.month && a.day <= b.day)))
  }

  function Jan1(y: int): Date { Date(y, 1, 1) }
  function Dec31(y: int): Date { Date(y, 12, 31) }

  /** Days from 0001-01-01 to January 1st of year `y`. */
  function YearStart(y: int): int {
    365 * (y - 1) + (y - 1) / 4 - (y - 1) / 100 + (y - 1) / 400
  }

  /** Days of year `y` before the first of month `m`. */
  function MonthStart(y: int, m: int): int
    requires 1 <= m <= 12
  {
    [0, 31, 59, 90, 120, 151, 181, 212, 243, 273, 304, 334][m - 1]
      + (if m > 2 && IsLeapYear(y) then 1 else 0)
  }

  /** Days from 0001-01-01 to `d`; the difference of two of these is the
      number of whole days between two dates. */
  function DayNumber(d: Date): (n: int)
    requires 1 <= d.month <= 12
    ensures d == Date(1, 1, 1) ==> n == 0
    ensures 1 <= d.year && 1 <= d.day ==> n >= 0
  {
    YearStart(d.year) + MonthStart(d.year, d.month) + d.day - 1
  }

  /** Consecutive years start `DaysInYear` days apart. */
  lemma YearStartStep(y: int)
    ensures YearStart(y + 1) == YearStart(y) + DaysInYear(y)
  {
    StepBy4(y);
    StepBy100(y);
    StepBy400(y);
  }

  /** Moving from `y - 1` to `y` adds one to the count of multiples of 4, 100
      and 400 exactly when `y` is such a multiple. */
  lemma StepBy4(y: int)
    ensures y / 4 == (y - 1) / 4 + (if y % 4 == 0 then 1 else 0)
  {
  }

  lemma StepBy100(y: int)
    ensures y / 100 == (y - 1) / 100 + (if y % 100 == 0 then 1 else 0)
  {
  }

  lemma StepBy400(y: int)
    ensures y / 400 == (y - 1) / 400 + (if y % 400 == 0 then 1 else 0)
  {
  }

  /** A later year starts at least a whole year after an earlier one. */
  lemma {:induction false} YearStartGrows(a: int, b: int)
    requires a < b
    ensures YearStart(a) + DaysInYear(a) <= YearStart(b)
    decreases b - a
  {
    YearStartStep(a);
    if a + 1 < b {
      YearStartGrows(a + 1, b);
    }
  }

  /** A month's days fit before the next month, and the year's last month ends with the year. */
  lemma MonthFits(y: int, m: int, m': int)
    requires 1 <= m < m' <= 12
    ensures MonthStart(y, m) + DaysInMonth(y, m) <= MonthStart(y, m')
  {
  }

  lemma MonthInYear(y: int, m: int)
    requires 1 <= m <= 12
    ensures MonthStart(y, m) + DaysInMonth(y, m) <= DaysInYear(y)
  {
  }

  /** Day numbers follow the calendar: strictly later valid dates have strictly
      larger day numbers, and equal dates equal ones. */
  lemma DayNumberMonotone(a: Date, b: Date)
    requires ValidDate(a) && ValidDate(b) && AtOrBefore(a, b)
    ensures DayNumber(a) <= DayNumber(b)
    ensures DayNumber(a) == DayNumber(b) <==> a == b
  {
    if a.year < b.year {
      MonthInYear(a.year, a.month);
      YearStartGrows(a.year, b.year);
    } else if a.month < b.month {
      MonthFits(a.year, a.month, b.month);
    }
  }

  /** The calendar day after `d`. */
  function NextDay(d: Date): (e: Date)
    requires ValidDate(d)
    ensures ValidDate(e)
  {
    if d.day < DaysInMonth(d.year, d.month) then Date(d.year, d.month, d.day + 1)
    else if d.month < 12 then Date(d.year, d.month + 1, 1)
    else Date(d.year + 1, 1, 1)
  }

  /** The next day is the immediate successor: it follows `d`, and every valid
      date after `d` is on or after it. */
  lemma NextDayIsSuccessor(d: Date, e: Date)
    requires ValidDate(d) && ValidDate(e)
    ensures AtOrBefore(d, NextDay(d)) && d != NextDay(d)
    ensures AtOrBefore(d, e) && d != e ==> AtOrBefore(NextDay(d), e)
  {
  }

  /** Day numbers count days: the next day's number is one more. */
  lemma DayNumberNext(d: Date)
    requires ValidDate(d)
    ensures DayNumber(NextDay(d)) == DayNumber(d) + 1
  {
    if d.day == DaysInMonth(d.year, d.month) && d.month == 12 {
      YearStartStep(d.year);
    }
  }

  /** The window `[Y-01-01, Y-12-31]` holds exactly the valid dates of year Y. */
  lemma YearWindowIsYear(d: Date, y: int)
    requires ValidDate(d)
    ensures AtOrBefore(Jan1(y), d) && AtOrBefore(d, Dec31(y)) <==> d.year == y
  {
    assert DaysInMonth(d.year, d.month) <= 31;
  }
}
