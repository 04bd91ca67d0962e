/**
 * Calendar arithmetic at day granularity: the JavaScript `Date` operations the
 * analytics engine relies on (start of day/week/month/year, days in a month,
 * month offsets), with the wall clock replaced by an explicit `now`.
 *
 * Dates are proleptic Gregorian (year, month 1..12, day 1..31). A day number
 * counts days from 0001-01-01 and is what makes weekdays and "N days before"
 * precise: the lemmas below prove that stepping back k days lowers the day
 * number by exactly k, that a week start is a Sunday, and that the
 * lexicographic order of dates is the order of their day numbers.
 */
module Calendar {

  datatype Date = Date(year: int, month: int, day: int)

  /** A calendar month, as `new Date(y, m, 1)` normalises it. */
  datatype YearMonth = YearMonth(year: int, month: int)

  predicate IsLeapYear(y: int) {
    y % 4 == 0 && (y % 100 != 0 || y % 400 == 0)
  }

  /** `new Date(y, m, 0).getDate()`: the number of days of month m (1..12). */
  function DaysInMonth(y: int, m: int): (n: int)
    ensures 28 <= n <= 31
    ensures n == 29 <==> m == 2 && IsLeapYear(y)
  {
    if m == 2 then (if IsLeapYear(y) then 29 else 28)
    else if m == 4 || m == 6 || m == 9 || m == 11 then 30
    else 31
  }

  predicate ValidDate(d: Date) {
    1 <= d.month <= 12 && 1 <= d.day <= DaysInMonth(d.year, d.month)
  }

  /** Comparison of two `Date` values truncated to the day (`a <= b`). */
  predicate DateLe(a: Date, b: Date) {
    a.year < b.year
    || (a.year == b.year && a.month < b.month)
    || (a.year == b.year && a.month == b.month && a.day <= b.day)
  }

  /** Number of leap years among 1..y (for y >= 0). */
  function LeapYearsThrough(y: int): int {
    y / 4 - y / 100 + y / 400
  }

  /** Day number of 1 January of year y. */
  function YearStartNumber(y: int): int {
    365 * (y - 1) + LeapYearsThrough(y - 1)
  }

  /** Days in the months of year y that precede month m (1..13). */
  function DaysBeforeMonth(y: int, m: int): int {
    var leap := if IsLeapYear(y) then 1 else 0;
    if m <= 1 then 0
    else if m == 2 then 31
    else if m == 3 then 59 + leap
    else if m == 4 then 90 + leap
    else if m == 5 then 120 + leap
    else if m == 6 then 151 + leap
    else if m == 7 then 181 + leap
    else if m == 8 then 212 + leap
    else if m == 9 then 243 + leap
    else if m == 10 then 273 + leap
    else if m == 11 then 304 + leap
    else if m == 12 then 334 + leap
    else 365 + leap
  }

  /** Days since 0001-01-01 (which has number 0). */
  function DayNumber(d: Date): int {
    YearStartNumber(d.year) + DaysBeforeMonth(d.year, d.month) + d.day - 1
  }

  /** `getDay()`: 0 is Sunday, ..., 6 is Saturday; 0001-01-01 was a Monday. */
  function DayOfWeek(d: Date): (w: int)
    ensures 0 <= w < 7
  {
    (DayNumber(d) + 1) % 7
  }

  lemma DivStep4(y: int)
    ensures y / 4 - (y - 1) / 4 == if y % 4 == 0 then 1 else 0
  {
    var q, r := (y - 1) / 4, (y - 1) % 4;
    assert y == 4 * q + r + 1;
  }

  lemma DivStep100(y: int)
    ensures y / 100 - (y - 1) / 100 == if y % 100 == 0 then 1 else 0
  {
    var q, r := (y - 1) / 100, (y - 1) % 100;
    assert y == 100 * q + r + 1;
  }

  lemma DivStep400(y: int)
    ensures y / 400 - (y - 1) / 400 == if y % 400 == 0 then 1 else 0
  {
    var q, r := (y - 1) / 400, (y - 1) % 400;
    assert y == 400 * q + r + 1;
  }

  /** A year has 366 days exactly when it is a leap year. */
  lemma YearLength(y: int)
    ensures YearStartNumber(y + 1) - YearStartNumber(y) == if IsLeapYear(y) then 366 else 365
  {
    DivStep4(y);
    DivStep100(y);
    DivStep400(y);
    assert y % 400 == 0 ==> y % 100 == 0;
    assert y % 100 == 0 ==> y % 4 == 0;
  }

  lemma {:induction false} YearStartMonotone(y: int, y': int)
    requires y < y'
    ensures YearStartNumber(y) + 365 <= YearStartNumber(y')
    decreases y' - y
  {
    YearLength(y);
    if y + 1 < y' {
      YearStartMonotone(y + 1, y');
    }
  }

  lemma MonthLength(y: int, m: int)
    requires 1 <= m <= 12
    ensures DaysBeforeMonth(y, m + 1) == DaysBeforeMonth(y, m) + DaysInMonth(y, m)
  {
  }

  /** The order of dates is the order of their day numbers. */
  lemma DateOrderIsDayOrder(a: Date, b: Date)
    requires ValidDate(a) && ValidDate(b)
    ensures DateLe(a, b) <==> DayNumber(a) <= DayNumber(b)
  {
    if a.year < b.year {
      EarlierYear(a, b);
    } else if b.year < a.year {
      EarlierYear(b, a);
    } else if a.month < b.month {
      EarlierMonth(a, b);
    } else if b.month < a.month {
      EarlierMonth(b, a);
    }
  }

  lemma EarlierYear(a: Date, b: Date)
    requires ValidDate(a) && ValidDate(b) && a.year < b.year
    ensures DayNumber(a) < DayNumber(b)
  {
    MonthLength(a.year, a.month);
    MonthBeforeMonotone(a.year, a.month + 1, 13);
    YearLength(a.year);
    assert DaysBeforeMonth(a.year, 13) == if IsLeapYear(a.year) then 366 else 365;
    assert DayNumber(a) < YearStartNumber(a.year + 1);
    MonthBeforeMonotone(b.year, 1, b.month);
    assert YearStartNumber(b.year) <= DayNumber(b);
    if a.year + 1 < b.year {
      YearStartMonotone(a.year + 1, b.year);
    }
  }

  lemma EarlierMonth(a: Date, b: Date)
    requires ValidDate(a) && ValidDate(b) && a.year == b.year && a.month < b.month
    ensures DayNumber(a) < DayNumber(b)
  {
    MonthLength(a.year, a.month);
    MonthBeforeMonotone(a.year, a.month + 1, b.month);
  }

  lemma MonthBeforeMonotone(y: int, m: int, m': int)
    requires 1 <= m <= m' <= 13
    ensures DaysBeforeMonth(y, m) <= DaysBeforeMonth(y, m')
  {
  }

  /**
   * The date k days before d: `d.setDate(d.getDate() - k)`, which rolls a
   * day-of-month below 1 back into the previous month.
   */
  function SubDays(d: Date, k: nat): (r: Date)
    requires ValidDate(d)
    ensures ValidDate(r)
    ensures DayNumber(r) == DayNumber(d) - k
    decreases k
  {
    if k < d.day then Date(d.year, d.month, d.day - k)
    else
      LastOfPreviousMonth(MonthOf(d));
      SubDays(LastOfMonth(AddMonths(d.year, d.month, -1)), k - d.day)
  }

  /** The Sunday that starts the week containing `now` (Sunday-start weeks). */
  function WeekStart(now: Date): (r: Date)
    requires ValidDate(now)
    ensures ValidDate(r) && DateLe(r, now)
    ensures DayOfWeek(r) == 0
    ensures DayNumber(now) - 6 <= DayNumber(r) <= DayNumber(now)
  {
    WeekStartIsSunday(now);
    WeekStartBeforeNow(now);
    SubDays(now, DayOfWeek(now))
  }

  lemma WeekStartIsSunday(now: Date)
    requires ValidDate(now)
    ensures DayOfWeek(SubDays(now, DayOfWeek(now))) == 0
  {
    WeekdayOfWeekStart(now, SubDays(now, DayOfWeek(now)));
  }

  lemma WeekdayOfWeekStart(now: Date, r: Date)
    requires DayNumber(r) == DayNumber(now) - DayOfWeek(now)
    ensures DayOfWeek(r) == 0
  {
    BackToSunday(DayNumber(now), DayNumber(r));
  }

  lemma WeekStartBeforeNow(now: Date)
    requires ValidDate(now)
    ensures DateLe(SubDays(now, DayOfWeek(now)), now)
  {
    DateOrderIsDayOrder(SubDays(now, DayOfWeek(now)), now);
  }

  lemma BackToSunday(n: int, m: int)
    requires m == n - (n + 1) % 7
    ensures (m + 1) % 7 == 0
  {
    var x := n + 1;
    assert x == 7 * (x / 7) + x % 7;
    assert m + 1 == 7 * (x / 7);
  }

  /** 4 January 1970 was a Sunday, so weekday 0 is Sunday as `getDay()` counts. */
  lemma KnownSunday()
    ensures DayOfWeek(Date(1970, 1, 4)) == 0
  {
    assert DayNumber(Date(1970, 1, 4)) == 719165;
  }

  /** Going k days back moves the weekday k places back, modulo 7. */
  lemma WeekdayOfSubDays(d: Date, k: nat)
    requires ValidDate(d)
    ensures DayOfWeek(SubDays(d, k)) == (DayOfWeek(d) - k) % 7
  {
    WeekdayShift(DayNumber(d) + 1, k);
  }

  lemma WeekdayShift(x: int, k: nat)
    ensures (x - k) % 7 == (x % 7 - k) % 7
  {
    var q := x / 7;
    assert x == 7 * q + x % 7;
    assert x - k == 7 * q + (x % 7 - k);
  }

  /** Linear index of a month: consecutive months have consecutive indices. */
  function MonthIndex(ym: YearMonth): int {
    ym.year * 12 + ym.month - 1
  }

  /**
   * `new Date(y, m - 1 + delta, 1)` read back as a month: JavaScript carries
   * month overflow and underflow into the year.
   */
  function AddMonths(y: int, m: int, delta: int): (r: YearMonth)
    ensures 1 <= r.month <= 12
    ensures MonthIndex(r) == MonthIndex(YearMonth(y, m)) + delta
  {
    var t := y * 12 + (m - 1) + delta;
    YearMonth(t / 12, t % 12 + 1)
  }

  /** Equal month indices mean the same month. */
  lemma MonthIndexInjective(a: YearMonth, b: YearMonth)
    requires 1 <= a.month <= 12 && 1 <= b.month <= 12
    requires MonthIndex(a) == MonthIndex(b)
    ensures a == b
  {
  }

  function MonthOf(d: Date): YearMonth {
    YearMonth(d.year, d.month)
  }

  function FirstOfMonth(ym: YearMonth): Date {
    Date(ym.year, ym.month, 1)
  }

  function LastOfMonth(ym: YearMonth): Date {
    Date(ym.year, ym.month, DaysInMonth(ym.year, ym.month))
  }

  /** A valid date lies between the first and last day of its month and of no other. */
  lemma WithinMonth(d: Date, ym: YearMonth)
    requires ValidDate(d) && 1 <= ym.month <= 12
    ensures DateLe(FirstOfMonth(ym), d) && DateLe(d, LastOfMonth(ym)) <==> MonthOf(d) == ym
  {
  }

  /** The last day of the previous month is the day before the first of this one. */
  lemma LastOfPreviousMonth(ym: YearMonth)
    requires 1 <= ym.month <= 12
    ensures ValidDate(LastOfMonth(AddMonths(ym.year, ym.month, -1)))
    ensures DayNumber(LastOfMonth(AddMonths(ym.year, ym.month, -1))) + 1 == DayNumber(FirstOfMonth(ym))
  {
    if ym.month > 1 {
      assert AddMonths(ym.year, ym.month, -1) == YearMonth(ym.year, ym.month - 1);
      MonthLength(ym.year, ym.month - 1);
    } else {
      assert AddMonths(ym.year, ym.month, -1) == YearMonth(ym.year - 1, 12);
      YearLength(ym.year - 1);
    }
  }

  /**
   * When the week started in the previous month, the week start is a day of
   * that month: stepping back at least the day of the month, but fewer than
   * 28 days, lands in the previous month.
   */
  lemma SubDaysIntoPreviousMonth(d: Date, k: nat)
    requires ValidDate(d) && d.day <= k < 28
    ensures MonthOf(SubDays(d, k)) == AddMonths(d.year, d.month, -1)
  {
    var last := LastOfMonth(AddMonths(d.year, d.month, -1));
    LastOfPreviousMonth(MonthOf(d));
    assert SubDays(d, k) == SubDays(last, k - d.day);
    assert k - d.day < last.day;
  }
}
