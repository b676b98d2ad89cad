/** The proleptic Gregorian calendar, standing in for the two date-library
    queries the calendar makes: `date('t')` (days in the month) and
    `date('N')` (ISO 8601 weekday, Monday = 1 ... Sunday = 7). Days are
    counted from 0001-01-01, a Monday, which is day 0. */
module Gregorian {

  datatype Date = Date(year: int, month: int, day: int)

  /** Divisible by 4, and either not by 100 or by 400. */
  predicate IsLeapYear(year: int) {
    year % 4 == 0 && (year % 100 != 0 || year % 400 == 0)
  }

  function YearLength(year: int): int {
    if IsLeapYear(year) then 366 else 365
  }

  /** Month lengths of a common (non-leap) year, January first. */
  const COMMON_MONTH_LENGTHS: seq<int> := [31, 28, 31, 30, 31, 30, 31, 31, 30, 31, 30, 31]

  /** Days in the months before month m of a common year, for m = 1 .. 13. */
  const COMMON_DAYS_BEFORE: seq<int> := [0, 31, 59, 90, 120, 151, 181, 212, 243, 273, 304, 334, 365]

  /** The number of days in a month: what `date('t')` reports. */
  function MonthLength(year: int, month: int): (n: int)
    requires 1 <= month <= 12
    ensures 28 <= n <= 31
    ensures month == 2 ==> (n == 29 <==> IsLeapYear(year)) && (n == 28 <==> !IsLeapYear(year))
    ensures month != 2 ==> (n == 30 <==> (month == 4 || month == 6 || month == 9 || month == 11))
    ensures month != 2 ==> (n == 31 <==> !(month == 4 || month == 6 || month == 9 || month == 11))
  {
    if month == 2 && IsLeapYear(year) then 29 else COMMON_MONTH_LENGTHS[month - 1]
  }

  predicate IsValidDate(d: Date) {
    1 <= d.month <= 12 && 1 <= d.day <= MonthLength(d.year, d.month)
  }

  /** Days in the years 1 .. year - 1 (negative before year 1): 365 per year
      plus one per leap year, counting leap years in closed form. */
  function DaysBeforeYear(year: int): int {
    var y := year - 1;
    365 * y + y / 4 - y / 100 + y / 400
  }

  /** The closed form agrees with adding up the years one by one from day 0. */
  lemma DaysBeforeYearStep(year: int)
    ensures DaysBeforeYear(1) == 0
    ensures DaysBeforeYear(year + 1) == DaysBeforeYear(year) + YearLength(year)
  {
    var y := year - 1;
    FloorDivStep(y, 4);
    FloorDivStep(y, 100);
    FloorDivStep(y, 400);
    assert DaysBeforeYear(year + 1) == 365 * year + year / 4 - year / 100 + year / 400;
    assert DaysBeforeYear(year) == 365 * y + y / 4 - y / 100 + y / 400;
    if year % 400 == 0 {
      DivisionIsUnique(year, 100, 4 * (year / 400), 0);
      DivisionIsUnique(year, 4, 100 * (year / 400), 0);
    } else if year % 100 == 0 {
      DivisionIsUnique(year, 4, 25 * (year / 100), 0);
    }
  }

  /** Floor division by k steps up exactly when the new numerator is a multiple of k. */
  lemma FloorDivStep(n: int, k: int)
    requires k > 0
    ensures (n + 1) / k == n / k + (if (n + 1) % k == 0 then 1 else 0)
  {
    var q, r := n / k, n % k;
    if r + 1 < k {
      DivisionIsUnique(n + 1, k, q, r + 1);
    } else {
      DivisionIsUnique(n + 1, k, q + 1, 0);
    }
  }

  /** Quotient and remainder are determined by `a == k * q + r` with `0 <= r < k`. */
  lemma DivisionIsUnique(a: int, k: int, q: int, r: int)
    requires k > 0 && 0 <= r < k && a == k * q + r
    ensures a / k == q && a % k == r
  {
    var q', r' := a / k, a % k;
    var e := q - q';
    assert k * e == r' - r;
  }

  /** Days in the months 1 .. month - 1 of the given year. */
  function DaysBeforeMonth(year: int, month: int): (n: int)
    requires 1 <= month <= 13
    ensures 28 * (month - 1) <= n <= 31 * (month - 1)
    decreases month
  {
    if month == 1 then 0 else DaysBeforeMonth(year, month - 1) + MonthLength(year, month - 1)
  }

  /** The month offsets are the common-year table, plus one after February in a leap year. */
  lemma {:induction false} DaysBeforeMonthTable(year: int, month: int)
    requires 1 <= month <= 13
    ensures DaysBeforeMonth(year, month)
            == COMMON_DAYS_BEFORE[month - 1] + (if month > 2 && IsLeapYear(year) then 1 else 0)
    decreases month
  {
    if month > 1 {
      DaysBeforeMonthTable(year, month - 1);
      CommonTablesAgree(month - 1);
    }
  }

  /** Each common-year offset is the previous one plus the previous month's length. */
  lemma CommonTablesAgree(month: int)
    requires 1 <= month <= 12
    ensures COMMON_DAYS_BEFORE[month] == COMMON_DAYS_BEFORE[month - 1] + COMMON_MONTH_LENGTHS[month - 1]
  {
  }

  /** The twelve months make up the whole year. */
  lemma YearIsTwelveMonths(year: int)
    ensures DaysBeforeMonth(year, 13) == YearLength(year)
  {
    DaysBeforeMonthTable(year, 13);
  }

  /** Position of a date on the day line: 0001-01-01 is day 0. */
  function DayNumber(d: Date): int
    requires IsValidDate(d)
  {
    DaysBeforeYear(d.year) + DaysBeforeMonth(d.year, d.month) + d.day - 1
  }

  /** The calendar date that follows d. */
  function NextDate(d: Date): (n: Date)
    requires IsValidDate(d)
    ensures IsValidDate(n)
    ensures n.year > d.year || (n.year == d.year && n.month > d.month)
            || (n.year == d.year && n.month == d.month && n.day == d.day + 1)
  {
    if d.day < MonthLength(d.year, d.month) then Date(d.year, d.month, d.day + 1)
    else if d.month < 12 then Date(d.year, d.month + 1, 1)
    else Date(d.year + 1, 1, 1)
  }

  /** The day line has no gaps: the next date is the next day number. */
  lemma NextDateIsNextDay(d: Date)
    requires IsValidDate(d)
    ensures DayNumber(NextDate(d)) == DayNumber(d) + 1
  {
    var n := NextDate(d);
    var before := DaysBeforeYear(d.year) + DaysBeforeMonth(d.year, d.month);
    assert DayNumber(d) == before + d.day - 1;
    if d.day < MonthLength(d.year, d.month) {
      assert n == Date(d.year, d.month, d.day + 1);
    } else if d.month < 12 {
      assert n == Date(d.year, d.month + 1, 1);
      assert DaysBeforeMonth(d.year, d.month + 1) == DaysBeforeMonth(d.year, d.month) + d.day;
    } else {
      assert n == Date(d.year + 1, 1, 1);
      NewYearIsNextDay(d.year);
    }
  }

  /** New Year's Day follows 31 December. */
  lemma NewYearIsNextDay(year: int)
    ensures DayNumber(Date(year + 1, 1, 1)) == DayNumber(Date(year, 12, 31)) + 1
  {
    DaysBeforeYearStep(year);
    YearIsTwelveMonths(year);
    assert DaysBeforeMonth(year, 13) == DaysBeforeMonth(year, 12) + 31;
  }

  /** The ISO 8601 weekday, Monday = 1 ... Sunday = 7: what `date('N')` reports. */
  function IsoWeekday(d: Date): (w: int)
    requires IsValidDate(d)
    ensures 1 <= w <= 7
  {
    DayNumber(d) % 7 + 1
  }

  /** Weekdays cycle: each day is the weekday after the one before, and Monday follows Sunday. */
  lemma WeekdayAdvancesByOne(d: Date)
    requires IsValidDate(d)
    ensures IsoWeekday(NextDate(d)) == if IsoWeekday(d) == 7 then 1 else IsoWeekday(d) + 1
  {
    NextDateIsNextDay(d);
    WeekdayStep(DayNumber(d));
  }

  /** The weekday of day number a + 1 is the one after that of day number a. */
  lemma WeekdayStep(a: int)
    ensures (a + 1) % 7 + 1 == if a % 7 + 1 == 7 then 1 else a % 7 + 2
  {
    ModAddLeft(a, 1);
  }

  /** Reducing the left summand first does not change a remainder modulo 7. */
  lemma ModAddLeft(a: int, k: int)
    ensures (a + k) % 7 == (a % 7 + k) % 7
  {
    var q, r := a / 7, a % 7;
    var q2, r2 := (r + k) / 7, (r + k) % 7;
    DivisionIsUnique(a + k, 7, q + q2, r2);
  }

  /** Within one month, day `day` falls `day - 1` weekdays after day 1. */
  lemma WeekdayWithinMonth(year: int, month: int, day: int)
    requires IsValidDate(Date(year, month, day))
    ensures IsValidDate(Date(year, month, 1))
    ensures IsoWeekday(Date(year, month, day)) - 1
            == (IsoWeekday(Date(year, month, 1)) - 1 + day - 1) % 7
  {
    var a := DayNumber(Date(year, month, 1));
    assert DayNumber(Date(year, month, day)) == a + (day - 1);
    ModAddLeft(a, day - 1);
  }

  /** The epoch is a Monday. This holds by construction: the day count starts
      at 0001-01-01, which is day 0, and day 0 is weekday 1. It fixes where
      the weekday cycle starts; `October2022Weekdays` and
      `February2021Weekday` check the count against real dates. */
  lemma EpochIsMonday()
    ensures IsoWeekday(Date(1, 1, 1)) == 1
  {
  }

  /** October 2022 runs from a Saturday to a Monday. */
  lemma October2022Weekdays()
    ensures IsoWeekday(Date(2022, 10, 1)) == 6
    ensures IsoWeekday(Date(2022, 10, 31)) == 1
  {
    DaysBeforeMonthTable(2022, 10);
    assert DaysBeforeYear(2022) == 738155;
    assert DayNumber(Date(2022, 10, 1)) == 738428 == 7 * 105489 + 5;
    assert DayNumber(Date(2022, 10, 31)) == 738458 == 7 * 105494;
  }

  /** February 2021 starts on a Monday. */
  lemma February2021Weekday()
    ensures IsoWeekday(Date(2021, 2, 1)) == 1
  {
    DaysBeforeMonthTable(2021, 2);
    assert DaysBeforeYear(2021) == 737790;
    assert DayNumber(Date(2021, 2, 1)) == 737821 == 7 * 105403;
  }

  /** The three cases of the leap rule. */
  lemma FebruaryLengths()
    ensures MonthLength(2024, 2) == 29 && MonthLength(2023, 2) == 28
    ensures MonthLength(1900, 2) == 28 && MonthLength(2000, 2) == 29
  {
  }
}
