/**
 * The Ethiopic calendar arithmetic the date picker relies on, that is the part of
 * Joda-Time's EthiopicChronology it calls: twelve months of 30 days followed by a
 * short thirteenth month of 5 days (6 in a leap year, when year % 4 == 3), and
 * weekdays numbered 1 (Monday) to 7 (Sunday) as in ISO 8601.
 *
 * Weekdays come from an absolute day count; the offset is fixed so that
 * 1 Maskaram 2016 (12 September 2023) is a Tuesday.
 */
module EthiopicCalendar {

  /** A (year, month, day) triple; `CalDate` below is the valid ones. */
  datatype Date = Date(year: int, month: int, day: int)

  /** Joda's leap rule for this calendar, (year & 3) == 3; Dafny's % agrees for negative years. */
  predicate IsLeapYear(year: int) {
    year % 4 == 3
  }

  function MonthLength(year: int, month: int): nat {
    if month == 13 then (if IsLeapYear(year) then 6 else 5) else 30
  }

  predicate ValidDate(d: Date) {
    1 <= d.month <= 13 && 1 <= d.day <= MonthLength(d.year, d.month)
  }

  /** The dates Joda can represent: a month in [1..13] and a day within that month. */
  type CalDate = d: Date | ValidDate(d) witness Date(1, 1, 1)

  function Min(a: int, b: int): int {
    if a <= b then a else b
  }

  /** Number of days in the years before `year` (year 1 starts at day 0). */
  function DaysBeforeYear(year: int): int {
    365 * (year - 1) + year / 4
  }

  /** Days elapsed since 1 Maskaram of year 1. */
  function AbsoluteDay(d: Date): int {
    DaysBeforeYear(d.year) + 30 * (d.month - 1) + d.day - 1
  }

  /** Joda's getDayOfWeek(): 1 (Monday) .. 7 (Sunday). */
  function Weekday(d: Date): (w: int)
    ensures 1 <= w <= 7
  {
    (AbsoluteDay(d) + 2) % 7 + 1
  }

  /** A count of months since month 1 of year 0; consecutive months differ by one. */
  function MonthIndex(d: Date): int {
    13 * d.year + d.month - 1
  }

  /** A year is 360 days of twelve full months plus its thirteenth month. */
  lemma YearLength(year: int)
    ensures DaysBeforeYear(year + 1) == DaysBeforeYear(year) + 360 + MonthLength(year, 13)
  {
    var q, r := year / 4, year % 4;
    assert year == 4 * q + r;
    if r == 3 {
      assert year + 1 == 4 * (q + 1);
      assert (year + 1) / 4 == q + 1;
    } else {
      assert year + 1 == 4 * q + (r + 1) && 0 <= r + 1 < 4;
      assert (year + 1) / 4 == q;
    }
  }

  /** Day 1 of the month after (year, month). */
  function FirstOfNextMonth(year: int, month: int): (r: CalDate)
    requires 1 <= month <= 13
    ensures r.day == 1 && MonthIndex(r) == MonthIndex(Date(year, month, 1)) + 1
  {
    if month == 13 then Date(year + 1, 1, 1) else Date(year, month + 1, 1)
  }

  /** Joda's plusDays(1): the next calendar day, one absolute day later. */
  function NextDay(d: CalDate): (r: CalDate)
    ensures AbsoluteDay(r) == AbsoluteDay(d) + 1
  {
    if d.day < MonthLength(d.year, d.month) then
      Date(d.year, d.month, d.day + 1)
    else if d.month < 13 then
      Date(d.year, d.month + 1, 1)
    else
      YearLength(d.year);
      Date(d.year + 1, 1, 1)
  }

  /** The day after a date falls on the next weekday, Sunday (7) being followed by Monday (1). */
  lemma NextDayWeekday(d: CalDate)
    ensures Weekday(NextDay(d)) == Weekday(d) % 7 + 1
  {
    var a := AbsoluteDay(d) + 2;
    assert AbsoluteDay(NextDay(d)) + 2 == a + 1;
    ShiftWeekdayNumber(a, 1);
  }

  /** Joda's plusMonths(1): the following month, the day clamped to its length. */
  function PlusOneMonth(d: CalDate): (r: CalDate)
    ensures MonthIndex(r) == MonthIndex(d) + 1
    ensures r.day == Min(d.day, MonthLength(r.year, r.month))
  {
    var year := if d.month == 13 then d.year + 1 else d.year;
    var month := if d.month == 13 then 1 else d.month + 1;
    Date(year, month, Min(d.day, MonthLength(year, month)))
  }

  /** Joda's minusMonths(1): the preceding month, the day clamped to its length. */
  function MinusOneMonth(d: CalDate): (r: CalDate)
    ensures MonthIndex(r) == MonthIndex(d) - 1
    ensures r.day == Min(d.day, MonthLength(r.year, r.month))
  {
    var year := if d.month == 1 then d.year - 1 else d.year;
    var month := if d.month == 1 then 13 else d.month - 1;
    Date(year, month, Min(d.day, MonthLength(year, month)))
  }

  /** Paging forward from the thirteenth month lands on month 1 of the next year, and
      paging back from month 1 on the thirteenth month of the previous year. */
  lemma YearBoundaryWraps(d: CalDate)
    ensures d.month == 13 ==> PlusOneMonth(d).year == d.year + 1 && PlusOneMonth(d).month == 1
    ensures d.month == 1 ==> MinusOneMonth(d).year == d.year - 1 && MinusOneMonth(d).month == 13
  {
  }

  /** The month index determines the year and the month. */
  lemma MonthIndexInjective(a: CalDate, b: CalDate)
    requires MonthIndex(a) == MonthIndex(b)
    ensures a.year == b.year && a.month == b.month
  {
  }

  /** Paging forward then back from day 1 of a month returns to that date. */
  lemma NextThenPreviousMonth(d: CalDate)
    requires d.day == 1
    ensures MinusOneMonth(PlusOneMonth(d)) == d
  {
    MonthIndexInjective(MinusOneMonth(PlusOneMonth(d)), d);
  }

  /** Paging back then forward from day 1 of a month returns to that date. */
  lemma PreviousThenNextMonth(d: CalDate)
    requires d.day == 1
    ensures PlusOneMonth(MinusOneMonth(d)) == d
  {
    MonthIndexInjective(PlusOneMonth(MinusOneMonth(d)), d);
  }

  /** Paging back from the first day of the next month returns to day 1 of this month. */
  lemma PreviousOfNextMonth(year: int, month: int)
    requires 1 <= month <= 13
    ensures MinusOneMonth(FirstOfNextMonth(year, month)) == Date(year, month, 1)
  {
    var r := MinusOneMonth(FirstOfNextMonth(year, month));
    MonthIndexInjective(r, Date(year, month, 1));
  }

  /** The weekday count is anchored on the calendar: 1 Mäskäräm 2016 (12 September 2023
      in the Gregorian calendar) is a Tuesday. */
  lemma WeekdayCalibration()
    ensures Weekday(Date(2016, 1, 1)) == 2
  {
  }

  /** Within a month the weekday advances with the day, wrapping after slot 7. */
  lemma WeekdayInMonth(year: int, month: int, day: int)
    requires 1 <= month <= 13 && 1 <= day <= MonthLength(year, month)
    ensures Weekday(Date(year, month, day)) == (Weekday(Date(year, month, 1)) - 1 + day - 1) % 7 + 1
  {
    var a := AbsoluteDay(Date(year, month, 1)) + 2;
    assert AbsoluteDay(Date(year, month, day)) + 2 == a + (day - 1);
    ShiftWeekdayNumber(a, day - 1);
  }

  /** Counting n steps on from a number moves its remainder modulo 7 by n, cyclically. */
  lemma ShiftWeekdayNumber(a: int, n: int)
    ensures (a + n) % 7 == (a % 7 + n) % 7
  {
    var q, t := a / 7, a % 7;
    assert a + n == 7 * q + (t + n);
  }
}
