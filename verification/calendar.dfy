/**
 * Calendar arithmetic of the ECMAScript `Date` constructor, with local time
 * taken to be UTC: a day number counts days since 1970-01-01, and the
 * midnight that starts a day is that number times the milliseconds in a day.
 */
module Calendar {

  const MsPerDay: int := 86400000

  /** The time value, in milliseconds, of the midnight that starts day `dayNumber`. */
  function Midnight(dayNumber: int): int {
    dayNumber * 86400000
  }

  /** A calendar date with a one-based month, as `formatLocalDate` writes it. */
  datatype CivilDate = CivilDate(year: int, month: int, day: int)

  predicate IsLeap(y: int) {
    y % 4 == 0 && (y % 100 != 0 || y % 400 == 0)
  }

  function DaysInYear(y: int): int {
    if IsLeap(y) then 366 else 365
  }

  /** Days in month `m` (1 to 12) of year `y`. */
  function DaysInMonth(y: int, m: int): (n: int)
    requires 1 <= m <= 12
    ensures 28 <= n <= 31
  {
    if m == 2 then (if IsLeap(y) then 29 else 28)
    else if m == 4 || m == 6 || m == 9 || m == 11 then 30
    else 31
  }

  predicate ValidDate(d: CivilDate) {
    1 <= d.month <= 12 && 1 <= d.day <= DaysInMonth(d.year, d.month)
  }

  /**
   * ECMAScript's DayFromYear: the day number of January 1st of `y`, counted
   * year by year from 1970 (the standard writes the same count in closed
   * form with floor divisions by 4, 100 and 400).
   */
  function DayFromYear(y: int): int
    decreases if y < 1970 then 1970 - y else y - 1970
  {
    if y == 1970 then 0
    else if y > 1970 then DayFromYear(y - 1) + DaysInYear(y - 1)
    else DayFromYear(y + 1) - DaysInYear(y)
  }

  /** Days of year `y` before the zero-based month `mn`. */
  function DaysBeforeMonth(y: int, mn: int): (n: int)
    requires 0 <= mn <= 11
    ensures 0 <= n <= 335
  {
    var leap := if IsLeap(y) && mn >= 2 then 1 else 0;
    leap + (
      if mn == 0 then 0 else if mn == 1 then 31 else if mn == 2 then 59
      else if mn == 3 then 90 else if mn == 4 then 120 else if mn == 5 then 151
      else if mn == 6 then 181 else if mn == 7 then 212 else if mn == 8 then 243
      else if mn == 9 then 273 else if mn == 10 then 304 else 334)
  }

  /**
   * ECMAScript's MakeDay(year, month, date): a zero-based `month` outside
   * 0..11 carries into the year, and a `date` beyond the month's end carries
   * into the following days.
   */
  function MakeDay(year: int, month: int, date: int): int {
    var ym := year + month / 12;
    var mn := month % 12;
    DayFromYear(ym) + DaysBeforeMonth(ym, mn) + date - 1
  }

  /** The year `new Date(y, …)` uses: years 0 to 99 mean 1900 to 1999. */
  function FullYear(y: int): (r: int)
    ensures !(0 <= r <= 99)
    ensures r == y || r == y + 1900
  {
    if 0 <= y <= 99 then 1900 + y else y
  }

  /**
   * Years from 100 on are taken as written, so the mapping is the identity
   * on its own results.
   */
  lemma FullYearFixed(y: int)
    ensures y >= 100 ==> FullYear(y) == y
    ensures FullYear(FullYear(y)) == FullYear(y)
  {
  }

  /** The calendar day after `d`, rolling over the month and the year. */
  function NextDay(d: CivilDate): (r: CivilDate)
    requires ValidDate(d)
    ensures ValidDate(r)
  {
    if d.day < DaysInMonth(d.year, d.month) then CivilDate(d.year, d.month, d.day + 1)
    else if d.month < 12 then CivilDate(d.year, d.month + 1, 1)
    else CivilDate(d.year + 1, 1, 1)
  }

  /** Inside the year, MakeDay adds the days before the month and the date. */
  lemma MakeDayInYear(y: int, mn: int, date: int)
    requires 0 <= mn <= 11
    ensures MakeDay(y, mn, date) == DayFromYear(y) + DaysBeforeMonth(y, mn) + date - 1
  {
    assert mn / 12 == 0 && mn % 12 == mn;
  }

  /** The day number of a valid date. */
  function DayNumber(d: CivilDate): int
    requires ValidDate(d)
  {
    DayFromYear(d.year) + DaysBeforeMonth(d.year, d.month - 1) + d.day - 1
  }

  /** January 1st of the next year comes one year's worth of days later. */
  lemma DayFromYearStep(y: int)
    ensures DayFromYear(y + 1) == DayFromYear(y) + DaysInYear(y)
  {
  }

  /** The closed form the ECMAScript standard gives for DayFromYear, with floor division. */
  function DayFromYearClosed(y: int): int {
    365 * (y - 1970) + (y - 1969) / 4 - (y - 1901) / 100 + (y - 1601) / 400
  }

  lemma Step4(y: int)
    ensures (y - 1968) / 4 - (y - 1969) / 4 == if y % 4 == 0 then 1 else 0
  {
    assert (y - 1968) % 4 == y % 4;
  }

  lemma Step100(y: int)
    ensures (y - 1900) / 100 - (y - 1901) / 100 == if y % 100 == 0 then 1 else 0
  {
    assert (y - 1900) % 100 == y % 100;
  }

  lemma Step400(y: int)
    ensures (y - 1600) / 400 - (y - 1601) / 400 == if y % 400 == 0 then 1 else 0
  {
    assert (y - 1600) % 400 == y % 400;
  }

  /** A multiple of 100 is a multiple of 4, and a multiple of 400 one of 100. */
  lemma Multiples(y: int)
    ensures y % 100 == 0 ==> y % 4 == 0
    ensures y % 400 == 0 ==> y % 100 == 0
  {
  }

  /** The closed form also grows by one year's worth of days per year. */
  lemma ClosedStep(y: int)
    ensures DayFromYearClosed(y + 1) == DayFromYearClosed(y) + DaysInYear(y)
  {
    Step4(y);
    Step100(y);
    Step400(y);
    Multiples(y);
  }

  /** The year-by-year count agrees with the standard's closed form for every year. */
  lemma {:induction false} DayFromYearIsClosedForm(y: int)
    ensures DayFromYear(y) == DayFromYearClosed(y)
    decreases if y < 1970 then 1970 - y else y - 1970
  {
    if y > 1970 {
      DayFromYearIsClosedForm(y - 1);
      ClosedStep(y - 1);
    } else if y < 1970 {
      DayFromYearIsClosedForm(y + 1);
      ClosedStep(y);
    }
  }

  /** The first of the following month comes one month's worth of days later. */
  lemma DaysBeforeMonthStep(y: int, m: int)
    requires 1 <= m <= 11
    ensures DaysBeforeMonth(y, m) == DaysBeforeMonth(y, m - 1) + DaysInMonth(y, m)
  {}

  /** New Year's Day follows December 31st. */
  lemma NewYearDays(y: int)
    ensures DayNumber(CivilDate(y + 1, 1, 1)) == DayNumber(CivilDate(y, 12, 31)) + 1
  {
    DayFromYearStep(y);
  }

  /**
   * The rollover `new Date(y, m - 1, d + 1)` performs lands on the calendar's
   * next day, across month and year ends.
   */
  lemma MakeDayNextDay(d: CivilDate)
    requires ValidDate(d)
    ensures MakeDay(d.year, d.month - 1, d.day + 1) == DayNumber(NextDay(d))
    ensures DayNumber(NextDay(d)) == DayNumber(d) + 1
  {
    MakeDayInYear(d.year, d.month - 1, d.day + 1);
    if d.day < DaysInMonth(d.year, d.month) {
    } else if d.month < 12 {
      DaysBeforeMonthStep(d.year, d.month);
    } else {
      NewYearDays(d.year);
    }
  }
}
