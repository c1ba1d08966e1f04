/**
  The whole-number statistics shown beside the counter: calendar months and days
  elapsed since the start date. Dates are (year, month) pairs with the month counted
  from 0, as a Date object reports them; instants are whole milliseconds.
 */
module Calendar {

  /** A calendar month: full year and month 0 (January) to 11 (December). */
  datatype YearMonth = YearMonth(year: int, month: int)

  predicate ValidMonth(m: YearMonth) {
    0 <= m.month < 12
  }

  /** The start of the count: August 2017. */
  const Start := YearMonth(2017, 7)

  const MsPerDay: int := 1000 * 60 * 60 * 24

  /** Calendar order on months. */
  predicate NotBefore(now: YearMonth, start: YearMonth) {
    now.year > start.year || (now.year == start.year && now.month >= start.month)
  }

  /** The calendar month after m. */
  function NextMonth(m: YearMonth): (n: YearMonth)
    requires ValidMonth(m)
    ensures ValidMonth(n) && NotBefore(n, m) && n != m
  {
    if m.month == 11 then YearMonth(m.year + 1, 0) else YearMonth(m.year, m.month + 1)
  }

  /** The position of a month on one running count of months, January of year 0 being 0. */
  function MonthIndex(m: YearMonth): int {
    m.year * 12 + m.month
  }

  /**
    monthsPassed: year difference times twelve plus month difference, which is the
    distance between the two months on the running count of months.
   */
  function MonthsPassed(start: YearMonth, now: YearMonth): (r: int)
    ensures r == MonthIndex(now) - MonthIndex(start)
  {
    (now.year - start.year) * 12 + (now.month - start.month)
  }

  /** The count is never negative from a month on, and zero only in the start month itself. */
  lemma MonthsPassedSign(start: YearMonth, now: YearMonth)
    requires ValidMonth(start) && ValidMonth(now)
    ensures MonthsPassed(start, now) >= 0 <==> NotBefore(now, start)
    ensures MonthsPassed(start, now) == 0 <==> now == start
  {
  }

  /** Moving one calendar month on adds exactly one. */
  lemma MonthsPassedNextMonth(start: YearMonth, now: YearMonth)
    requires ValidMonth(now)
    ensures MonthsPassed(start, NextMonth(now)) == MonthsPassed(start, now) + 1
  {
  }

  /** Moving one year on adds exactly twelve. */
  lemma MonthsPassedNextYear(start: YearMonth, now: YearMonth)
    ensures MonthsPassed(start, YearMonth(now.year + 1, now.month)) == MonthsPassed(start, now) + 12
  {
  }

  /** Counts over consecutive spans add up. */
  lemma MonthsPassedAdditive(a: YearMonth, b: YearMonth, c: YearMonth)
    ensures MonthsPassed(a, b) + MonthsPassed(b, c) == MonthsPassed(a, c)
  {
  }

  /** From August 2017 to August 2020 is 36 months. */
  lemma MonthsPassedThreeYears()
    ensures MonthsPassed(Start, YearMonth(2020, 7)) == 36
  {
  }

  /**
    daysPassed: the floor of the millisecond difference over the length of a day.
    The result is the number of whole days in the difference.
   */
  function DaysPassed(startMs: int, nowMs: int): (days: int)
    ensures days * MsPerDay <= nowMs - startMs < (days + 1) * MsPerDay
    ensures nowMs >= startMs ==> days >= 0
    ensures nowMs < startMs ==> days < 0
  {
    (nowMs - startMs) / MsPerDay
  }

  /** The floor is the only whole number bracketing the difference. */
  lemma DaysPassedUnique(startMs: int, nowMs: int, q: int)
    requires q * MsPerDay <= nowMs - startMs < (q + 1) * MsPerDay
    ensures DaysPassed(startMs, nowMs) == q
  {
  }

  /** A later instant never shows fewer days. */
  lemma DaysPassedMonotone(startMs: int, a: int, b: int)
    requires a <= b
    ensures DaysPassed(startMs, a) <= DaysPassed(startMs, b)
  {
  }

  /** Exactly one day later shows exactly one more day. */
  lemma DaysPassedNextDay(startMs: int, nowMs: int)
    ensures DaysPassed(startMs, nowMs + MsPerDay) == DaysPassed(startMs, nowMs) + 1
  {
    var d := DaysPassed(startMs, nowMs);
    DaysPassedUnique(startMs, nowMs + MsPerDay, d + 1);
  }
}
