/** The previous/next month buttons (calendar.js lines 233-249): the shown month steps through
    0..11 and borrows from or carries into the year. */
module Navigation {
  import opened Gregorian

  /** A month counted from year 0: the order in which the buttons walk through months. */
  function MonthIndex(month: int, year: int): int {
    12 * year + month
  }

  /** The next button: month + 1, and past 11 back to 0 in the next year. */
  function Following(month: int, year: int): (r: (int, int))
    requires 0 <= month <= 11
    ensures 0 <= r.0 <= 11
    ensures MonthIndex(r.0, r.1) == MonthIndex(month, year) + 1
  {
    if month + 1 > 11 then (0, year + 1) else (month + 1, year)
  }

  /** The previous button: month - 1, and below 0 back to 11 in the previous year. */
  function Preceding(month: int, year: int): (r: (int, int))
    requires 0 <= month <= 11
    ensures 0 <= r.0 <= 11
    ensures MonthIndex(r.0, r.1) == MonthIndex(month, year) - 1
  {
    if month - 1 < 0 then (11, year - 1) else (month - 1, year)
  }

  /** A month in 0..11 is fixed by its index, so equal indices mean equal (month, year). */
  lemma MonthIndexInjective(m1: int, y1: int, m2: int, y2: int)
    requires 0 <= m1 <= 11 && 0 <= m2 <= 11
    requires MonthIndex(m1, y1) == MonthIndex(m2, y2)
    ensures m1 == m2 && y1 == y2
  {
  }

  /** Previous after next, and next after previous, give back the month shown before. */
  lemma StepsInverse(month: int, year: int)
    requires 0 <= month <= 11
    ensures Preceding(Following(month, year).0, Following(month, year).1) == (month, year)
    ensures Following(Preceding(month, year).0, Preceding(month, year).1) == (month, year)
  {
    var n := Following(month, year);
    MonthIndexInjective(Preceding(n.0, n.1).0, Preceding(n.0, n.1).1, month, year);
    var p := Preceding(month, year);
    MonthIndexInjective(Following(p.0, p.1).0, Following(p.0, p.1).1, month, year);
  }

  /** Stepping to the next month moves its first weekday on by the length of the month left,
      mod 7. Years 0..99 are excluded: the Date constructor reads them as 1900..1999. */
  lemma FollowingFirstDay(month: int, year: int)
    requires 0 <= month <= 11 && year >= 100
    ensures var (m, y) := Following(month, year);
      FirstDay(y, m) == (FirstDay(year, month) + MonthLength(year, month)) % 7
  {
    FirstDayStep(year, month);
  }
}
