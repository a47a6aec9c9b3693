/** Day arithmetic of the proleptic Gregorian calendar, written as ECMAScript's
    Date does it (ECMA-262, section 21.4.1 "Time Values and Time Range").
    Days are counted from 1 January 1970 (day 0); months are numbered 0..11,
    as Date.prototype.getMonth numbers them. */
module Gregorian {

  /** The leap-year rule: divisible by 4 and not by 100, or divisible by 400. */
  predicate IsLeapYear(y: int) {
    (y % 4 == 0 && y % 100 != 0) || y % 400 == 0
  }

  /** DaysInYear(y) of ECMA-262 section 21.4.1.3, case by case as the standard lists it. */
  function DaysInYear(y: int): (n: int)
    ensures n == 365 || n == 366
    ensures n == 366 <==> IsLeapYear(y)
  {
    if y % 4 != 0 then 365
    else if y % 100 != 0 then 366
    else if y % 400 != 0 then 365
    else 366
  }

  /** Number of days of month m (0 = January) of year y. */
  function DaysInMonth(y: int, m: int): (n: int)
    requires 0 <= m < 12
    ensures 28 <= n <= 31
  {
    if m == 1 then (if IsLeapYear(y) then 29 else 28)
    else if m == 3 || m == 5 || m == 8 || m == 10 then 30
    else 31
  }

  /** DayFromYear(y) of ECMA-262 section 21.4.1.3: the day number of 1 January of year y.
      The standard's floor divisions by positive constants are Dafny's `/`. */
  function DayFromYear(y: int): int {
    365 * (y - 1970) + (y - 1969) / 4 - (y - 1901) / 100 + (y - 1601) / 400
  }

  /** Days of year y before the first day of month m: the thresholds with which
      ECMA-262 section 21.4.1.6 (MonthFromTime) splits a year, InLeapYear added from March on. */
  function MonthStart(y: int, m: int): int
    requires 0 <= m < 12
  {
    var leap := if DaysInYear(y) == 366 then 1 else 0;
    [0, 31, 59, 90, 120, 151, 181, 212, 243, 273, 304, 334][m] + (if m >= 2 then leap else 0)
  }

  /** MakeDay(year, month, date) of ECMA-262 section 21.4.1.28: a month outside 0..11
      carries into the year, and the date counts on from the first of the month, so
      date 0 is the last day of the month before. */
  function MakeDay(year: int, month: int, date: int): int {
    var ym := year + month / 12;
    var mn := month % 12;
    DayFromYear(ym) + MonthStart(ym, mn) + date - 1
  }

  /** WeekDay of ECMA-262 section 21.4.1.7: 0 = Sunday; day 0 (1 January 1970) was a Thursday. */
  function WeekDay(day: int): (r: int)
    ensures 0 <= r < 7
  {
    (day + 4) % 7
  }

  /** The `new Date(year, month, ...)` constructor reads a year 0..99 as 1900 + year
      (MakeFullYear, ECMA-262 section 21.4.2.1). */
  function MakeFullYear(year: int): int {
    if 0 <= year <= 99 then 1900 + year else year
  }

  /** `new Date(year, month, 1).getDay()`: the weekday of the first day of the month. */
  function FirstDay(year: int, month: int): (r: int)
    ensures 0 <= r < 7
  {
    WeekDay(MakeDay(MakeFullYear(year), month, 1))
  }

  /** `new Date(year, month + 1, 0).getDate()`: the last date of the month; see LastDateOfMonth. */
  function MonthLength(year: int, month: int): (n: int)
    requires 0 <= month < 12
    ensures 28 <= n <= 31
  {
    DaysInMonth(MakeFullYear(year), month)
  }

  /** Moving a by one passes a multiple of k exactly when a + 1 is one (a floor-division fact). */
  lemma FloorStep(a: int, k: int)
    requires k > 0
    ensures (a + 1) / k == a / k + (if (a + 1) % k == 0 then 1 else 0)
  {
    var q, r := a / k, a % k;
    assert a == k * q + r && 0 <= r < k;
    if r == k - 1 {
      assert a + 1 == k * (q + 1) + 0;
      DivUnique(a + 1, k, q + 1, 0);
    } else {
      assert a + 1 == k * q + (r + 1);
      DivUnique(a + 1, k, q, r + 1);
    }
  }

  lemma DivUnique(a: int, k: int, q: int, r: int)
    requires k > 0 && 0 <= r < k && a == k * q + r
    ensures a / k == q && a % k == r
  {
    var q', r' := a / k, a % k;
    assert k * q' + r' == k * q + r;
    assert k * (q' - q) == r - r';
    assert k * (q - q') == r' - r;
    if q' > q {
      MulAtLeast(k, q' - q);
    } else if q' < q {
      MulAtLeast(k, q - q');
    }
  }

  lemma {:induction false} MulAtLeast(k: int, d: int)
    requires k > 0 && d >= 1
    ensures k * d >= k
  {
    if d > 1 {
      MulAtLeast(k, d - 1);
      assert k * d == k * (d - 1) + k;
    }
  }

  /** Consecutive years' first days lie DaysInYear apart. */
  lemma {:induction false} DayFromYearStep(y: int)
    ensures DayFromYear(y + 1) == DayFromYear(y) + DaysInYear(y)
  {
    var d4 := (y - 1968) / 4 - (y - 1969) / 4;
    var d100 := (y - 1900) / 100 - (y - 1901) / 100;
    var d400 := (y - 1600) / 400 - (y - 1601) / 400;
    assert d4 == (if y % 4 == 0 then 1 else 0) by {
      FloorStep(y - 1969, 4);
      ShiftMod(y, 4, 492);
    }
    assert d100 == (if y % 100 == 0 then 1 else 0) by {
      FloorStep(y - 1901, 100);
      ShiftMod(y, 100, 19);
    }
    assert d400 == (if y % 400 == 0 then 1 else 0) by {
      FloorStep(y - 1601, 400);
      ShiftMod(y, 400, 4);
    }
    assert DayFromYear(y + 1) - DayFromYear(y) == 365 + d4 - d100 + d400;
    assert y % 100 == 0 ==> y % 4 == 0 by {
      if y % 100 == 0 {
        DivUnique(y, 4, 25 * (y / 100), 0);
      }
    }
    assert y % 400 == 0 ==> y % 100 == 0 by {
      if y % 400 == 0 {
        DivUnique(y, 100, 4 * (y / 400), 0);
      }
    }
  }

  /** Shifting by a multiple of k leaves the remainder mod k unchanged. */
  lemma ShiftMod(y: int, k: int, n: int)
    requires k > 0
    ensures (y - k * n) % k == y % k
  {
    DivUnique(y - k * n, k, y / k - n, y % k);
  }

  /** The thresholds of MonthStart are the running sums of DaysInMonth, and the
      twelve months fill the year exactly. */
  lemma MonthStartStep(y: int, m: int)
    requires 0 <= m < 12
    ensures m < 11 ==> MonthStart(y, m + 1) == MonthStart(y, m) + DaysInMonth(y, m)
    ensures m == 11 ==> DaysInYear(y) == MonthStart(y, m) + DaysInMonth(y, m)
  {
  }

  /** For a month 0..11 nothing carries: MakeDay counts from the first day of month m of y. */
  lemma MakeDayInYear(y: int, m: int, d: int)
    requires 0 <= m < 12
    ensures MakeDay(y, m, d) == DayFromYear(y) + MonthStart(y, m) + d - 1
  {
    assert m / 12 == 0 && m % 12 == m;
  }

  /** Month 12 carries into January of the next year. */
  lemma MakeDayCarry(y: int, d: int)
    ensures MakeDay(y, 12, d) == DayFromYear(y + 1) + d - 1
  {
    assert 12 / 12 == 1 && 12 % 12 == 0;
  }

  /** `new Date(Y, m + 1, 0)` is the day numbered DaysInMonth(Y, m) of month m of Y, so its
      getDate() is DaysInMonth(Y, m); for m = 11 the month carries into the next year. */
  lemma LastDateOfMonth(y: int, m: int)
    requires 0 <= m < 12
    ensures MakeDay(y, m + 1, 0) == MakeDay(y, m, DaysInMonth(y, m))
    ensures MakeDay(y, m + 1, 1) == MakeDay(y, m, 1) + DaysInMonth(y, m)
  {
    MakeDayInYear(y, m, DaysInMonth(y, m));
    MakeDayInYear(y, m, 1);
    MonthStartStep(y, m);
    if m == 11 {
      MakeDayCarry(y, 0);
      MakeDayCarry(y, 1);
      DayFromYearStep(y);
    } else {
      MakeDayInYear(y, m + 1, 0);
      MakeDayInYear(y, m + 1, 1);
    }
  }

  /** Every date 1..DaysInMonth of a month falls inside that month: after its first day
      and before the first day of the next month. */
  lemma DatesInsideMonth(y: int, m: int, d: int)
    requires 0 <= m < 12
    requires 1 <= d <= DaysInMonth(y, m)
    ensures MakeDay(y, m, 1) <= MakeDay(y, m, d) < MakeDay(y, m + 1, 1)
  {
    LastDateOfMonth(y, m);
    MakeDayInYear(y, m, d);
    MakeDayInYear(y, m, 1);
  }

  /** Two consecutive months' first weekdays differ by the length of the first month, mod 7. */
  lemma NextFirstWeekDay(y: int, m: int)
    requires 0 <= m < 12
    ensures WeekDay(MakeDay(y, m + 1, 1)) == (WeekDay(MakeDay(y, m, 1)) + DaysInMonth(y, m)) % 7
  {
    LastDateOfMonth(y, m);
    AddMod(MakeDay(y, m, 1) + 4, DaysInMonth(y, m), 7);
  }

  /** The first weekday of the month after month m of year y (y >= 100, read as itself by
      the Date constructor) is FirstDay(y, m) moved on by the length of month m, mod 7. */
  lemma FirstDayStep(y: int, m: int)
    requires 100 <= y && 0 <= m < 12
    ensures m < 11 ==> FirstDay(y, m + 1) == (FirstDay(y, m) + MonthLength(y, m)) % 7
    ensures m == 11 ==> FirstDay(y + 1, 0) == (FirstDay(y, m) + MonthLength(y, m)) % 7
  {
    assert MakeFullYear(y) == y && MakeFullYear(y + 1) == y + 1;
    NextFirstWeekDay(y, m);
    if m == 11 {
      MakeDayCarry(y, 1);
      MakeDayInYear(y + 1, 0, 1);
    }
  }

  /** Adding n before or after reducing mod k gives the same remainder. */
  lemma AddMod(a: int, n: int, k: int)
    requires k > 0
    ensures (a + n) % k == (a % k + n) % k
  {
    var q, r := a / k, a % k;
    var q2, r2 := (r + n) / k, (r + n) % k;
    assert a + n == k * (q + q2) + r2;
    DivUnique(a + n, k, q + q2, r2);
  }

  /** The Date constructor reads a two-digit year y as 1900 + y, so for years 0..99 the grid
      has the first weekday and the length of that month of 1900 + y. The reminders shown in
      it are still those whose year is y itself (OnDay compares with the shown year). */
  lemma TwoDigitYears(y: int, m: int)
    requires 0 <= y <= 99 && 0 <= m < 12
    ensures FirstDay(y, m) == FirstDay(1900 + y, m)
    ensures MonthLength(y, m) == MonthLength(1900 + y, m)
  {
  }

  /** 1 January 2000 was a Saturday. */
  lemma FirstDay2000()
    ensures FirstDay(2000, 0) == 6
  {
    MakeDayInYear(2000, 0, 1);
    assert DayFromYear(2000) == 10957;
  }

  /** February 2024 had 29 days and February 1900, not a leap year, had 28. */
  lemma FebruaryLengths()
    ensures MonthLength(2024, 1) == 29 && MonthLength(1900, 1) == 28
  {
    assert IsLeapYear(2024) && !IsLeapYear(1900);
  }
}
