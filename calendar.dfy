/**
 * Proleptic Gregorian calendar arithmetic, written the way the browser's `Date` object does it.
 *
 * The overlay never does calendar arithmetic itself: it asks `new Date(y, m, 1).getDay()` for the
 * weekday of the first of a month and `new Date(y, m + 1, 0).getDate()` for the number of days in
 * it. This module states those two questions in terms of ECMAScript's day numbering (days since
 * 1 January 1970, a Thursday), its month normalisation (month 12 is January of the next year,
 * day 0 is the last day of the previous month) and its two-digit year rule (years 0..99 given to
 * the constructor mean 1900..1999).
 *
 * Months are zero-based throughout (0 = January), as in `Date`.
 */
module Calendar {

  /** A calendar date with a zero-based month; `day` is whatever the caller stores there. */
  datatype Date = Date(year: int, month: int, day: int)

  /** A month of a year, the unit the overlay navigates by. */
  datatype YearMonth = YearMonth(year: int, month: int)

  predicate IsLeap(y: int)
  {
    y % 4 == 0 && (y % 100 != 0 || y % 400 == 0)
  }

  /** Length of month `m` (0-based) of year `y`. */
  function DaysInMonth(y: int, m: int): (n: int)
    requires 0 <= m < 12
    ensures 28 <= n <= 31
    ensures m == 1 ==> (n == 29 <==> IsLeap(y))
  {
    if m == 1 then (if IsLeap(y) then 29 else 28)
    else if m == 3 || m == 5 || m == 8 || m == 10 then 30
    else 31
  }

  predicate IsValidDate(d: Date)
  {
    0 <= d.month < 12 && 1 <= d.day <= DaysInMonth(d.year, d.month)
  }

  /** Days of year `y` before the first of month `m`, from the usual cumulative table. */
  function DaysBeforeMonth(y: int, m: int): int
    requires 0 <= m <= 12
  {
    [0, 31, 59, 90, 120, 151, 181, 212, 243, 273, 304, 334, 365][m]
      + (if m >= 2 && IsLeap(y) then 1 else 0)
  }

  /** The cumulative table agrees with the month lengths. */
  lemma DaysBeforeNextMonth(y: int, m: int)
    requires 0 <= m < 12
    ensures DaysBeforeMonth(y, m + 1) == DaysBeforeMonth(y, m) + DaysInMonth(y, m)
  {
  }

  /** ECMAScript's DayFromYear: the day number of 1 January of year `y`. */
  function DayFromYear(y: int): int
  {
    365 * (y - 1970) + (y - 1969) / 4 - (y - 1901) / 100 + (y - 1601) / 400
  }

  /** `(a + 1) / k` exceeds `a / k` by one exactly when `a + 1` is a multiple of `k`. */
  lemma FloorStep(a: int, k: int)
    requires k == 4 || k == 100 || k == 400
    ensures (a + 1) / k - a / k == if (a + 1) % k == 0 then 1 else 0
  {
    var q, r := a / k, a % k;
    assert a == k * q + r && 0 <= r < k;
    if r == k - 1 {
      assert a + 1 == k * (q + 1);
    } else {
      assert a + 1 == k * q + (r + 1);
    }
  }

  /** The day-number formula gives every year 365 days, and 366 exactly in leap years. */
  lemma YearLength(y: int)
    ensures DayFromYear(y + 1) - DayFromYear(y) == if IsLeap(y) then 366 else 365
  {
    FloorStep(y - 1969, 4);
    FloorStep(y - 1901, 100);
    FloorStep(y - 1601, 400);
    assert (y - 1968) % 4 == 0 <==> y % 4 == 0;
    assert (y - 1900) % 100 == 0 <==> y % 100 == 0;
    assert (y - 1600) % 400 == 0 <==> y % 400 == 0;
  }

  /**
   * ECMAScript's MakeDay: the day number of `new Date(y, m, d)` for a full year `y`. Any integer
   * month and day are accepted; the month is folded into [0, 11] with a year carry and the day
   * is an offset from the first of that month.
   */
  function MakeDay(y: int, m: int, d: int): int
  {
    var ym := y + m / 12;
    var mn := m % 12;
    DayFromYear(ym) + DaysBeforeMonth(ym, mn) + d - 1
  }

  /** ECMAScript's WeekDay of a day number, Sunday = 0 (day 0 was a Thursday). */
  function WeekDay(n: int): (w: int)
    ensures 0 <= w < 7
  {
    (n + 4) % 7
  }

  /** The full year `new Date(y, m, d)` uses: 0..99 mean 1900..1999. */
  function ConstructorYear(y: int): int
  {
    if 0 <= y <= 99 then 1900 + y else y
  }

  /** `new Date(y, m, 1).getDay()`. */
  function FirstWeekday(y: int, m: int): (w: int)
    ensures 0 <= w < 7
  {
    WeekDay(MakeDay(ConstructorYear(y), m, 1))
  }

  /**
   * `new Date(y, m + 1, 0).getDate()`: the length of the month that `new Date` means by (y, m).
   * MonthLengthIsDayZero shows that "day 0 of the next month" is exactly this, the last day of m.
   */
  function MonthLength(y: int, m: int): (n: int)
    requires 0 <= m < 12
    ensures 28 <= n <= 31
  {
    DaysInMonth(ConstructorYear(y), m)
  }

  /** Month arithmetic by a single month counter, the reference for navigation. */
  function MonthIndex(ym: YearMonth): int
  {
    12 * ym.year + ym.month
  }

  /** The month after (y, m), as `_nextMonth` computes it. */
  function NextMonth(ym: YearMonth): (r: YearMonth)
    requires 0 <= ym.month < 12
    ensures 0 <= r.month < 12
    ensures MonthIndex(r) == MonthIndex(ym) + 1
  {
    if ym.month + 1 >= 12 then YearMonth(ym.year + 1, 0) else YearMonth(ym.year, ym.month + 1)
  }

  /** The month before (y, m), as `_prevMonth` computes it. */
  function PrevMonth(ym: YearMonth): (r: YearMonth)
    requires 0 <= ym.month < 12
    ensures 0 <= r.month < 12
    ensures MonthIndex(r) == MonthIndex(ym) - 1
  {
    if ym.month - 1 < 0 then YearMonth(ym.year - 1, 11) else YearMonth(ym.year, ym.month - 1)
  }

  /** A month in range is determined by its counter. */
  lemma MonthIndexInjective(a: YearMonth, b: YearMonth)
    requires 0 <= a.month < 12 && 0 <= b.month < 12
    requires MonthIndex(a) == MonthIndex(b)
    ensures a == b
  {
  }

  /** Going forward then back, or back then forward, returns to the same month. */
  lemma NavigationRoundTrip(ym: YearMonth)
    requires 0 <= ym.month < 12
    ensures PrevMonth(NextMonth(ym)) == ym
    ensures NextMonth(PrevMonth(ym)) == ym
  {
    MonthIndexInjective(PrevMonth(NextMonth(ym)), ym);
    MonthIndexInjective(NextMonth(PrevMonth(ym)), ym);
  }

  /** Day number of the first of a month in range. */
  function MonthStart(ym: YearMonth): int
    requires 0 <= ym.month < 12
  {
    MakeDay(ym.year, ym.month, 1)
  }

  /**
   * The first of the next month comes DaysInMonth days after the first of this month, and
   * `new Date` reaches it both as (y, m + 1, d) and as the normalised next month.
   */
  lemma NextMonthStart(ym: YearMonth, d: int)
    requires 0 <= ym.month < 12
    ensures MakeDay(ym.year, ym.month + 1, d) == MakeDay(NextMonth(ym).year, NextMonth(ym).month, d)
    ensures MonthStart(NextMonth(ym)) == MonthStart(ym) + DaysInMonth(ym.year, ym.month)
  {
    var y, m := ym.year, ym.month;
    if m == 11 {
      assert (m + 1) / 12 == 1 && (m + 1) % 12 == 0;
      assert MakeDay(y, m + 1, d) == DayFromYear(y + 1) + d - 1;
      YearLength(y);
      assert MonthStart(ym) == DayFromYear(y) + DaysBeforeMonth(y, 11);
    } else {
      assert (m + 1) / 12 == 0 && (m + 1) % 12 == m + 1;
      assert MakeDay(y, m + 1, d) == DayFromYear(y) + DaysBeforeMonth(y, m + 1) + d - 1;
      DaysBeforeNextMonth(y, m);
      assert MonthStart(ym) == DayFromYear(y) + DaysBeforeMonth(y, m);
    }
  }

  /**
   * "Day 0 of month m + 1" is the last day of month m: the date `new Date(y, m + 1, 0)` names is
   * the valid date (y, m, DaysInMonth(y, m)), so its getDate() is the month's length.
   */
  lemma MonthLengthIsDayZero(y: int, m: int)
    requires 0 <= m < 12
    ensures MakeDay(ConstructorYear(y), m + 1, 0) == MakeDay(ConstructorYear(y), m, MonthLength(y, m))
    ensures IsValidDate(Date(ConstructorYear(y), m, MonthLength(y, m)))
  {
    var ym := YearMonth(ConstructorYear(y), m);
    NextMonthStart(ym, 0);
    NextMonthStart(ym, 1);
  }

  /** Every day of a month lies before the first day of any later month. */
  lemma MonthStartsIncrease(a: YearMonth, b: YearMonth)
    requires 0 <= a.month < 12 && 0 <= b.month < 12
    requires MonthIndex(a) < MonthIndex(b)
    ensures MonthStart(a) + DaysInMonth(a.year, a.month) <= MonthStart(b)
    decreases MonthIndex(b) - MonthIndex(a)
  {
    var p := PrevMonth(b);
    NavigationRoundTrip(b);
    NextMonthStart(p, 1);
    if MonthIndex(p) == MonthIndex(a) {
      MonthIndexInjective(p, a);
    } else {
      MonthStartsIncrease(a, p);
    }
  }

  /** Valid dates have distinct day numbers, so a day number names at most one valid date. */
  lemma MakeDayInjective(a: Date, b: Date)
    requires IsValidDate(a) && IsValidDate(b)
    requires MakeDay(a.year, a.month, a.day) == MakeDay(b.year, b.month, b.day)
    ensures a == b
  {
    var ma, mb := YearMonth(a.year, a.month), YearMonth(b.year, b.month);
    assert MakeDay(a.year, a.month, a.day) == MonthStart(ma) + a.day - 1;
    assert MakeDay(b.year, b.month, b.day) == MonthStart(mb) + b.day - 1;
    if MonthIndex(ma) < MonthIndex(mb) {
      MonthStartsIncrease(ma, mb);
    } else if MonthIndex(mb) < MonthIndex(ma) {
      MonthStartsIncrease(mb, ma);
    } else {
      MonthIndexInjective(ma, mb);
    }
  }

  /** The weekday of the first of the next month follows on from the last day of this one. */
  lemma NextFirstWeekday(ym: YearMonth)
    requires 0 <= ym.month < 12
    ensures WeekDay(MonthStart(NextMonth(ym)))
         == (WeekDay(MonthStart(ym)) + DaysInMonth(ym.year, ym.month)) % 7
  {
    NextMonthStart(ym, 1);
    ShiftWeekDay(MonthStart(ym), DaysInMonth(ym.year, ym.month));
  }

  /** Moving k days on moves the weekday k places round the week. */
  lemma ShiftWeekDay(n: int, k: int)
    ensures WeekDay(n + k) == (WeekDay(n) + k) % 7
  {
    var q := (n + 4) / 7;
    assert n + 4 == 7 * q + WeekDay(n);
    assert n + k + 4 == 7 * q + (WeekDay(n) + k);
  }

  /**
   * The grid of the next month starts where this month's grid left off, except where `new Date`
   * jumps by a century: from December of year -1 to year 0 (1900) and from December 99 (1999)
   * to year 100.
   */
  lemma NextLayoutContinues(ym: YearMonth)
    requires 0 <= ym.month < 12
    requires !(ym.month == 11 && (ym.year == -1 || ym.year == 99))
    ensures FirstWeekday(NextMonth(ym).year, NextMonth(ym).month)
         == (FirstWeekday(ym.year, ym.month) + MonthLength(ym.year, ym.month)) % 7
  {
    var full := YearMonth(ConstructorYear(ym.year), ym.month);
    assert NextMonth(full) == YearMonth(ConstructorYear(NextMonth(ym).year), NextMonth(ym).month);
    NextFirstWeekday(full);
  }

  /** 1 December 2016, the month the demo page shows first, was a Thursday. */
  lemma December2016StartsOnThursday()
    ensures FirstWeekday(2016, 11) == 4
  {
  }
}
