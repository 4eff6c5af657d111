/** Proleptic Gregorian calendar arithmetic in the terms ECMAScript uses for
    its Date objects (the time-value operations of ECMA-262): months are numbered 0
    (January) to 11 (December), and a calendar day is identified by the
    number of days since 1 January 1970. */
module Gregorian {

  /** A year, a month 0..11 and a day of the month, as the local-time getters
      getFullYear, getMonth and getDate of a JavaScript Date report them. */
  datatype CalendarDate = CalendarDate(year: int, month: int, day: int)

  /** The Gregorian leap-year rule (the abstract operation DaysInYear of ECMA-262). */
  predicate IsLeapYear(y: int) {
    y % 4 == 0 && (y % 100 != 0 || y % 400 == 0)
  }

  function DaysInYear(y: int): (n: int)
    ensures n == 365 || n == 366
  {
    if IsLeapYear(y) then 366 else 365
  }

  /** The number of days of month m of year y. */
  function LastDay(y: int, m: int): (n: int)
    requires 0 <= m < 12
    ensures 28 <= n <= 31
    ensures n < 30 <==> m == 1
    ensures m == 1 ==> (n == 29 <==> IsLeapYear(y))
  {
    if m == 1 then (if IsLeapYear(y) then 29 else 28)
    else if m == 3 || m == 5 || m == 8 || m == 10 then 30
    else 31
  }

  predicate IsValid(d: CalendarDate) {
    0 <= d.month < 12 && 1 <= d.day <= LastDay(d.year, d.month)
  }

  /** A calendar day that exists. */
  type Day = d: CalendarDate | IsValid(d) witness CalendarDate(1970, 0, 1)

  /** DayFromYear (the abstract operation of ECMA-262): the day number of 1 January
      of year y. Dafny's `/` with a positive divisor is the floor the standard uses. */
  function DayFromYear(y: int): int {
    365 * (y - 1970) + (y - 1969) / 4 - (y - 1901) / 100 + (y - 1601) / 400
  }

  /** Days of year y before the first of month m; m == 12 gives the whole year.
      This is the table the abstract operation MonthFromTime of ECMA-262 is built on. */
  function DaysBeforeMonth(y: int, m: int): int
    requires 0 <= m <= 12
  {
    var common := [0, 31, 59, 90, 120, 151, 181, 212, 243, 273, 304, 334, 365][m];
    if m >= 2 && IsLeapYear(y) then common + 1 else common
  }

  /** The day number of a date: Day(t) of the time value of its midnight. */
  function DayNumber(d: CalendarDate): int
    requires 0 <= d.month < 12
  {
    DayFromYear(d.year) + DaysBeforeMonth(d.year, d.month) + d.day - 1
  }

  /** The month after (y, m). */
  function NextMonth(y: int, m: int): (r: (int, int))
    requires 0 <= m < 12
    ensures 0 <= r.1 < 12
  {
    if m == 11 then (y + 1, 0) else (y, m + 1)
  }

  /** The month before (y, m). */
  function PrevMonth(y: int, m: int): (r: (int, int))
    requires 0 <= m < 12
    ensures 0 <= r.1 < 12
  {
    if m == 0 then (y - 1, 11) else (y, m - 1)
  }

  lemma PrevNextInverse(y: int, m: int)
    requires 0 <= m < 12
    ensures NextMonth(PrevMonth(y, m).0, PrevMonth(y, m).1) == (y, m)
    ensures PrevMonth(NextMonth(y, m).0, NextMonth(y, m).1) == (y, m)
  {
  }

  /** One more year adds one to the count of multiples of 4 exactly when y is one. */
  lemma QuadrennialStep(y: int)
    ensures (y - 1968) / 4 == (y - 1969) / 4 + (if y % 4 == 0 then 1 else 0)
  {
  }

  lemma CenturyStep(y: int)
    ensures (y - 1900) / 100 == (y - 1901) / 100 + (if y % 100 == 0 then 1 else 0)
  {
  }

  lemma QuadricentennialStep(y: int)
    ensures (y - 1600) / 400 == (y - 1601) / 400 + (if y % 400 == 0 then 1 else 0)
  {
  }

  /** DayFromYear advances by 365 plus the leap-day corrections of year y. */
  lemma YearStep(y: int)
    ensures DayFromYear(y + 1) == DayFromYear(y) + 365 + (if y % 4 == 0 then 1 else 0)
                                  - (if y % 100 == 0 then 1 else 0) + (if y % 400 == 0 then 1 else 0)
  {
    QuadrennialStep(y);
    CenturyStep(y);
    QuadricentennialStep(y);
  }

  /** The three corrections add up to one leap day exactly in a leap year. */
  lemma LeapCorrection(y: int)
    ensures (if y % 4 == 0 then 1 else 0) - (if y % 100 == 0 then 1 else 0) + (if y % 400 == 0 then 1 else 0)
         == (if IsLeapYear(y) then 1 else 0)
  {
    if y % 400 == 0 {
      var k := y / 400;
      assert y == 100 * (4 * k) && y == 4 * (100 * k);
    } else if y % 100 == 0 {
      var k := y / 100;
      assert y == 4 * (25 * k);
    }
  }

  /** DayFromYear advances by the length of the year. */
  lemma YearLength(y: int)
    ensures DayFromYear(y + 1) == DayFromYear(y) + DaysInYear(y)
  {
    YearStep(y);
    LeapCorrection(y);
  }

  /** The first of the next month lies LastDay(y, m) days after the first of this one. */
  lemma NextMonthStart(y: int, m: int)
    requires 0 <= m < 12
    ensures DayNumber(CalendarDate(NextMonth(y, m).0, NextMonth(y, m).1, 1))
         == DayNumber(CalendarDate(y, m, 1)) + LastDay(y, m)
  {
    if m == 11 {
      YearLength(y);
    }
  }

  /** MakeDay(y, m, d) for any integers m and d (the abstract operation
      MakeDay of ECMA-262; `new Date(y, m, d)` applies FullYear(y) first, see
      JsDates.NewDate) carries an out-of-range month into the year and an out-of-range
      day into the neighbouring months; the result is the calendar day
      d - 1 days after the first of the normalised month. */
  function MakeDay(y: int, m: int, d: int): Day {
    Carry(y + m / 12, m % 12, d)
  }

  /** MakeDay lands d - 1 days after the first of month m mod 12 of year
      y + m / 12, whatever the month and day given. */
  lemma MakeDayNumber(y: int, m: int, d: int)
    ensures DayNumber(MakeDay(y, m, d)) == DayNumber(CalendarDate(y + m / 12, m % 12, 1)) + d - 1
  {
    CarryNumber(y + m / 12, m % 12, d);
  }

  /** The day d - 1 days after the first of month m of year y: a day before
      the first moves into the previous month, one past the end into the next. */
  function Carry(y: int, m: int, d: int): Day
    requires 0 <= m < 12
    decreases if d < 1 then 1 - d else 0, d
  {
    if d < 1 then
      var p := PrevMonth(y, m);
      Carry(p.0, p.1, d + LastDay(p.0, p.1))
    else if d > LastDay(y, m) then
      var n := NextMonth(y, m);
      Carry(n.0, n.1, d - LastDay(y, m))
    else
      CalendarDate(y, m, d)
  }

  /** Carry lands d - 1 days after the first of month m, for any integer d. */
  lemma {:induction false} CarryNumber(y: int, m: int, d: int)
    requires 0 <= m < 12
    ensures DayNumber(Carry(y, m, d)) == DayNumber(CalendarDate(y, m, 1)) + d - 1
    decreases if d < 1 then 1 - d else 0, d
  {
    if d < 1 {
      var p := PrevMonth(y, m);
      NextMonthStart(p.0, p.1);
      PrevNextInverse(y, m);
      CarryNumber(p.0, p.1, d + LastDay(p.0, p.1));
    } else if d > LastDay(y, m) {
      var n := NextMonth(y, m);
      NextMonthStart(y, m);
      CarryNumber(n.0, n.1, d - LastDay(y, m));
    }
  }

  /** A month index in range is its own remainder and carries no year. */
  lemma MonthInRange(m: int)
    requires 0 <= m < 12
    ensures m / 12 == 0 && m % 12 == m
  {
  }

  /** MakeDay leaves a date that exists unchanged. */
  lemma MakeDayInRange(y: int, m: int, d: int)
    requires 0 <= m < 12 && 1 <= d <= LastDay(y, m)
    ensures MakeDay(y, m, d) == CalendarDate(y, m, d)
  {
    MonthInRange(m);
    MakeDayUnique(y, m, d, CalendarDate(y, m, d));
  }

  /** MakeDay depends on the month only through the year and month it
      normalises to. */
  lemma MakeDayNormalises(y: int, m: int, d: int)
    ensures MakeDay(y, m, d) == MakeDay(y + m / 12, m % 12, d)
  {
    var y2, m2 := y + m / 12, m % 12;
    MonthInRange(m2);
    assert CalendarDate(y2 + m2 / 12, m2 % 12, 1) == CalendarDate(y2, m2, 1);
    MakeDayNumber(y2, m2, d);
    MakeDayUnique(y, m, d, MakeDay(y2, m2, d));
  }

  /** MakeDay on month m + 1 is MakeDay on the month after m. */
  lemma MakeDayNextMonth(y: int, m: int, d: int)
    requires 0 <= m < 12
    ensures MakeDay(y, m + 1, d) == MakeDay(NextMonth(y, m).0, NextMonth(y, m).1, d)
  {
    var n := NextMonth(y, m);
    if m == 11 {
      assert (m + 1) / 12 == 1 && (m + 1) % 12 == 0;
    } else {
      MonthInRange(m + 1);
    }
    MonthInRange(n.1);
    assert n.0 + n.1 / 12 == n.0 && n.1 % 12 == n.1;
  }

  /** MakeDay on month m - 1 is MakeDay on the month before m. */
  lemma MakeDayPrevMonth(y: int, m: int, d: int)
    requires 0 <= m < 12
    ensures MakeDay(y, m - 1, d) == MakeDay(PrevMonth(y, m).0, PrevMonth(y, m).1, d)
  {
    var p := PrevMonth(y, m);
    if m == 0 {
      assert (m - 1) / 12 == -1 && (m - 1) % 12 == 11;
    } else {
      MonthInRange(m - 1);
    }
    MonthInRange(p.1);
    assert p.0 + p.1 / 12 == p.0 && p.1 % 12 == p.1;
  }

  /** MakeDay on a day that exists in the normalised month. */
  lemma MakeDayKeepsDay(y: int, m: int, d: int)
    requires 1 <= d <= LastDay(y + m / 12, m % 12)
    ensures MakeDay(y, m, d) == CalendarDate(y + m / 12, m % 12, d)
  {
    var r := CalendarDate(y + m / 12, m % 12, d);
    MakeDayUnique(y, m, d, r);
  }

  /** MakeDay on a day past the end of month m, but not past the end of the
      month after it. */
  lemma MakeDayCarriesForward(y: int, m: int, d: int)
    requires 0 <= m < 12
    requires LastDay(y, m) < d <= LastDay(y, m) + LastDay(NextMonth(y, m).0, NextMonth(y, m).1)
    ensures MakeDay(y, m, d) == CalendarDate(NextMonth(y, m).0, NextMonth(y, m).1, d - LastDay(y, m))
  {
    var n := NextMonth(y, m);
    var r := CalendarDate(n.0, n.1, d - LastDay(y, m));
    NextMonthStart(y, m);
    MonthInRange(m);
    assert CalendarDate(y + m / 12, m % 12, 1) == CalendarDate(y, m, 1);
    MakeDayUnique(y, m, d, r);
  }

  /** Dates in chronological order: by year, then month, then day. */
  predicate Before(a: CalendarDate, b: CalendarDate) {
    a.year < b.year
    || (a.year == b.year && a.month < b.month)
    || (a.year == b.year && a.month == b.month && a.day < b.day)
  }

  lemma {:induction false} DaysBeforeMonthMonotone(y: int, m: int, m': int)
    requires 0 <= m <= m' <= 12
    ensures DaysBeforeMonth(y, m) <= DaysBeforeMonth(y, m')
    ensures m < m' ==> DaysBeforeMonth(y, m) + LastDay(y, m) <= DaysBeforeMonth(y, m')
    decreases m' - m
  {
    if m < m' {
      DaysBeforeMonthMonotone(y, m + 1, m');
    }
  }

  lemma {:induction false} DayFromYearMonotone(y: int, y': int)
    requires y <= y'
    ensures DayFromYear(y) + 365 * (y' - y) <= DayFromYear(y')
    decreases y' - y
  {
    if y < y' {
      YearLength(y);
      DayFromYearMonotone(y + 1, y');
    }
  }

  /** Every day of year y has a day number below that of 1 January of y + 1. */
  lemma DayNumberWithinYear(d: Day)
    ensures DayFromYear(d.year) <= DayNumber(d) < DayFromYear(d.year + 1)
  {
    DaysBeforeMonthMonotone(d.year, d.month, 12);
    YearLength(d.year);
  }

  /** Day numbers follow the calendar order, so no two days share one. */
  lemma DayNumberOrder(a: Day, b: Day)
    ensures Before(a, b) <==> DayNumber(a) < DayNumber(b)
    ensures a == b <==> DayNumber(a) == DayNumber(b)
  {
    if a.year < b.year {
      DayNumberWithinYear(a);
      DayNumberWithinYear(b);
      DayFromYearMonotone(a.year + 1, b.year);
    } else if b.year < a.year {
      DayNumberWithinYear(a);
      DayNumberWithinYear(b);
      DayFromYearMonotone(b.year + 1, a.year);
    } else if a.month < b.month {
      DaysBeforeMonthMonotone(a.year, a.month, b.month);
    } else if b.month < a.month {
      DaysBeforeMonthMonotone(a.year, b.month, a.month);
    }
  }

  /** MakeDay is determined by its defining equation: the only existing day
      with the required day number. */
  lemma MakeDayUnique(y: int, m: int, d: int, r: Day)
    requires DayNumber(r) == DayNumber(CalendarDate(y + m / 12, m % 12, 1)) + d - 1
    ensures r == MakeDay(y, m, d)
  {
    MakeDayNumber(y, m, d);
    DayNumberOrder(r, MakeDay(y, m, d));
  }

  /** The weekday, Sunday = 0 (the abstract operation WeekDay of ECMA-262):
      1 January 1970 was a Thursday. */
  function WeekDay(d: CalendarDate): (w: int)
    requires 0 <= d.month < 12
    ensures 0 <= w < 7
  {
    (DayNumber(d) + 4) % 7
  }

  /** Adding k to a number moves its remainder mod 7 by k. */
  lemma WeekShift(n: int, k: int)
    ensures (n + k) % 7 == (n % 7 + k) % 7
  {
    assert n + k == 7 * (n / 7) + (n % 7 + k);
  }

  /** 1900 years on from a year 0..99 the first of a month falls on another
      weekday: the two lie 693960 or 693961 days apart, 1 or 2 weeks' days off. */
  lemma CenturiesApartWeekDay(y: int, m: int)
    requires 0 <= y <= 99 && 0 <= m < 12
    ensures WeekDay(CalendarDate(1900 + y, m, 1)) != WeekDay(CalendarDate(y, m, 1))
  {
    assert (1900 + y - 1969) / 4 == (y - 1969) / 4 + 475;
    assert (1900 + y - 1901) / 100 == (y - 1901) / 100 + 19;
    assert (1900 + y - 1601) / 400 == (y - 1601) / 400 + (if y == 0 then 5 else 4);
    assert IsLeapYear(1900 + y) == (IsLeapYear(y) && y != 0);
    var n := DayNumber(CalendarDate(y, m, 1)) + 4;
    var k := DayNumber(CalendarDate(1900 + y, m, 1)) + 4 - n;
    assert k == 693960 || k == 693961;
    WeekShift(n, k);
    assert k == 7 * 99137 + (k - 693959);
    WeekShift(n % 7, k);
  }

  /** Day k + 1 of a month falls k weekdays after its first. */
  lemma WeekDayOfMonthDay(y: int, m: int, k: nat)
    requires 0 <= m < 12
    ensures WeekDay(CalendarDate(y, m, k + 1)) == (WeekDay(CalendarDate(y, m, 1)) + k) % 7
  {
    var n := DayNumber(CalendarDate(y, m, 1)) + 4;
    assert DayNumber(CalendarDate(y, m, k + 1)) + 4 == n + k;
    WeekShift(n, k);
  }
}
