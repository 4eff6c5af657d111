/** A JavaScript Date as the components see it through its local-time
    getters: a calendar day and the milliseconds elapsed since its midnight. */
module JsDates {
  import opened Gregorian

  const MsPerDay: int := 86400000

  type TimeInDay = t: int | 0 <= t < 86400000

  datatype JsDate = JsDate(civil: Day, msOfDay: TimeInDay)

  /** The year the Date constructor uses for a year argument y (the Date
      constructor of ECMA-262): a year from 0 to 99 stands for 1900 + y. */
  function FullYear(y: int): int {
    if 0 <= y <= 99 then 1900 + y else y
  }

  /** new Date(y, m, d): midnight of the day MakeDay carries the arguments to,
      in the year FullYear(y). */
  function NewDate(y: int, m: int, d: int): (r: JsDate)
    ensures r.msOfDay == 0
    ensures 0 <= m < 12 && 1 <= d <= LastDay(FullYear(y), m) ==> r.civil == CalendarDate(FullYear(y), m, d)
  {
    var yr := FullYear(y);
    // Both branches build the same value; the first only brings in
    // MakeDayInRange, the fact behind the second ensures clause.
    if 0 <= m < 12 && 1 <= d <= LastDay(yr, m) then
      MakeDayInRange(yr, m, d);
      JsDate(MakeDay(yr, m, d), 0)
    else
      JsDate(MakeDay(yr, m, d), 0)
  }

  /** A year argument from 0 to 99 builds the same Date as 1900 + y, and any
      other year argument is taken as it is. */
  lemma NewDateYear(y: int, m: int, d: int)
    ensures 0 <= y <= 99 ==> NewDate(y, m, d) == NewDate(1900 + y, m, d)
    ensures 0 <= m < 12 && !(0 <= y <= 99) && 1 <= d <= LastDay(y, m) ==> NewDate(y, m, d).civil == CalendarDate(y, m, d)
  {
  }

  function GetFullYear(t: JsDate): int { t.civil.year }

  function GetMonth(t: JsDate): int { t.civil.month }

  function GetDate(t: JsDate): int { t.civil.day }

  /** getDay: the weekday, Sunday = 0. */
  function GetDay(t: JsDate): int { WeekDay(t.civil) }

  /** getTime, with local time taken as the time value (no time-zone offset). */
  function GetTime(t: JsDate): int {
    DayNumber(t.civil) * MsPerDay + t.msOfDay
  }

  /** Two Dates have the same time value exactly when they are the same
      moment, and earlier days have smaller time values. */
  lemma GetTimeOrder(a: JsDate, b: JsDate)
    ensures GetTime(a) == GetTime(b) <==> a == b
    ensures Before(a.civil, b.civil) ==> GetTime(a) < GetTime(b)
  {
    DayNumberOrder(a.civil, b.civil);
    var da, db := DayNumber(a.civil), DayNumber(b.civil);
    if da < db {
      assert da * MsPerDay + MsPerDay <= db * MsPerDay;
    } else if db < da {
      assert db * MsPerDay + MsPerDay <= da * MsPerDay;
    }
  }

  /** date.setMonth(m) (Date.prototype.setMonth of ECMA-262): same year, day of the
      month and time of day, with MakeDay carrying whatever is out of range. */
  function SetMonth(t: JsDate, m: int): JsDate {
    JsDate(MakeDay(t.civil.year, m, t.civil.day), t.msOfDay)
  }

  /** setMonth keeps the time of day and lands day-of-month - 1 days after
      the first of month m mod 12 of the year moved by the months carried. */
  lemma SetMonthLands(t: JsDate, m: int)
    ensures SetMonth(t, m).msOfDay == t.msOfDay
    ensures DayNumber(SetMonth(t, m).civil) == DayNumber(CalendarDate(t.civil.year + m / 12, m % 12, 1)) + t.civil.day - 1
  {
    MakeDayNumber(t.civil.year, m, t.civil.day);
  }

}
