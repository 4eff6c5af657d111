/** The month grid (Calendar): the days of the shown month, the blank cells
    before the first, which day is today or selected, and the handlers that
    select a day or move to another month through the store. */
module MonthView {
  import opened Gregorian
  import opened JsDates
  import opened Types
  import opened Store
  import DayCell
  import Text

  /** The days getDaysInMonth lists for getFullYear() y and getMonth() m:
      midnight of each day of month m of the year new Date(y, ...) builds,
      from the first to the last. */
  function MonthDays(y: int, m: int): (days: seq<JsDate>)
    requires 0 <= m < 12
    ensures |days| == LastDay(FullYear(y), m)
    ensures forall i :: 0 <= i < |days| ==> days[i] == JsDate(CalendarDate(FullYear(y), m, i + 1), 0)
  {
    seq(LastDay(FullYear(y), m), i requires 0 <= i < LastDay(FullYear(y), m) => NewDate(y, m, i + 1))
  }

  /** new Date(y, m + 1, 0) is the last day of month m: day 0 of the next
      month carries back into this one. */
  lemma DayZeroOfNextMonth(y: int, m: int)
    requires 0 <= m < 12
    ensures NewDate(y, m + 1, 0).civil == CalendarDate(FullYear(y), m, LastDay(FullYear(y), m))
  {
    var yr := FullYear(y);
    var n := NextMonth(yr, m);
    assert (yr + (m + 1) / 12, (m + 1) % 12) == n;
    NextMonthStart(yr, m);
    MakeDayNumber(yr, m + 1, 0);
    DayNumberOrder(NewDate(y, m + 1, 0).civil, CalendarDate(yr, m, LastDay(yr, m)));
  }

  /** getDaysInMonth: counts the month's days with the day-0 trick and pushes
      new Date(year, month, day) for each. */
  method GetDaysInMonth(date: JsDate) returns (days: seq<JsDate>)
    ensures days == MonthDays(GetFullYear(date), GetMonth(date))
  {
    var year := GetFullYear(date);
    var month := GetMonth(date);
    var daysInMonth := GetDate(NewDate(year, month + 1, 0));
    DayZeroOfNextMonth(year, month);
    days := [];
    var day := 1;
    ghost var all := MonthDays(year, month);
    while day <= daysInMonth
      invariant 1 <= day <= daysInMonth + 1
      invariant days == all[..day - 1]
    {
      assert all[..day] == all[..day - 1] + [all[day - 1]];
      days := days + [NewDate(year, month, day)];
      day := day + 1;
    }
    assert all[..daysInMonth] == all;
  }

  /** The listed days all lie in the month, start on its first and strictly
      increase in time. */
  lemma MonthDaysOrdered(y: int, m: int)
    requires 0 <= m < 12
    ensures MonthDays(y, m)[0].civil == CalendarDate(FullYear(y), m, 1)
    ensures forall i :: 0 <= i < |MonthDays(y, m)| ==>
      GetFullYear(MonthDays(y, m)[i]) == FullYear(y) && GetMonth(MonthDays(y, m)[i]) == m
    ensures forall i, j :: 0 <= i < j < |MonthDays(y, m)| ==>
      GetTime(MonthDays(y, m)[i]) < GetTime(MonthDays(y, m)[j])
  {
    var days := MonthDays(y, m);
    forall i, j | 0 <= i < j < |days|
      ensures GetTime(days[i]) < GetTime(days[j])
    {
      GetTimeOrder(days[i], days[j]);
    }
  }

  /** getFirstDayOfMonth: the weekday (Sunday = 0) of the month's first day. */
  function GetFirstDayOfMonth(date: JsDate): (w: int)
    ensures 0 <= w < 7
    ensures w == WeekDay(CalendarDate(FullYear(date.civil.year), date.civil.month, 1))
  {
    GetDay(NewDate(GetFullYear(date), GetMonth(date), 1))
  }

  /** isToday, with the current moment passed in: same calendar day,
      whatever the time of day. */
  function IsToday(date: JsDate, today: JsDate): (r: bool)
    ensures r <==> date.civil == today.civil
  {
    GetDate(date) == GetDate(today) && GetMonth(date) == GetMonth(today)
      && GetFullYear(date) == GetFullYear(today)
  }

  /** isSelected: false with nothing selected, otherwise the same calendar day
      as the selection, whatever the time of day. */
  function IsSelected(date: JsDate, selectedDate: Option<JsDate>): (r: bool)
    ensures selectedDate.None? ==> !r
    ensures r <==> selectedDate.Some? && date.civil == selectedDate.value.civil
  {
    if selectedDate.None? then false
    else
      var s := selectedDate.value;
      GetDate(date) == GetDate(s) && GetMonth(date) == GetMonth(s) && GetFullYear(date) == GetFullYear(s)
  }

  /** A cell of the calendar grid: an empty cell, or a CalendarDay. */
  datatype GridCell = EmptyDay | DayAt(cell: DayCell.Cell)

  /** The cells the calendar renders for the store's state: firstDayOfWeek
      empty cells, then one CalendarDay per day of the month. */
  function Grid(currentMonth: JsDate, selectedDate: Option<JsDate>, today: JsDate): seq<GridCell> {
    var days := MonthDays(GetFullYear(currentMonth), GetMonth(currentMonth));
    seq(GetFirstDayOfMonth(currentMonth), _ => EmptyDay)
      + seq(|days|, i requires 0 <= i < |days| =>
              DayAt(DayCell.Render(days[i], IsToday(days[i], today), IsSelected(days[i], selectedDate))))
  }

  /** The cell after the empty ones at offset k is the CalendarDay of day k + 1. */
  lemma GridCellAt(currentMonth: JsDate, selectedDate: Option<JsDate>, today: JsDate, k: nat)
    requires k < LastDay(FullYear(currentMonth.civil.year), currentMonth.civil.month)
    ensures var d := MonthDays(currentMonth.civil.year, currentMonth.civil.month)[k];
      var g := Grid(currentMonth, selectedDate, today);
      && GetFirstDayOfMonth(currentMonth) + k < |g|
      && g[GetFirstDayOfMonth(currentMonth) + k] == DayAt(DayCell.Render(d, IsToday(d, today), IsSelected(d, selectedDate)))
  {
  }

  /** The cell at position i past the empty ones reports the midnight of day
      i - firstDay + 1, shows its number and sits in the column of its weekday. */
  lemma GridDayAt(currentMonth: JsDate, selectedDate: Option<JsDate>, today: JsDate, i: int)
    requires var first := GetFirstDayOfMonth(currentMonth);
      first <= i < first + LastDay(FullYear(currentMonth.civil.year), currentMonth.civil.month)
    ensures var y, m := FullYear(currentMonth.civil.year), currentMonth.civil.month;
      var first := GetFirstDayOfMonth(currentMonth);
      var g := Grid(currentMonth, selectedDate, today);
      && i < |g|
      && g[i].DayAt?
      && g[i].cell.onClickArgument == JsDate(CalendarDate(y, m, i - first + 1), 0)
      && Text.ParseDecimal(g[i].cell.dayText) == i - first + 1
      && i % 7 == WeekDay(CalendarDate(y, m, i - first + 1))
  {
    var y, m := FullYear(currentMonth.civil.year), currentMonth.civil.month;
    var first := GetFirstDayOfMonth(currentMonth);
    var k := i - first;
    var d := MonthDays(currentMonth.civil.year, m)[k];
    assert d == JsDate(CalendarDate(y, m, k + 1), 0);
    GridCellAt(currentMonth, selectedDate, today, k);
    var c := DayCell.Render(d, IsToday(d, today), IsSelected(d, selectedDate));
    assert Grid(currentMonth, selectedDate, today)[i] == DayAt(c);
    assert c.onClickArgument == d && Text.ParseDecimal(c.dayText) == k + 1;
    WeekDayOfMonthDay(y, m, k);
    assert WeekDay(CalendarDate(y, m, k + 1)) == (first + k) % 7;
  }

  /** The grid holds firstDay empty cells and then one cell per day. */
  lemma GridPrefix(currentMonth: JsDate, selectedDate: Option<JsDate>, today: JsDate)
    ensures var first := GetFirstDayOfMonth(currentMonth);
      var g := Grid(currentMonth, selectedDate, today);
      && |g| == first + LastDay(FullYear(currentMonth.civil.year), currentMonth.civil.month)
      && forall i :: 0 <= i < first ==> g[i] == EmptyDay
  {
  }

  /** The grid has firstDay + lastDay cells: the empty ones first, then day
      k + 1 at position i = firstDay + k, which is the column (Sunday first) of its
      weekday, labelled with its day of the month and reporting its own
      midnight when clicked. */
  lemma GridLayout(currentMonth: JsDate, selectedDate: Option<JsDate>, today: JsDate)
    ensures var y, m := FullYear(currentMonth.civil.year), currentMonth.civil.month;
      var first := GetFirstDayOfMonth(currentMonth);
      var g := Grid(currentMonth, selectedDate, today);
      && |g| == first + LastDay(y, m)
      && (forall i :: 0 <= i < first ==> g[i] == EmptyDay)
      && (forall i :: first <= i < |g| ==>
            && g[i].DayAt?
            && g[i].cell.onClickArgument == JsDate(CalendarDate(y, m, i - first + 1), 0)
            && Text.ParseDecimal(g[i].cell.dayText) == i - first + 1
            && i % 7 == WeekDay(CalendarDate(y, m, i - first + 1)))
  {
    var y, m := FullYear(currentMonth.civil.year), currentMonth.civil.month;
    var first := GetFirstDayOfMonth(currentMonth);
    var g := Grid(currentMonth, selectedDate, today);
    GridPrefix(currentMonth, selectedDate, today);
    forall i | first <= i < |g|
      ensures g[i].DayAt?
      ensures g[i].cell.onClickArgument == JsDate(CalendarDate(y, m, i - first + 1), 0)
      ensures Text.ParseDecimal(g[i].cell.dayText) == i - first + 1
      ensures i % 7 == WeekDay(CalendarDate(y, m, i - first + 1))
    {
      GridDayAt(currentMonth, selectedDate, today, i);
    }
  }

  /** The cell of day k + 1 carries `today` exactly when that day is today's
      calendar day and `selected` exactly when it is the selected one. */
  lemma GridHighlights(currentMonth: JsDate, selectedDate: Option<JsDate>, today: JsDate, k: nat)
    requires k < LastDay(FullYear(currentMonth.civil.year), currentMonth.civil.month)
    ensures var y, m := FullYear(currentMonth.civil.year), currentMonth.civil.month;
      var g := Grid(currentMonth, selectedDate, today);
      var c := g[GetFirstDayOfMonth(currentMonth) + k].cell;
      && ("today" in DayCell.Tokens(c.className) <==> today.civil == CalendarDate(y, m, k + 1))
      && ("selected" in DayCell.Tokens(c.className) <==>
            selectedDate.Some? && selectedDate.value.civil == CalendarDate(y, m, k + 1))
  {
    var y, m := FullYear(currentMonth.civil.year), currentMonth.civil.month;
    var d := MonthDays(currentMonth.civil.year, m)[k];
    assert d.civil == CalendarDate(y, m, k + 1);
    GridCellAt(currentMonth, selectedDate, today, k);
    var isToday, isSelected := IsToday(d, today), IsSelected(d, selectedDate);
    assert isToday <==> today.civil == CalendarDate(y, m, k + 1);
    assert isSelected <==> selectedDate.Some? && selectedDate.value.civil == CalendarDate(y, m, k + 1);
    assert DayCell.Render(d, isToday, isSelected).className == DayCell.ClassNames(isToday, isSelected);
    DayCell.ClassTokenMembership(isToday, isSelected);
  }

  /** As written, a shown moment in February of year 0, a leap year, gets
      the grid of February 1900: 28 days, the first of them 1 February 1900. */
  lemma GridOfYearZeroShows1900(selectedDate: Option<JsDate>, today: JsDate)
    ensures var shown := JsDate(CalendarDate(0, 1, 1), 0);
      var first := GetFirstDayOfMonth(shown);
      var g := Grid(shown, selectedDate, today);
      && LastDay(GetFullYear(shown), GetMonth(shown)) == 29
      && |g| == first + 28
      && g[first].DayAt?
      && g[first].cell.onClickArgument == JsDate(CalendarDate(1900, 1, 1), 0)
  {
    var shown := JsDate(CalendarDate(0, 1, 1), 0);
    assert LastDay(FullYear(0), 1) == 28;
    GridPrefix(shown, selectedDate, today);
    GridDayAt(shown, selectedDate, today, GetFirstDayOfMonth(shown));
  }

  /** The days the grid evidently means to list for getFullYear() y and
      getMonth() m: those of month m of year y itself, for every year. */
  function IntendedMonthDays(y: int, m: int): (days: seq<JsDate>)
    requires 0 <= m < 12
    ensures |days| == LastDay(y, m)
    ensures forall i :: 0 <= i < |days| ==>
      GetFullYear(days[i]) == y && GetMonth(days[i]) == m && GetDate(days[i]) == i + 1 && days[i].msOfDay == 0
  {
    seq(LastDay(y, m), i requires 0 <= i < LastDay(y, m) => JsDate(CalendarDate(y, m, i + 1), 0))
  }

  /** The intended days are the listed ones exactly outside the years 0 to 99. */
  lemma IntendedMonthDaysAgree(y: int, m: int)
    requires 0 <= m < 12
    ensures IntendedMonthDays(y, m) == MonthDays(y, m) <==> !(0 <= y <= 99)
  {
    var intended, listed := IntendedMonthDays(y, m), MonthDays(y, m);
    if 0 <= y <= 99 {
      assert GetFullYear(intended[0]) != GetFullYear(listed[0]);
    } else {
      assert |intended| == |listed|;
      forall i | 0 <= i < |intended|
        ensures intended[i] == listed[i]
      {
      }
    }
  }

  /** The weekday the grid evidently means to start on: the column (Sunday
      first) from which every day of the shown month of the shown year itself
      falls under its own weekday. */
  function IntendedFirstDay(date: JsDate): (w: int)
    ensures 0 <= w < 7
    ensures forall d :: 1 <= d <= LastDay(date.civil.year, date.civil.month) ==>
      WeekDay(CalendarDate(date.civil.year, date.civil.month, d)) == (w + d - 1) % 7
  {
    var y, m := date.civil.year, date.civil.month;
    forall d | 1 <= d <= LastDay(y, m)
      ensures WeekDay(CalendarDate(y, m, d)) == (WeekDay(CalendarDate(y, m, 1)) + d - 1) % 7
    {
      WeekDayOfMonthDay(y, m, d - 1);
    }
    WeekDay(CalendarDate(y, m, 1))
  }

  /** The intended first weekday is getFirstDayOfMonth's exactly outside the
      years 0 to 99: inside them the grid starts on the weekday 1900 years on. */
  lemma IntendedFirstDayAgrees(date: JsDate)
    ensures IntendedFirstDay(date) == GetFirstDayOfMonth(date) <==> !(0 <= date.civil.year <= 99)
  {
    if 0 <= date.civil.year <= 99 {
      CenturiesApartWeekDay(date.civil.year, date.civil.month);
    }
  }

  /** After handleDayClick(d) for a day d of the rendered month, d is the only
      day of that month for which isSelected holds. */
  lemma ClickedDayIsOnlySelection(y: int, m: int, k: nat)
    requires 0 <= m < 12 && k < LastDay(FullYear(y), m)
    ensures forall i :: 0 <= i < |MonthDays(y, m)| ==>
      (IsSelected(MonthDays(y, m)[i], Some(MonthDays(y, m)[k])) <==> i == k)
  {
  }

  /** handleDayClick: stores the clicked date as the selection. */
  method HandleDayClick(store: CalendarStore, date: JsDate)
    modifies store`selectedDate
    ensures store.selectedDate == Some(date)
    ensures store.currentMonth == old(store.currentMonth) && store.events == old(store.events)
  {
    store.SetSelectedDate(Some(date));
  }

  /** The month handlePrevMonth shows next: a copy of the shown moment with
      setMonth(getMonth() - 1). */
  function MonthBefore(current: JsDate): JsDate {
    SetMonth(current, GetMonth(current) - 1)
  }

  /** The month handleNextMonth shows next: a copy with setMonth(getMonth() + 1). */
  function MonthAfter(current: JsDate): JsDate {
    SetMonth(current, GetMonth(current) + 1)
  }

  method HandlePrevMonth(store: CalendarStore)
    modifies store`currentMonth
    ensures store.currentMonth == MonthBefore(old(store.currentMonth))
    ensures store.selectedDate == old(store.selectedDate) && store.events == old(store.events)
  {
    var prevMonth := SetMonth(store.currentMonth, GetMonth(store.currentMonth) - 1);
    store.SetCurrentMonth(prevMonth);
  }

  method HandleNextMonth(store: CalendarStore)
    modifies store`currentMonth
    ensures store.currentMonth == MonthAfter(old(store.currentMonth))
    ensures store.selectedDate == old(store.selectedDate) && store.events == old(store.events)
  {
    var nextMonth := SetMonth(store.currentMonth, GetMonth(store.currentMonth) + 1);
    store.SetCurrentMonth(nextMonth);
  }

  /** setMonth's month argument one below or above the range lands in the
      neighbouring year. */
  lemma MonthArgumentCarry(y: int, m: int)
    requires 0 <= m < 12
    ensures (y + (m + 1) / 12, (m + 1) % 12) == NextMonth(y, m)
    ensures (y + (m - 1) / 12, (m - 1) % 12) == PrevMonth(y, m)
  {
  }

  /** setMonth(month + 1) is MakeDay on the next month. */
  lemma MonthAfterIs(t: JsDate)
    ensures var n := NextMonth(t.civil.year, t.civil.month);
      MonthAfter(t) == JsDate(MakeDay(n.0, n.1, t.civil.day), t.msOfDay)
  {
    MakeDayNextMonth(t.civil.year, t.civil.month, t.civil.day);
  }

  /** setMonth(month - 1) is MakeDay on the previous month. */
  lemma MonthBeforeIs(t: JsDate)
    ensures var p := PrevMonth(t.civil.year, t.civil.month);
      MonthBefore(t) == JsDate(MakeDay(p.0, p.1, t.civil.day), t.msOfDay)
  {
    MakeDayPrevMonth(t.civil.year, t.civil.month, t.civil.day);
  }

  /** Moving forward from a day that exists in the next month keeps the day
      and the time of day, rolling December over into January. */
  lemma MonthAfterKeepsDay(t: JsDate)
    requires t.civil.day <= LastDay(NextMonth(t.civil.year, t.civil.month).0, NextMonth(t.civil.year, t.civil.month).1)
    ensures var n := NextMonth(t.civil.year, t.civil.month);
      MonthAfter(t) == JsDate(CalendarDate(n.0, n.1, t.civil.day), t.msOfDay)
  {
    var n := NextMonth(t.civil.year, t.civil.month);
    MonthAfterIs(t);
    MakeDayInRange(n.0, n.1, t.civil.day);
  }

  /** Moving back to a month that has the day keeps the day and the time of
      day, rolling January back into December. */
  lemma MonthBeforeKeepsDay(t: JsDate)
    requires t.civil.day <= LastDay(PrevMonth(t.civil.year, t.civil.month).0, PrevMonth(t.civil.year, t.civil.month).1)
    ensures var p := PrevMonth(t.civil.year, t.civil.month);
      MonthBefore(t) == JsDate(CalendarDate(p.0, p.1, t.civil.day), t.msOfDay)
  {
    var p := PrevMonth(t.civil.year, t.civil.month);
    MonthBeforeIs(t);
    MakeDayInRange(p.0, p.1, t.civil.day);
  }

  /** Every month has 28 days, so up to the 28th both moves keep the day. */
  lemma MonthMovesUpTo28th(t: JsDate)
    requires t.civil.day <= 28
    ensures var n := NextMonth(t.civil.year, t.civil.month);
      MonthAfter(t) == JsDate(CalendarDate(n.0, n.1, t.civil.day), t.msOfDay)
    ensures var p := PrevMonth(t.civil.year, t.civil.month);
      MonthBefore(t) == JsDate(CalendarDate(p.0, p.1, t.civil.day), t.msOfDay)
    ensures MonthAfter(MonthBefore(t)) == t && MonthBefore(MonthAfter(t)) == t
  {
    MonthAfterKeepsDay(t);
    MonthBeforeKeepsDay(t);
    PrevNextInverse(t.civil.year, t.civil.month);
    MonthAfterKeepsDay(MonthBefore(t));
    MonthBeforeKeepsDay(MonthAfter(t));
  }

  /** Moving forward from a day the next month lacks carries the surplus into
      the month after it: from 31 January, February is skipped. */
  lemma MonthAfterOverflows(t: JsDate)
    requires var n := NextMonth(t.civil.year, t.civil.month); t.civil.day > LastDay(n.0, n.1)
    ensures var n := NextMonth(t.civil.year, t.civil.month);
      var nn := NextMonth(n.0, n.1);
      MonthAfter(t) == JsDate(CalendarDate(nn.0, nn.1, t.civil.day - LastDay(n.0, n.1)), t.msOfDay)
  {
    var n := NextMonth(t.civil.year, t.civil.month);
    MonthAfterIs(t);
    MakeDayCarriesForward(n.0, n.1, t.civil.day);
  }

  /** Moving back from a day the previous month lacks carries the surplus
      into the month one started from: the shown month does not change. */
  lemma MonthBeforeOverflows(t: JsDate)
    requires var p := PrevMonth(t.civil.year, t.civil.month); t.civil.day > LastDay(p.0, p.1)
    ensures var p := PrevMonth(t.civil.year, t.civil.month);
      MonthBefore(t) == JsDate(CalendarDate(t.civil.year, t.civil.month, t.civil.day - LastDay(p.0, p.1)), t.msOfDay)
  {
    var p := PrevMonth(t.civil.year, t.civil.month);
    MonthBeforeIs(t);
    PrevNextInverse(t.civil.year, t.civil.month);
    MakeDayCarriesForward(p.0, p.1, t.civil.day);
  }

  /** As written, Previous on 31 March 2023 shows March again (3 March), and
      Next on 31 January 2023 skips February (3 March). */
  lemma MonthMovesMissTheirMonth(time: TimeInDay)
    ensures MonthBefore(JsDate(CalendarDate(2023, 2, 31), time)).civil == CalendarDate(2023, 2, 3)
    ensures MonthAfter(JsDate(CalendarDate(2023, 0, 31), time)).civil == CalendarDate(2023, 2, 3)
  {
    MonthBeforeOverflows(JsDate(CalendarDate(2023, 2, 31), time));
    MonthAfterOverflows(JsDate(CalendarDate(2023, 0, 31), time));
  }

  /** The month move the buttons evidently intend: the neighbouring month,
      with the day of the month cut back to that month's last day when it has
      fewer days. */
  function AdjacentMonth(current: JsDate, forward: bool): (r: JsDate)
    ensures var target := if forward then NextMonth(current.civil.year, current.civil.month)
                          else PrevMonth(current.civil.year, current.civil.month);
      && r.civil.year == target.0 && r.civil.month == target.1
      && r.civil.day <= current.civil.day
      && (current.civil.day > LastDay(target.0, target.1) ==> r.civil.day == LastDay(target.0, target.1))
      && r.msOfDay == current.msOfDay
  {
    var target := if forward then NextMonth(current.civil.year, current.civil.month)
                  else PrevMonth(current.civil.year, current.civil.month);
    var last := LastDay(target.0, target.1);
    JsDate(CalendarDate(target.0, target.1, if current.civil.day <= last then current.civil.day else last), current.msOfDay)
  }

  /** The intended move agrees with setMonth whenever the day exists in the
      neighbouring month, and so always up to the 28th. */
  lemma AdjacentMonthAgreesWhenDayExists(current: JsDate)
    ensures var n := NextMonth(current.civil.year, current.civil.month);
      current.civil.day <= LastDay(n.0, n.1) ==> AdjacentMonth(current, true) == MonthAfter(current)
    ensures var p := PrevMonth(current.civil.year, current.civil.month);
      current.civil.day <= LastDay(p.0, p.1) ==> AdjacentMonth(current, false) == MonthBefore(current)
  {
    var n := NextMonth(current.civil.year, current.civil.month);
    var p := PrevMonth(current.civil.year, current.civil.month);
    if current.civil.day <= LastDay(n.0, n.1) {
      MonthAfterKeepsDay(current);
    }
    if current.civil.day <= LastDay(p.0, p.1) {
      MonthBeforeKeepsDay(current);
    }
  }
}
