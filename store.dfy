/** The calendar store shared through the React context: the month shown,
    the selected day and the list of events. */
module Store {
  import opened JsDates
  import opened Types

  /** The state of a CalendarProvider. */
  class CalendarStore {
    var currentMonth: JsDate
    var selectedDate: Option<JsDate>
    var events: seq<CalendarEvent>

    /** A provider starts on the current moment, supplied by the caller,
        with nothing selected and no events. */
    constructor (now: JsDate)
      ensures currentMonth == now
      ensures selectedDate == None
      ensures events == []
    {
      currentMonth := now;
      selectedDate := None;
      events := [];
    }

    method SetCurrentMonth(month: JsDate)
      modifies this`currentMonth
      ensures currentMonth == month
      ensures selectedDate == old(selectedDate) && events == old(events)
    {
      currentMonth := month;
    }

    method SetSelectedDate(date: Option<JsDate>)
      modifies this`selectedDate
      ensures selectedDate == date
      ensures currentMonth == old(currentMonth) && events == old(events)
    {
      selectedDate := date;
    }

    /** Appends the event after every event already stored. */
    method AddEvent(event: CalendarEvent)
      modifies this`events
      ensures events == old(events) + [event]
      ensures |events| == |old(events)| + 1 && events[|events| - 1] == event
      ensures events[..|old(events)|] == old(events)
      ensures currentMonth == old(currentMonth) && selectedDate == old(selectedDate)
    {
      events := events + [event];
    }
  }

  const OutsideProvider := "useCalendar must be used within a CalendarProvider"

  /** useCalendar: the provider's store, or the error it throws when no
      provider encloses the caller. */
  function UseCalendar(context: Option<CalendarStore>): (r: Result<CalendarStore, string>)
    ensures r.Failure? <==> context.None?
    ensures r.Failure? ==> r.error == OutsideProvider
    ensures r.Success? ==> r.value == context.value
  {
    if context.None? then Failure(OutsideProvider) else Success(context.value)
  }
}
