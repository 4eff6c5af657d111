/** The records the components exchange. */
module Types {
  import opened JsDates

  datatype Option<+T> = None | Some(value: T) {
    /** `x ?? fallback`, `x || fallback` for an object-valued x. */
    function GetOr(fallback: T): T {
      if Some? then value else fallback
    }
  }

  datatype Result<+R, +E> = Success(value: R) | Failure(error: E)

  /** A calendar event: the declared fields id, title, date and description,
      and the optional fields the components read, startTime, endTime and endDate. */
  datatype CalendarEvent = CalendarEvent(
    id: string,
    title: string,
    date: JsDate,
    description: Option<string>,
    startTime: Option<string>,
    endTime: Option<string>,
    endDate: Option<JsDate>)
}
