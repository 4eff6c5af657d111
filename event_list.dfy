/** The event list (EventList): which selection its header describes, how
    each event's time line and multi-day badge are decided, the count line,
    and nothing at all for an empty list. */
module EventListView {
  import opened Text
  import opened JsDates
  import opened Types

  /** What the header line describes; the locale formatting of the dates
      is left to the formatter the caller supplies. */
  datatype Heading = RangeHeading(start: JsDate, end: JsDate) | DayHeading(date: JsDate) | NoHeading

  /** getDateRangeDisplay, before formatting. */
  function DateRangeDisplay(selectedDate: Option<JsDate>, selectedStartDate: Option<JsDate>,
                            selectedEndDate: Option<JsDate>): Heading
  {
    if selectedStartDate.Some? && selectedEndDate.Some? then
      RangeHeading(selectedStartDate.value, selectedEndDate.value)
    else if selectedDate.Some? then DayHeading(selectedDate.value)
    else if selectedStartDate.Some? then DayHeading(selectedStartDate.value)
    else NoHeading
  }

  /** The header shows a range exactly when both ends are selected; otherwise
      the selected date wins over a lone start; a lone end is ignored; and
      with none of the three there is no header. */
  lemma HeadingPriority(selectedDate: Option<JsDate>, selectedStartDate: Option<JsDate>,
                        selectedEndDate: Option<JsDate>)
    ensures var h := DateRangeDisplay(selectedDate, selectedStartDate, selectedEndDate);
      && (h.RangeHeading? <==> selectedStartDate.Some? && selectedEndDate.Some?)
      && (h.RangeHeading? ==> h.start == selectedStartDate.value && h.end == selectedEndDate.value)
      && (h.DayHeading? <==> !h.RangeHeading? && (selectedDate.Some? || selectedStartDate.Some?))
      && (h.DayHeading? && selectedDate.Some? ==> h.date == selectedDate.value)
      && (h.DayHeading? && selectedDate.None? ==> h.date == selectedStartDate.value)
      && (h.NoHeading? <==> selectedDate.None? && selectedStartDate.None?)
  {
  }

  /** The header text, given the two locale formats: long for one day, short
      for the ends of a range. */
  function HeadingText(h: Heading, formatLong: JsDate -> string, formatShort: JsDate -> string): (r: string)
    ensures h.NoHeading? ==> r == ""
    ensures h.DayHeading? ==> r == formatLong(h.date)
    ensures h.RangeHeading? ==>
      var first := formatShort(h.start);
      |r| == |first| + 3 + |formatShort(h.end)|
      && r[..|first|] == first && r[|first|..|first| + 3] == " - " && r[|first| + 3..] == formatShort(h.end)
  {
    match h
    case RangeHeading(s, e) =>
      var r := formatShort(s) + " - " + formatShort(e);
      assert r[..|formatShort(s)|] == formatShort(s);
      assert r[|formatShort(s)|..|formatShort(s)| + 3] == " - ";
      assert r[|formatShort(s)| + 3..] == formatShort(e);
      r
    case DayHeading(d) => formatLong(d)
    case NoHeading => ""
  }

  /** formatTime: an absent or empty time shows as nothing, any other as itself. */
  function FormatTime(time: Option<string>): (r: string)
    ensures r == "" <==> time.None? || time.value == ""
    ensures r != "" ==> time == Some(r)
  {
    if time.None? || time.value == "" then "" else time.value
  }

  /** `event.endTime && event.endTime !== event.startTime`. */
  predicate ShowsEndTime(e: CalendarEvent) {
    e.endTime.Some? && e.endTime.value != "" && e.endTime != e.startTime
  }

  /** The time line of an event: its start, then ` - ` and its end when shown. */
  function TimeLine(e: CalendarEvent): string {
    FormatTime(e.startTime) + (if ShowsEndTime(e) then " - " + FormatTime(e.endTime) else "")
  }

  /** The ` - end` part appears exactly when the end time is set, non-empty and
      not the start time; a missing start shows as nothing before it. */
  lemma TimeLineShape(e: CalendarEvent)
    ensures ShowsEndTime(e) <==> e.endTime.Some? && e.endTime.value != ""
                                 && (e.startTime.None? || e.startTime.value != e.endTime.value)
    ensures ShowsEndTime(e) ==> TimeLine(e) == FormatTime(e.startTime) + " - " + e.endTime.value
    ensures !ShowsEndTime(e) ==> TimeLine(e) == FormatTime(e.startTime)
  {
  }

  /** `event.endDate && event.endDate.getTime() !== event.date.getTime()`. */
  predicate IsMultiDay(e: CalendarEvent) {
    e.endDate.Some? && GetTime(e.endDate.value) != GetTime(e.date)
  }

  /** The badge shows exactly when an end date is present and is another
      moment than the start; for dates at local midnight, as the grid builds
      them, that is another calendar day. */
  lemma MultiDayBadge(e: CalendarEvent)
    ensures IsMultiDay(e) <==> e.endDate.Some? && e.endDate.value != e.date
    ensures e.endDate.Some? && e.endDate.value.msOfDay == 0 && e.date.msOfDay == 0 ==>
      (IsMultiDay(e) <==> e.endDate.value.civil != e.date.civil)
  {
    if e.endDate.Some? {
      GetTimeOrder(e.endDate.value, e.date);
    }
  }

  /** `${events.length} ${events.length === 1 ? 'event' : 'events'}`. */
  function CountLabel(n: nat): string {
    DecimalString(n) + " " + (if n == 1 then "event" else "events")
  }

  /** The count line starts with the number of events, read back exactly, and
      ends in `s` unless there is exactly one. */
  lemma CountLabelReadsBack(n: nat)
    ensures var digits := DigitPrefix(CountLabel(n));
      |digits| > 0 && forall i :: 0 <= i < |digits| ==> IsDigit(digits[i])
    ensures ParseDecimal(DigitPrefix(CountLabel(n))) == n
    ensures CountLabel(n)[..|DecimalString(n)|] == DecimalString(n)
    ensures CountLabel(n)[|DecimalString(n)|..] == if n == 1 then " event" else " events"
    ensures CountLabel(n)[|CountLabel(n)| - 1] == 's' <==> n != 1
  {
    var noun := if n == 1 then "event" else "events";
    assert CountLabel(n) == DecimalString(n) + (" " + noun);
    DigitPrefixOf(DecimalString(n), " " + noun);
    DecimalRoundTrip(n);
  }

  /** One row of the list; a click on it reports the event. */
  datatype Row = Row(timeLine: string, title: string, description: Option<string>,
                     multiDayUntil: Option<JsDate>, onClickArgument: CalendarEvent)

  function RenderRow(e: CalendarEvent): Row {
    Row(TimeLine(e), e.title,
        if e.description.Some? && e.description.value != "" then e.description else None,
        if IsMultiDay(e) then e.endDate else None,
        e)
  }

  datatype ListView = ListView(heading: Heading, rows: seq<Row>, count: string)

  /** The whole list: nothing for no events, otherwise one row per event in
      the given order under the header, and the count line. */
  function Render(events: seq<CalendarEvent>, selectedDate: Option<JsDate>,
                  selectedStartDate: Option<JsDate>, selectedEndDate: Option<JsDate>): (v: Option<ListView>)
    ensures v.None? <==> events == []
    ensures v.Some? ==>
      && |v.value.rows| == |events|
      && (forall i :: 0 <= i < |events| ==> v.value.rows[i].onClickArgument == events[i])
      && v.value.heading == DateRangeDisplay(selectedDate, selectedStartDate, selectedEndDate)
  {
    if |events| == 0 then None
    else Some(ListView(DateRangeDisplay(selectedDate, selectedStartDate, selectedEndDate),
                       seq(|events|, i requires 0 <= i < |events| => RenderRow(events[i])),
                       CountLabel(|events|)))
  }

  /** Each row shows its event's time line and title, its description only when
      non-empty, and the end date only for a multi-day event; the count line
      counts the events. */
  lemma RenderRows(events: seq<CalendarEvent>, selectedDate: Option<JsDate>,
                   selectedStartDate: Option<JsDate>, selectedEndDate: Option<JsDate>)
    requires events != []
    ensures var v := Render(events, selectedDate, selectedStartDate, selectedEndDate).value;
      && ParseDecimal(DigitPrefix(v.count)) == |events|
      && (forall i :: 0 <= i < |events| ==>
            && v.rows[i].timeLine == TimeLine(events[i])
            && v.rows[i].title == events[i].title
            && (v.rows[i].description.Some? <==> events[i].description.Some? && events[i].description.value != "")
            && (v.rows[i].multiDayUntil.Some? <==> IsMultiDay(events[i]))
            && (v.rows[i].multiDayUntil.Some? ==> v.rows[i].multiDayUntil == events[i].endDate))
  {
    CountLabelReadsBack(|events|);
  }
}
