/** The event form (EventForm): four fields of state, the time handlers that
    keep the end time after the start time, the submit handler that sends the
    form to exactly one of two callbacks, and the effect that fills or resets
    the fields when the selection changes. */
module Form {
  import opened Text
  import opened JsDates
  import opened Types

  // ----- HH:MM times -----

  /** The shape a time input reports: two digits, a colon, two digits. */
  predicate IsHHMM(s: string) {
    |s| == 5 && IsDigit(s[0]) && IsDigit(s[1]) && s[2] == ':' && IsDigit(s[3]) && IsDigit(s[4])
  }

  /** Number(s.split(':')[0]). */
  function Hours(s: string): nat
    requires IsHHMM(s)
  {
    10 * DigitValue(s[0]) + DigitValue(s[1])
  }

  /** Number(s.split(':')[1]). */
  function Minutes(s: string): nat
    requires IsHHMM(s)
  {
    10 * DigitValue(s[3]) + DigitValue(s[4])
  }

  /** Two digit characters read as a decimal number. */
  lemma ParseTwoDigits(s: string)
    requires |s| == 2 && IsDigit(s[0]) && IsDigit(s[1])
    ensures ParseDecimal(s) == 10 * DigitValue(s[0]) + DigitValue(s[1])
  {
    var first := s[..|s| - 1];
    assert first == [s[0]] && first[..|first| - 1] == [];
    assert ParseDecimal(first) == DigitValue(s[0]);
  }

  /** `time.split(':').map(Number)` on an HH:MM string gives the two digit
      pairs, read as Hours and Minutes. */
  lemma HHMMSplit(s: string)
    requires IsHHMM(s)
    ensures Split(s, ':') == [s[..2], s[3..]]
    ensures Hours(s) == ParseDecimal(s[..2]) && Minutes(s) == ParseDecimal(s[3..])
  {
    var parts := [s[..2], s[3..]];
    calc {
      Join(parts, ":");
      s[..2] + ":" + Join(parts[1..], ":");
      { assert parts[1..] == [s[3..]]; }
      s[..2] + ":" + s[3..];
      { assert s == s[..2] + [s[2]] + s[3..]; }
      s;
    }
    SplitJoin(parts, ':');
    ParseTwoDigits(s[..2]);
    ParseTwoDigits(s[3..]);
  }

  /** A time of day on the 24-hour clock. */
  predicate IsClockTime(s: string) {
    IsHHMM(s) && Hours(s) < 24 && Minutes(s) < 60
  }

  function MinutesSinceMidnight(s: string): nat
    requires IsHHMM(s)
  {
    60 * Hours(s) + Minutes(s)
  }

  /** Two digits a, b read as the number 10a + b, and back. */
  lemma TwoDigitParts(a: nat, b: nat)
    requires a < 10 && b < 10
    ensures (10 * a + b) / 10 == a && (10 * a + b) % 10 == b
  {
  }

  /** The two digits of n below 100: tens, then units. */
  function TwoDigits(n: nat): (s: string)
    requires n < 100
    ensures |s| == 2 && IsDigit(s[0]) && IsDigit(s[1])
    ensures 10 * DigitValue(s[0]) + DigitValue(s[1]) == n
  {
    TwoDigitParts(n / 10, n % 10);
    [DigitChar(n / 10), DigitChar(n % 10)]
  }

  /** TwoDigits(n) is what String(n).padStart(2, '0') writes for n below 100. */
  lemma TwoDigitsIsPadded(n: nat)
    requires n < 100
    ensures TwoDigits(n) == PadStart(DecimalString(n), 2, '0')
  {
    TwoDigitsOf(n);
  }

  /** A digit is the digit character of its value. */
  lemma DigitCharOfValue(c: char)
    requires IsDigit(c)
    ensures DigitChar(DigitValue(c)) == c
  {
  }

  /** Padding the value of two digits gives those digits back. */
  lemma TwoDigitsOfDigits(c0: char, c1: char)
    requires IsDigit(c0) && IsDigit(c1)
    ensures TwoDigits(10 * DigitValue(c0) + DigitValue(c1)) == [c0, c1]
  {
    var a, b := DigitValue(c0), DigitValue(c1);
    TwoDigitParts(a, b);
    DigitCharOfValue(c0);
    DigitCharOfValue(c1);
  }

  /** Two two-digit strings joined by a colon form an HH:MM string with
      those hours and minutes. */
  lemma JoinedHHMM(hh: string, mm: string)
    requires |hh| == 2 && IsDigit(hh[0]) && IsDigit(hh[1])
    requires |mm| == 2 && IsDigit(mm[0]) && IsDigit(mm[1])
    ensures var r := hh + ":" + mm;
      && IsHHMM(r) && r[..2] == hh && r[3..] == mm
      && Hours(r) == 10 * DigitValue(hh[0]) + DigitValue(hh[1])
      && Minutes(r) == 10 * DigitValue(mm[0]) + DigitValue(mm[1])
  {
    var r := hh + ":" + mm;
    assert r[0] == hh[0] && r[1] == hh[1] && r[2] == ':' && r[3] == mm[0] && r[4] == mm[1];
  }

  /** addOneHour: `${String((h + 1) % 24).padStart(2, '0')}:${String(m).padStart(2, '0')}`. */
  function AddOneHour(time: string): (r: string)
    requires IsHHMM(time)
    ensures IsHHMM(r)
    ensures Hours(r) == (Hours(time) + 1) % 24
    ensures r[2] == ':' && r[3..] == time[3..] && Minutes(r) == Minutes(time)
    ensures IsClockTime(time) ==> IsClockTime(r)
  {
    var hh := TwoDigits((Hours(time) + 1) % 24);
    var mm := TwoDigits(Minutes(time));
    TwoDigitsOfDigits(time[3], time[4]);
    JoinedHHMM(hh, mm);
    hh + ":" + mm
  }

  /** On two HH:MM strings, string order is the order of 100 * hours + minutes. */
  lemma HHMMStringOrder(a: string, b: string)
    requires IsHHMM(a) && IsHHMM(b)
    ensures StrLt(a, b) <==> 100 * Hours(a) + Minutes(a) < 100 * Hours(b) + Minutes(b)
  {
    if a[0] == b[0] {
      assert StrLt(a, b) == StrLt(a[1..], b[1..]);
      if a[1] == b[1] {
        assert StrLt(a[1..], b[1..]) == StrLt(a[2..], b[2..]);
        assert StrLt(a[2..], b[2..]) == StrLt(a[3..], b[3..]);
        if a[3] == b[3] {
          assert StrLt(a[3..], b[3..]) == StrLt(a[4..], b[4..]);
          assert StrLt(a[4..], b[4..]) == (a[4] < b[4]) by {
            assert a[4..][1..] == [] && b[4..][1..] == [];
          }
        }
      }
    }
  }

  /** For clock times, `<` and `<=` on the strings agree with comparing minutes
      since midnight, which is what the handlers' string comparisons rely on. */
  lemma ClockStringOrder(a: string, b: string)
    requires IsClockTime(a) && IsClockTime(b)
    ensures StrLt(a, b) <==> MinutesSinceMidnight(a) < MinutesSinceMidnight(b)
    ensures StrLe(a, b) <==> MinutesSinceMidnight(a) <= MinutesSinceMidnight(b)
  {
    HHMMStringOrder(a, b);
    HHMMStringOrder(b, a);
  }

  /** The hour after h on the 24-hour clock is h + 1 below 23 and smaller than h after. */
  lemma HourAfter(h: nat)
    ensures h < 23 ==> (h + 1) % 24 == h + 1
    ensures h >= 23 ==> (h + 1) % 24 < h
  {
  }

  /** One hour later is later in string order, unless the hour wraps past
      midnight, which makes it earlier. */
  lemma AddOneHourOrder(time: string)
    requires IsHHMM(time)
    ensures Hours(time) < 23 ==> StrLt(time, AddOneHour(time))
    ensures Hours(time) >= 23 ==> StrLt(AddOneHour(time), time)
  {
    var r := AddOneHour(time);
    HourAfter(Hours(time));
    HHMMStringOrder(time, r);
    HHMMStringOrder(r, time);
  }

  // ----- the form's state and its transitions -----

  const DefaultStartTime: string := "09:00"
  const DefaultEndTime: string := "10:00"

  datatype Fields = Fields(title: string, description: string, startTime: string, endTime: string)

  /** The fields of an empty form. */
  const Blank: Fields := Fields("", "", DefaultStartTime, DefaultEndTime)

  /** `s || fallback` for an optional string: an absent or empty s gives the fallback. */
  function OrDefault(s: Option<string>, fallback: string): (r: string)
    ensures r == fallback || (s.Some? && r == s.value && r != "")
    ensures s.Some? && s.value != "" ==> r == s.value
  {
    if s.Some? && s.value != "" then s.value else fallback
  }

  /** What the effect sets when the selection or the event being edited
      changes: the event's values with defaults for absent ones, or a blank form. */
  function Populated(editingEvent: Option<CalendarEvent>): (f: Fields)
    ensures f.endTime != "" && f.startTime != ""
  {
    if editingEvent.Some? then
      var e := editingEvent.value;
      Fields(e.title, OrDefault(e.description, ""), OrDefault(e.startTime, DefaultStartTime), OrDefault(e.endTime, DefaultEndTime))
    else Blank
  }

  /** Without an event being edited the effect blanks the form; with one it
      copies the title, and takes each optional value when present and
      non-empty and the default otherwise. */
  lemma PopulatedValues(editingEvent: Option<CalendarEvent>)
    ensures editingEvent.None? ==> Populated(editingEvent) == Fields("", "", "09:00", "10:00")
    ensures editingEvent.Some? ==> var e := editingEvent.value; var f := Populated(editingEvent);
      && f.title == e.title
      && (f.description == "" <==> e.description.None? || e.description.value == "")
      && (f.description != "" ==> f.description == e.description.value)
      && (f.startTime == if e.startTime.Some? && e.startTime.value != "" then e.startTime.value else "09:00")
      && (f.endTime == if e.endTime.Some? && e.endTime.value != "" then e.endTime.value else "10:00")
  {
  }

  /** handleStartTimeChange on the state: the start is replaced and, when the
      current end is not after it, the end moves to one hour after it. */
  function StartTimeChanged(f: Fields, newStartTime: string): (g: Fields)
    requires f.endTime != ""
    requires IsHHMM(newStartTime) || newStartTime == ""
    ensures g.title == f.title && g.description == f.description && g.startTime == newStartTime
    ensures g.endTime != ""
  {
    if StrLe(f.endTime, newStartTime) then
      f.(startTime := newStartTime, endTime := AddOneHour(newStartTime))
    else
      f.(startTime := newStartTime)
  }

  /** The end moves exactly when the old end is at or before the new start,
      and then to one hour after it; otherwise it stays. */
  lemma StartTimeChangedMovesEnd(f: Fields, newStartTime: string)
    requires f.endTime != ""
    requires IsHHMM(newStartTime) || newStartTime == ""
    ensures var g := StartTimeChanged(f, newStartTime);
      && (StrLt(f.endTime, newStartTime) || f.endTime == newStartTime ==> g.endTime == AddOneHour(newStartTime))
      && (StrLt(newStartTime, f.endTime) ==> g.endTime == f.endTime)
  {
    StrLeIff(f.endTime, newStartTime);
    StrLtTrichotomy(f.endTime, newStartTime);
  }

  /** After a start change to an hour before 23:00 the end is after the start;
      from 23:00 on, moving the end wraps it to just after midnight, before the start. */
  lemma StartTimeChangedOrder(f: Fields, newStartTime: string)
    requires f.endTime != ""
    requires IsHHMM(newStartTime)
    ensures var g := StartTimeChanged(f, newStartTime);
      && (Hours(newStartTime) < 23 ==> StrLt(g.startTime, g.endTime))
      && (Hours(newStartTime) >= 23 && StrLe(f.endTime, newStartTime) ==> StrLt(g.endTime, g.startTime))
  {
    AddOneHourOrder(newStartTime);
  }

  /** handleEndTimeChange on the state: the end is replaced only by a time
      after the start. */
  function EndTimeChanged(f: Fields, newEndTime: string): (g: Fields)
    ensures g.title == f.title && g.description == f.description && g.startTime == f.startTime
    ensures g == f || g.endTime == newEndTime
  {
    if StrLt(f.startTime, newEndTime) then f.(endTime := newEndTime) else f
  }

  /** An end change takes effect exactly when the new end is after the start,
      keeps `end > start` when it held, and never empties the end. */
  lemma EndTimeChangedKeepsOrder(f: Fields, newEndTime: string)
    ensures var g := EndTimeChanged(f, newEndTime);
      && (g.endTime == newEndTime <==> StrLt(f.startTime, newEndTime) || f.endTime == newEndTime)
      && (StrLt(f.startTime, f.endTime) ==> StrLt(g.startTime, g.endTime))
      && (f.endTime != "" ==> g.endTime != "")
  {
  }

  // ----- submit -----

  /** The eventData object handed to a callback. */
  datatype EventData = EventData(
    title: string, description: string, startDate: JsDate, endDate: JsDate,
    startTime: string, endTime: string)

  /** The callback a submit reaches. */
  datatype Callback = AddEvent(data: EventData) | UpdateEvent(id: string, data: EventData)

  datatype Submitted = Submitted(fields: Fields, call: Option<Callback>)

  /** handleSubmit on the state and the props. */
  function Submit(f: Fields, selectedStartDate: Option<JsDate>, selectedEndDate: Option<JsDate>,
                  editingEvent: Option<CalendarEvent>): Submitted
  {
    if selectedStartDate.None? || Trim(f.title) == "" then Submitted(f, None)
    else
      var start := selectedStartDate.value;
      var data := EventData(Trim(f.title), Trim(f.description), start, selectedEndDate.GetOr(start),
                            f.startTime, f.endTime);
      Submitted(Blank, Some(if editingEvent.Some? then UpdateEvent(editingEvent.value.id, data) else AddEvent(data)))
  }

  /** A submit with no start date or a title of white space only reaches no
      callback and changes no field; any other submit reaches one. */
  lemma SubmitRejects(f: Fields, selectedStartDate: Option<JsDate>, selectedEndDate: Option<JsDate>,
                      editingEvent: Option<CalendarEvent>)
    ensures var s := Submit(f, selectedStartDate, selectedEndDate, editingEvent);
      && (s.call.None? <==> selectedStartDate.None? || AllWhiteSpace(f.title))
      && (s.call.None? ==> s.fields == f)
  {
    TrimEmptyIff(f.title);
  }

  /** A submit that reaches a callback reaches onUpdateEvent with the edited
      event's id when editing and onAddEvent otherwise; it sends the trimmed
      title and description, the selected start, the selected end or else
      the start, and the two times; and it leaves a blank form, the same the
      effect sets when nothing is being edited. */
  lemma SubmitDispatches(f: Fields, selectedStartDate: Option<JsDate>, selectedEndDate: Option<JsDate>,
                         editingEvent: Option<CalendarEvent>)
    requires Submit(f, selectedStartDate, selectedEndDate, editingEvent).call.Some?
    ensures var s := Submit(f, selectedStartDate, selectedEndDate, editingEvent);
      var c := s.call.value;
      && selectedStartDate.Some?
      && (c.UpdateEvent? <==> editingEvent.Some?)
      && (c.UpdateEvent? ==> c.id == editingEvent.value.id)
      && c.data.title == Trim(f.title) && c.data.description == Trim(f.description)
      && c.data.startDate == selectedStartDate.value
      && c.data.endDate == (if selectedEndDate.Some? then selectedEndDate.value else selectedStartDate.value)
      && c.data.startTime == f.startTime && c.data.endTime == f.endTime
      && s.fields == Populated(None)
  {
    assert selectedStartDate.Some? && Trim(f.title) != "";
  }

  /** The title a submit sends is never empty and neither starts nor ends
      with white space. */
  lemma SubmitSendsTrimmedTitle(f: Fields, selectedStartDate: Option<JsDate>, selectedEndDate: Option<JsDate>,
                                editingEvent: Option<CalendarEvent>)
    requires Submit(f, selectedStartDate, selectedEndDate, editingEvent).call.Some?
    ensures var title := Submit(f, selectedStartDate, selectedEndDate, editingEvent).call.value.data.title;
      title != "" && !IsWhiteSpace(title[0]) && !IsWhiteSpace(title[|title| - 1])
  {
    SubmitDispatches(f, selectedStartDate, selectedEndDate, editingEvent);
    TrimEnds(f.title);
  }

  // ----- what the form shows -----

  /** The rendered form: its heading, the date line's label, the start date it
      shows, the end date it shows after the arrow (only for a range) and the
      submit button's name. */
  datatype FormView = FormView(heading: string, dateLabel: string, start: JsDate, rangeEnd: Option<JsDate>,
                               submitLabel: string)

  /** The form renders nothing without a start date; otherwise its heading and
      button name editing or creating, and the date line shows the start date
      and names a range, with the end date, exactly when one is selected. */
  function View(selectedStartDate: Option<JsDate>, selectedEndDate: Option<JsDate>,
                editingEvent: Option<CalendarEvent>): (v: Option<FormView>)
    ensures v.None? <==> selectedStartDate.None?
    ensures v.Some? ==> (v.value.heading == "Edit Event" <==> editingEvent.Some?)
    ensures v.Some? ==> (v.value.dateLabel == "Date Range" <==> selectedEndDate.Some?)
    ensures v.Some? ==> v.value.start == selectedStartDate.value
    ensures v.Some? ==> v.value.rangeEnd == selectedEndDate
    ensures v.Some? ==> (v.value.submitLabel == "Update Event" <==> editingEvent.Some?)
    ensures v.Some? ==> (v.value.submitLabel == "Add Event" <==> editingEvent.None?)
  {
    if selectedStartDate.None? then None
    else
      var isRange := selectedEndDate.Some?;
      Some(FormView(
        if editingEvent.Some? then "Edit Event" else "Create Event",
        "Date" + (if isRange then " Range" else ""),
        selectedStartDate.value,
        selectedEndDate,
        if editingEvent.Some? then "Update Event" else "Add Event"))
  }

  // ----- the component's state -----

  /** The four state fields of a mounted EventForm. */
  class EventForm {
    var title: string
    var description: string
    var startTime: string
    var endTime: string

    /** The end time is never empty: every way of setting it falls back to a
        default, one hour after a start, or a time after the start. */
    ghost predicate Valid()
      reads this
    {
      endTime != ""
    }

    function State(): Fields
      reads this
    {
      Fields(title, description, startTime, endTime)
    }

    constructor ()
      ensures Valid() && State() == Blank
    {
      title, description, startTime, endTime := "", "", DefaultStartTime, DefaultEndTime;
    }

    /** Typing into the title input. */
    method SetTitle(value: string)
      modifies this`title
      ensures Valid() == old(Valid())
      ensures State() == old(State()).(title := value)
    {
      title := value;
    }

    /** Typing into the description input. */
    method SetDescription(value: string)
      modifies this`description
      ensures Valid() == old(Valid())
      ensures State() == old(State()).(description := value)
    {
      description := value;
    }

    /** The effect, run when the selected dates or the event being edited change. */
    method SelectionChanged(editingEvent: Option<CalendarEvent>)
      modifies this
      ensures Valid()
      ensures State() == Populated(editingEvent)
    {
      if editingEvent.Some? {
        var e := editingEvent.value;
        title := e.title;
        description := OrDefault(e.description, "");
        startTime := OrDefault(e.startTime, DefaultStartTime);
        endTime := OrDefault(e.endTime, DefaultEndTime);
      } else {
        title := "";
        description := "";
        startTime := DefaultStartTime;
        endTime := DefaultEndTime;
      }
    }

    /** handleStartTimeChange with what the time input reports: HH:MM, or
        nothing once cleared. */
    method HandleStartTimeChange(newStartTime: string)
      requires Valid()
      requires IsHHMM(newStartTime) || newStartTime == ""
      modifies this`startTime, this`endTime
      ensures Valid()
      ensures State() == StartTimeChanged(old(State()), newStartTime)
    {
      ghost var next := StartTimeChanged(State(), newStartTime);
      var oldEnd := endTime;
      startTime := newStartTime;
      if StrLe(oldEnd, newStartTime) {
        endTime := AddOneHour(newStartTime);
      }
      assert endTime == next.endTime;
    }

    method HandleEndTimeChange(newEndTime: string)
      requires Valid()
      modifies this`endTime
      ensures Valid()
      ensures State() == EndTimeChanged(old(State()), newEndTime)
    {
      if StrLt(startTime, newEndTime) {
        endTime := newEndTime;
      }
    }

    /** handleSubmit: returns the callback it reached, if any. */
    method HandleSubmit(selectedStartDate: Option<JsDate>, selectedEndDate: Option<JsDate>,
                        editingEvent: Option<CalendarEvent>) returns (call: Option<Callback>)
      requires Valid()
      modifies this
      ensures Valid()
      ensures State() == Submit(old(State()), selectedStartDate, selectedEndDate, editingEvent).fields
      ensures call == Submit(old(State()), selectedStartDate, selectedEndDate, editingEvent).call
    {
      ghost var submitted := Submit(State(), selectedStartDate, selectedEndDate, editingEvent);
      var trimmedTitle := Trim(title);
      if selectedStartDate.None? || trimmedTitle == "" {
        assert submitted == Submitted(State(), None);
        return None;
      }
      var effectiveEndDate := selectedEndDate.GetOr(selectedStartDate.value);
      var eventData := EventData(trimmedTitle, Trim(description), selectedStartDate.value, effectiveEndDate,
                                 startTime, endTime);
      if editingEvent.Some? {
        call := Some(UpdateEvent(editingEvent.value.id, eventData));
      } else {
        call := Some(AddEvent(eventData));
      }
      assert call == submitted.call && submitted.fields == Blank;
      title, description, startTime, endTime := "", "", DefaultStartTime, DefaultEndTime;
    }
  }
}
