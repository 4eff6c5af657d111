# Calendar: a verified model of the month grid, the day cell, the event form, the event list and the calendar store

This project models the core of a small React calendar:

- the month grid (`Calendar`): the days of the shown month, the empty cells
  before the first day, the today/selected highlighting, and the Previous/Next
  handlers;
- the day cell (`CalendarDay`): its class names, its label and its click
  argument;
- the shared store (`CalendarProvider`/`useCalendar`): the month shown, the
  selected date and the list of events;
- the event form (`EventForm`): its four fields, the start/end time handlers,
  the reset effect and the submit handler;
- the event list (`EventList`): its header, each event's time line, description
  and multi-day badge, and the count line.

The JavaScript built-ins the components rely on are modelled with them:

- `Date`: the civil calendar, `new Date(y, m, d)` with its carry of out-of-range
  months and days, `setMonth`, `getDay` and `getTime`, as the Date
  operations of ECMA-262 define them, including the constructor's reading of a year from
  0 to 99 as 1900 + year, which `setMonth` does not apply;
- `String`: `trim`, the `<` string order, `String(n)`, `padStart`, `split` and
  `join`.

The modules are:

| module | file | models |
|---|---|---|
| `Gregorian` | gregorian.dfy | The proleptic Gregorian calendar: leap years, month lengths, day numbers, MakeDay with carrying, and weekdays. Months are 0-based, as in JavaScript. |
| `Text` | text.dfy | String order, `trim` over ECMA-262 white space, decimal strings, `padStart`, `join` and `split`. |
| `JsDates` | jsdates.dfy | A `Date` as its local-time getters see it: a calendar day plus milliseconds since midnight. |
| `Types` | types.dfy | `CalendarEvent`, `Option` and `Result`. |
| `Store` | store.dfy | `CalendarStore`, the provider's state, as a class whose setters update its fields; `useCalendar`. |
| `DayCell` | day_cell.dfy | `CalendarDay`. |
| `MonthView` | month_view.dfy | `Calendar`. |
| `Form` | event_form.dfy | `EventForm`. Its state is a class whose handler methods are proved against pure transition functions. |
| `EventListView` | event_list.dfy | `EventList`. |

## Model

| member | source | states |
|---|---|---|
| Gregorian.DaysInYear | src/components/Calendar.tsx:13 | A year has 365 or 366 days. |
| Gregorian.LastDay | src/components/Calendar.tsx:13 | A month has 28 to 31 days; only February has fewer than 30; February has 29 exactly in a leap year. |
| Gregorian.NextMonth | src/components/Calendar.tsx:41 | The month after a month is a valid month index. |
| Gregorian.PrevMonth | src/components/Calendar.tsx:35 | The month before a month is a valid month index. |
| Gregorian.PrevNextInverse | src/components/Calendar.tsx:33-43 | Stepping one month back and one forward, in either order, returns to the same year and month. |
| Gregorian.YearLength | src/components/Calendar.tsx:13 | The day number of 1 January of the next year is this year's plus the year's length. Leap years are counted by the floored 4/100/400 rule. |
| Gregorian.YearStep | src/components/Calendar.tsx:13 | The next year starts 365 days later, plus one if the year is a multiple of 4, minus one if of 100, plus one if of 400. |
| Gregorian.LeapCorrection | src/components/Calendar.tsx:13 | Those three corrections add one day exactly in a leap year. |
| Gregorian.NextMonthStart | src/components/Calendar.tsx:13 | The first day of the next month comes exactly LastDay days after the first of this month. |
| Gregorian.MakeDayNumber | src/components/Calendar.tsx:13 | MakeDay(y, m, d) lands on day d−1 after the first of month m mod 12 of year y + ⌊m/12⌋. Months and days out of range carry. `new Date(y, m, d)` applies FullYear(y) first (JsDates.NewDate). |
| Gregorian.CarryNumber | src/components/Calendar.tsx:13 | The carry for a month already in range: the result lies d−1 days after the first of that month, for any integer d. |
| Gregorian.MakeDayNormalises | src/components/Calendar.tsx:35-41 | MakeDay depends on the month argument only through the year and month it normalises to. |
| Gregorian.MakeDayNextMonth | src/components/Calendar.tsx:41 | MakeDay on month m + 1 is MakeDay on the month after m, December rolling into January of the next year. |
| Gregorian.MakeDayPrevMonth | src/components/Calendar.tsx:35 | MakeDay on month m − 1 is MakeDay on the month before m, January rolling back into December of the year before. |
| Gregorian.MakeDayInRange | src/components/Calendar.tsx:17 | In-range arguments give exactly that date. |
| Gregorian.MakeDayKeepsDay | src/components/Calendar.tsx:35 | A day the carried-to month has is kept. |
| Gregorian.MakeDayCarriesForward | src/components/Calendar.tsx:35-41 | A day past the month's end, but not past the next month's, spills into the next month by the surplus. |
| Gregorian.DaysBeforeMonthMonotone | src/components/Calendar.tsx:13 | The days before a month grow with the month. A later month starts after the earlier month ends. |
| Gregorian.DayFromYearMonotone | src/components/EventList.tsx:85 | Later years start at least 365 days per year later. |
| Gregorian.DayNumberWithinYear | src/components/EventList.tsx:85 | A date's day number lies inside its year. |
| Gregorian.DayNumberOrder | src/components/EventList.tsx:85 | On valid dates, calendar order is day-number order. Equal dates are exactly those with equal day numbers. |
| Gregorian.MakeDayUnique | src/components/Calendar.tsx:13 | The valid date with MakeDay's day number is MakeDay's result. |
| Gregorian.WeekDay | src/components/Calendar.tsx:26 | getDay yields 0..6. |
| Gregorian.WeekDayOfMonthDay | src/components/Calendar.tsx:73-84 | Day k+1 of a month falls k weekdays after the first, mod 7. |
| Text.StrLtTrichotomy | src/components/EventForm.tsx:59-66 | String `<` is asymmetric, irreflexive and total on distinct strings. |
| Text.StrLeIff | src/components/EventForm.tsx:59 | `a <= b` holds exactly when `a < b` or `a == b`. |
| Text.StrLtTransitive | src/components/EventForm.tsx:59-66 | String `<` is transitive. |
| Text.TrimStart | src/components/EventForm.tsx:82 | The result is a suffix with no leading white space, and only white space was removed. |
| Text.TrimEnd | src/components/EventForm.tsx:82 | The result is a prefix with no trailing white space, and only white space was removed. |
| Text.TrimEnds | src/components/EventForm.tsx:82-88 | A trimmed string is empty or starts and ends with a character that is not white space. |
| Text.TrimSlice | src/components/EventForm.tsx:82-88 | The trimmed string is the piece of the string that starts where the leading white space ends. |
| Text.TrimCutsTrailing | src/components/EventForm.tsx:82-88 | Every character after the trimmed piece is white space. |
| Text.TrimShape | src/components/EventForm.tsx:87-88 | trim returns a contiguous slice of the string, and every character outside it, before or after, is white space. |
| Text.TrimEmptyIff | src/components/EventForm.tsx:82 | trim gives the empty string exactly when the string is all white space. |
| Text.TrimIdempotent | src/components/EventForm.tsx:87-88 | Trimming twice equals trimming once. |
| Text.DigitValue | src/components/EventForm.tsx:51 | A digit's value is below 10. |
| Text.DigitChar | src/components/EventForm.tsx:53 | The digit character of n is a digit whose value is n. |
| Text.DecimalString | src/components/CalendarDay.tsx:24 | String(n) is non-empty, all digits, and has no leading zero unless n is 0. |
| Text.DecimalRoundTrip | src/components/CalendarDay.tsx:24 | Reading back String(n) gives n. |
| Text.DigitPrefix | src/components/EventList.tsx:102 | The leading digits are a prefix of the string, all digits. |
| Text.DigitPrefixOf | src/components/EventList.tsx:102 | The leading digits of digits followed by a non-digit are those digits. |
| Text.PadStart | src/components/EventForm.tsx:53 | padStart reaches the width or keeps the string, ends with the string, and fills the front. |
| Text.TwoDigitsOf | src/components/EventForm.tsx:53 | A number below 100 padded to two with '0' is its tens digit followed by its units digit. |
| Text.Split | src/components/EventForm.tsx:51 | split always yields at least one part. |
| Form.HHMMSplit | src/components/EventForm.tsx:51 | `time.split(':')` on an HH:MM string gives the hour digits and the minute digits, and `Number` of them is Hours and Minutes. |
| Text.SplitJoin | src/components/CalendarDay.tsx:16-20 | Splitting a join at its one-character separator returns the parts, when no part contains the separator. |
| JsDates.NewDate | src/components/Calendar.tsx:17 | new Date(y, m, d) is at midnight, and in-range arguments give that calendar day of the year FullYear(y): 1900 + y for y from 0 to 99, y otherwise. |
| JsDates.NewDateYear | src/components/Calendar.tsx:17 | A year argument from 0 to 99 builds the same Date as 1900 + y. Any other year with an in-range month and day gives exactly that date. |
| JsDates.GetTimeOrder | src/components/EventList.tsx:85 | Two Dates have equal getTime exactly when they are the same moment. An earlier day has a smaller getTime. |
| JsDates.SetMonthLands | src/components/Calendar.tsx:35-41 | setMonth keeps the time of day and lands day-of-month − 1 days after the first of the normalised month, carrying through MakeDay. |
| Store.CalendarStore.constructor | src/context/CalendarContext.tsx:18-20 | A provider starts on the current moment, with no selection and no events. |
| Store.CalendarStore.SetCurrentMonth | src/context/CalendarContext.tsx:18 | Sets the shown month and nothing else. |
| Store.CalendarStore.SetSelectedDate | src/context/CalendarContext.tsx:19 | Sets the selection and nothing else. |
| Store.CalendarStore.AddEvent | src/context/CalendarContext.tsx:22-24 | Appends the event after all earlier events, which are unchanged, and changes nothing else. |
| Store.UseCalendar | src/context/CalendarContext.tsx:42-48 | Fails, with the provider error message, exactly when there is no provider. Otherwise returns the provider's store. |
| DayCell.FilterTruthy | src/components/CalendarDay.tsx:20 | filter(Boolean) keeps no empty string and never lengthens the list. |
| DayCell.FilteredClassParts | src/components/CalendarDay.tsx:16-20 | The surviving class names are calendar-day, then today if isToday, then selected if isSelected. |
| DayCell.ClassNamesSpelledOut | src/components/CalendarDay.tsx:11-20 | The class string spelled out. With both flags at their defaults it is `calendar-day`. |
| DayCell.ClassTokens | src/components/CalendarDay.tsx:16-20 | The space-separated tokens of the class string are exactly the surviving names. |
| DayCell.ClassTokenMembership | src/components/CalendarDay.tsx:16-20 | The first token is calendar-day. The token `today` is present iff isToday, and `selected` iff isSelected. |
| DayCell.Render | src/components/CalendarDay.tsx:12-25 | The cell text is all digits and reads back as the day of the month. A click reports the cell's own date. |
| MonthView.MonthDays | src/components/Calendar.tsx:10-21 | One midnight per day of month m of year FullYear(y), day i+1 at position i, LastDay of them. For a year from 0 to 99 these are days of 1900 + y. |
| MonthView.DayZeroOfNextMonth | src/components/Calendar.tsx:13 | new Date(y, m+1, 0) is the last day of month m of year FullYear(y), also for December. |
| MonthView.GetDaysInMonth | src/components/Calendar.tsx:10-21 | The loop builds exactly MonthDays of the date's getFullYear() and getMonth(), two-digit-year rule included. |
| MonthView.MonthDaysOrdered | src/components/Calendar.tsx:10-21 | The listed days start on the 1st, all lie in month m of year FullYear(y), and strictly increase in getTime. |
| MonthView.GetFirstDayOfMonth | src/components/Calendar.tsx:23-27 | The result is in 0..6 and is the weekday of the first of the month in year FullYear(getFullYear()). |
| MonthView.IsToday | src/components/Calendar.tsx:45-50 | True exactly when the date is on today's calendar day, whatever the time of day. |
| MonthView.IsSelected | src/components/Calendar.tsx:52-57 | False with no selection; otherwise true exactly on the selected calendar day. |
| MonthView.GridCellAt | src/components/Calendar.tsx:73-84 | The cell after the empty ones at offset k is the CalendarDay of the listed day k + 1, with its today and selected flags. |
| MonthView.GridDayAt | src/components/Calendar.tsx:73-84 | The cell at position i past the empty ones reports the midnight of its day in year FullYear(getFullYear()), shows its number, and sits in the column (Sunday first) of its weekday. |
| MonthView.GridPrefix | src/components/Calendar.tsx:59-72 | The grid holds firstDay empty cells and then one cell per day. |
| MonthView.GridLayout | src/components/Calendar.tsx:59-85 | There are firstDay + LastDay cells, for the month in year FullYear(getFullYear()). The empty cells come first. Cell i is day i−first+1, labelled and clicked with that day, in the column of its weekday. |
| MonthView.GridHighlights | src/components/Calendar.tsx:76-84 | A day's cell has the token today iff it is today's calendar day, and selected iff it is the selected one. The day is taken in year FullYear(getFullYear()). |
| MonthView.GridOfYearZeroShows1900 | src/components/Calendar.tsx:10-27 | As written, February of year 0 (29 days) gets the grid of February 1900: 28 day cells, the first reporting 1 February 1900. |
| MonthView.IntendedMonthDays | src/components/Calendar.tsx:10-21 | The days evidently meant: LastDay(y, m) midnights, day i+1 at position i, all in month m of year y itself. |
| MonthView.IntendedMonthDaysAgree | src/components/Calendar.tsx:10-21 | The intended days equal the listed ones exactly when the year is outside 0..99. |
| MonthView.IntendedFirstDay | src/components/Calendar.tsx:23-27 | The intended first column is in 0..6, and from it every day of the shown month of the shown year itself falls under its own weekday. |
| MonthView.IntendedFirstDayAgrees | src/components/Calendar.tsx:23-27 | The intended first column is getFirstDayOfMonth's exactly outside the years 0 to 99. |
| Gregorian.CenturiesApartWeekDay | src/components/Calendar.tsx:23-27 | For a year 0..99, the first of a month 1900 years later falls on a different weekday. |
| MonthView.ClickedDayIsOnlySelection | src/components/Calendar.tsx:29-31 | After a click on day k of the shown month, only day k of that month is selected. |
| MonthView.HandleDayClick | src/components/Calendar.tsx:29-31 | Stores the clicked date as the selection and changes nothing else. |
| MonthView.HandlePrevMonth | src/components/Calendar.tsx:33-37 | The shown month becomes setMonth(getMonth() − 1) of the old one. |
| MonthView.HandleNextMonth | src/components/Calendar.tsx:39-43 | The shown month becomes setMonth(getMonth() + 1) of the old one. |
| MonthView.MonthArgumentCarry | src/components/Calendar.tsx:35-41 | getMonth() ± 1 passed to setMonth carries into the neighbouring year. |
| MonthView.MonthAfterIs | src/components/Calendar.tsx:39-43 | Next is MakeDay on the month after the shown one, with the same day and time of day. |
| MonthView.MonthBeforeIs | src/components/Calendar.tsx:33-37 | Previous is MakeDay on the month before the shown one, with the same day and time of day. |
| MonthView.MonthAfterKeepsDay | src/components/Calendar.tsx:39-43 | Next keeps the day and the time when the next month has the day. December rolls over into January. |
| MonthView.MonthBeforeKeepsDay | src/components/Calendar.tsx:33-37 | Previous keeps the day and the time when the month before has the day. January rolls back into December. |
| MonthView.MonthMovesUpTo28th | src/components/Calendar.tsx:33-43 | Up to the 28th, both moves keep the day, and Next then Previous (and the reverse) return to the same moment. |
| MonthView.MonthAfterOverflows | src/components/Calendar.tsx:39-43 | From a day the next month lacks, Next lands in the month after it. |
| MonthView.MonthBeforeOverflows | src/components/Calendar.tsx:33-37 | From a day the previous month lacks, Previous stays in the same month. |
| MonthView.MonthMovesMissTheirMonth | src/components/Calendar.tsx:33-43 | Previous on 31 March 2023 gives 3 March. Next on 31 January 2023 gives 3 March. |
| MonthView.AdjacentMonth | src/components/Calendar.tsx:33-43 | The intended move always lands in the neighbouring month. It keeps the time and never moves to a later day of the month. A day the neighbouring month lacks is cut back to that month's last day. |
| MonthView.AdjacentMonthAgreesWhenDayExists | src/components/Calendar.tsx:33-43 | The intended move and setMonth agree whenever the neighbouring month has the day. |
| Form.TwoDigits | src/components/EventForm.tsx:53 | A number below 100 becomes two digits that read back as it. |
| Form.TwoDigitsIsPadded | src/components/EventForm.tsx:53 | Those two digits are `String(n).padStart(2, '0')`. |
| Form.AddOneHour | src/components/EventForm.tsx:50-54 | The result is HH:MM, with hour (h+1) mod 24 and the same minute digits as the input. A clock time stays a clock time. |
| Form.HHMMStringOrder | src/components/EventForm.tsx:59-66 | On HH:MM strings, string `<` is the order of 100·hours + minutes. |
| Form.ClockStringOrder | src/components/EventForm.tsx:59-66 | On clock times, string `<` and `<=` are the order of minutes since midnight. |
| Form.AddOneHourOrder | src/components/EventForm.tsx:50-60 | One hour later is later in string order before 23:00 and earlier from 23:00 on. |
| Form.OrDefault | src/components/EventForm.tsx:38-40 | `s \|\| fallback` gives s when it is present and non-empty, and otherwise the fallback. |
| Form.Populated | src/components/EventForm.tsx:34-48 | The effect never leaves an empty start or end time. |
| Form.PopulatedValues | src/components/EventForm.tsx:34-48 | With no edited event the form is blank with 09:00–10:00. Otherwise it takes the event's values, with those defaults for absent or empty ones. |
| Form.StartTimeChanged | src/components/EventForm.tsx:56-62 | Replaces the start time and keeps the title and description. The end stays non-empty. |
| Form.StartTimeChangedMovesEnd | src/components/EventForm.tsx:56-62 | The end moves to one hour after the new start exactly when it was at or before it, and otherwise stays. |
| Form.StartTimeChangedOrder | src/components/EventForm.tsx:56-62 | After a start change before 23:00 the end is after the start. From 23:00 on, a moved end wraps to before the start. |
| Form.EndTimeChanged | src/components/EventForm.tsx:64-69 | The title, description and start are kept. The end either stays or becomes the new value. |
| Form.EndTimeChangedKeepsOrder | src/components/EventForm.tsx:64-69 | The end becomes the new value exactly when that is after the start (or equal to the old end). `start < end` is kept. The end never becomes empty. |
| Form.SubmitRejects | src/components/EventForm.tsx:80-82 | No callback is reached, and no field changes, exactly when there is no start date or the title is all white space. |
| Form.SubmitDispatches | src/components/EventForm.tsx:80-106 | onUpdateEvent runs with the edited id when editing, onAddEvent otherwise. The trimmed title and description, the start, the end or else the start, and both times are sent. The form is left blank. |
| Form.SubmitSendsTrimmedTitle | src/components/EventForm.tsx:82-87 | The title a callback receives is non-empty and neither starts nor ends with white space. |
| Form.View | src/components/EventForm.tsx:108-187 | Nothing is rendered without a start date. The heading is Edit Event iff editing. The date line shows the selected start date. The label says Date Range iff an end date is selected, and the range shows that end date. The button says Update Event iff editing and Add Event otherwise. |
| Form.EventForm.constructor | src/components/EventForm.tsx:29-32 | A mounted form starts blank with 09:00–10:00. |
| Form.EventForm.SetTitle | src/components/EventForm.tsx:145 | Only the title changes. |
| Form.EventForm.SetDescription | src/components/EventForm.tsx:156 | Only the description changes. |
| Form.EventForm.SelectionChanged | src/components/EventForm.tsx:34-48 | The fields become Populated(editingEvent). |
| Form.EventForm.HandleStartTimeChange | src/components/EventForm.tsx:56-62 | The fields become StartTimeChanged of the old fields, and the end stays non-empty. |
| Form.EventForm.HandleEndTimeChange | src/components/EventForm.tsx:64-69 | The fields become EndTimeChanged of the old fields. |
| Form.EventForm.HandleSubmit | src/components/EventForm.tsx:80-106 | The callback reached and the new fields are those Submit gives for the old fields. |
| EventListView.HeadingPriority | src/components/EventList.tsx:36-45 | A range is shown iff both ends are selected. Otherwise the selected date wins over a lone start, and with neither there is no header. |
| EventListView.HeadingText | src/components/EventList.tsx:36-45 | The range text is the short start, " - ", then the short end. A single day uses the long format. No header gives "". |
| EventListView.FormatTime | src/components/EventList.tsx:47-50 | Gives "" exactly for an absent or empty time, and the time itself otherwise. |
| EventListView.TimeLineShape | src/components/EventList.tsx:74-79 | " - end" is shown exactly when the end time is set, non-empty and different from the start. |
| EventListView.MultiDayBadge | src/components/EventList.tsx:85-95 | The badge shows iff an end date is a different moment from the start. At midnight, that means a different calendar day. |
| EventListView.CountLabelReadsBack | src/components/EventList.tsx:101-103 | The count line is String(n) followed by " event" when n is 1 and " events" otherwise. Its leading digits read back as n, and it ends in `s` iff n is not 1. |
| EventListView.Render | src/components/EventList.tsx:14-17 | Nothing is rendered exactly when there are no events. Otherwise there is one row per event in order, each reporting its event on click, under the header of the selection. |
| EventListView.RenderRows | src/components/EventList.tsx:67-103 | Each row shows its event's time line and title, the description only when non-empty, and the end date only for a multi-day event. The count reads back as the number of events. |

## Left out

- Locale formatting (`toLocaleDateString`) is not modelled. This covers month names, the list and form date lines, and the "Until" date. The list header takes the two formatters as parameters. The list and the form keep the dates themselves, unformatted: the list its heading dates and each event's end date, the form its start date and its end date.
- `new Date()` with no arguments reads the clock. The provider's initial month and `isToday`'s current moment are parameters instead.
- Time zones and daylight saving are not modelled. The local calendar day and time of day are taken as the time value, so `getTime` is the local day number times 86 400 000 plus the milliseconds.
- JsDates.JsDate: the Date's valid range (±8.64·10¹⁵ ms) and the invalid (NaN) Date are not modelled. Every date here is a valid one.
- Rendering is not modelled: JSX markup (including the fixed Sun–Sat header row of the grid), CSS, element keys, React's state scheduling and batching, `e.preventDefault()`, and the close buttons, which only call `onClose`. Each handler is modelled as the state change it requests.
- HTML constraint validation is not modelled. The title input is `required` and the end input has `min={startTime}`, so a browser can refuse a submit before `handleSubmit` runs: with an empty title, or with an end before the start, such as the wrapped end of a start from 23:00 on. Form.SubmitDispatches and Form.EventForm.HandleSubmit describe `handleSubmit` once it runs.
- App.tsx shows the calendar only to a signed-in user and renders just `Calendar` inside `CalendarProvider`. CalendarHeader only forwards its button clicks. No shown file renders EventForm or EventList, so their props and callbacks are parameters.
- The `DateInfo` type is declared but never used, so it is not modelled.
- Types.CalendarEvent: src/types/index.ts declares only id, title, date and description. EventForm and EventList also read startTime, endTime and endDate, so the model gives the event these three as optional fields.
- Form.AddOneHour: defined only on the HH:MM strings a time input reports. `Number` on other strings, which yields NaN, is not modelled.
- Form.EventForm.HandleStartTimeChange: accepts HH:MM or the empty string (a cleared input). Other strings are not modelled.
- Text.StrLt: compares characters by code point. JavaScript compares UTF-16 code units; the two orders differ only outside the Basic Multilingual Plane, which HH:MM strings never reach.
- Asynchronous failures of the `onAddEvent` and `onUpdateEvent` callbacks are not modelled. A call is recorded as the callback reached.
- Range selection: the month grid selects a single day, and in the store `selectedDate` is the only selection. The form's and the list's start and end dates are parameters.

## Findings

| source | as written | input that shows it | evidently intended | confidence | as-written member | corrected member |
|---|---|---|---|---|---|---|
| src/components/Calendar.tsx:33-43 | The Previous and Next buttons call `setMonth(getMonth() ∓ 1)` on a copy of the shown moment. That keeps its day of the month, and MakeDay carries a day the target month lacks into the month after it. | The shown moment is 31 March 2023 and Previous is pressed: the result is 3 March 2023, so March is shown again. The shown moment is 31 January 2023 and Next is pressed: the result is 3 March 2023, so February is skipped. | Each button shows the neighbouring month. | not executed | MonthView.MonthMovesMissTheirMonth | MonthView.AdjacentMonth |
| src/components/Calendar.tsx:10-27 | getDaysInMonth and getFirstDayOfMonth pass `getFullYear()` back to `new Date(year, …)`. The constructor reads a year from 0 to 99 as 1900 + year, while `setMonth` and the month name keep the Date's own year. | The shown moment is 1 February of year 0, reachable by pressing Previous from today. The grid lists the 28 days of February 1900 and starts on 1900's weekday, although February of year 0 has 29 days. | The grid lists the days of the shown month of the shown year. | not executed | MonthView.GridOfYearZeroShows1900 | MonthView.IntendedMonthDays |

The store handlers `MonthView.HandlePrevMonth` and `MonthView.HandleNextMonth`
model the code as written. `MonthView.AdjacentMonth` always lands in the
neighbouring month, as its contract states, and
`MonthView.AdjacentMonthAgreesWhenDayExists` proves it agrees with the
written code on every day up to the 28th, and on any day the neighbouring
month has. Likewise the grid models getDaysInMonth as written, and
`MonthView.IntendedMonthDaysAgree` proves the intended days agree with it
exactly outside the years 0 to 99. `MonthView.IntendedFirstDayAgrees` proves
the same of the grid's first column, getFirstDayOfMonth.
