# Calendar widget: month grid, event lookup and event store

A Dafny model of the logic inside the single-page calendar component
(`src/App.jsx`). The component shows one month as a seven-column grid. The
grid starts with blank cells up to the weekday of the 1st, followed by one
cell per day. Clicking a day opens that day's list of events. A side-panel
form adds a new event. The model covers:

- **Calendar arithmetic** (`gregorian.dfy`, module `Gregorian`). It replaces
  the date library with the proleptic Gregorian calendar: leap years, days in a
  month, a serial day number, the weekday (0 = Sunday), and moving the
  displayed month or year.
- **Date and time text** (`date_text.dfy`, module `DateText`). A date's
  `YYYY-MM-DD` key is the text events are stored under. The module also reads
  that text back into a date, defines the `HH:MM` times the form uses, and
  gives JavaScript's ordering of strings.
- **The month grid** (`month_grid.dfy`, module `MonthGrid`). The two loops
  that fill `calendarDays` become a method with loop invariants.
- **Events** (`events.dfy`, module `Events`). This holds the event record, the
  lookup of a day's events (`getEventsForDate`), the two submit checks, and the
  form's reset values.
- **The view state** (`calendar_view.dfy`, module `CalendarApp`). A class holds
  the state the component keeps: displayed month, selected day, form
  visibility, event store and form buffer. Each handler is a method that
  changes those fields.

"Today" is a parameter wherever the component reads the clock. The initial
event list (the JSON fixture) is a constructor argument.

Two behaviours of the source are modelled as written:

- Selecting a day does not change the form's date. A submitted event goes to
  the date held in the form buffer: today's date at start-up, the submitted
  event's date after a submit, or the selected day after Clear. See
  `CalendarView.EditField`, `SubmitEvent` and `ClearForm`.
- The submit check compares times as strings. `Events.CheckSubmissionOnClockTimes`
  proves this matches chronological order for `HH:MM` times.

## Model

| member | source | states |
|---|---|---|
| `Gregorian.DaysInMonth` | src/App.jsx:45 | every month has between 28 and 31 days (with `YearEnd`, the twelve lengths add up to the year's 365 or 366 days) |
| `Gregorian.YearEnd` | src/App.jsx:45 | the twelve month lengths add up to 365 or 366 days, and the next year starts the day after the last day of December |
| `Gregorian.LeapCount` | src/App.jsx:45 | a year has 366 days exactly when it is divisible by 4 and either not by 100 or by 400 |
| `Gregorian.Weekday` | src/App.jsx:44 | the weekday of a date is in 0..6, with 0 = Sunday |
| `Gregorian.StartDay` | src/App.jsx:43-44 | the number of leading blanks, which is the weekday of the 1st, is in 0..6 |
| `Gregorian.NextDay` | src/App.jsx:44-45 | the day after a valid date is a valid date, and its day number is one more |
| `Gregorian.NextDayWeekday` | src/App.jsx:44 | consecutive dates fall on consecutive weekdays (mod 7) |
| `Gregorian.WeekdayInMonth` | src/App.jsx:44-48 | day d of a month falls d-1 weekdays after the 1st |
| `Gregorian.KnownWeekdays` | src/App.jsx:44 | the weekday numbering agrees with the calendar: 1970-01-01 is a Thursday and 2024-01-01 a Monday |
| `Gregorian.FourHundredYearCycle` | src/App.jsx:44-45 | calendar sanity check of the arithmetic behind the grid, not used by the component: month lengths and weekdays repeat every 400 years |
| `Gregorian.CycleYears` | src/App.jsx:44 | calendar sanity check, not used by the component: 400 years are exactly 20871 weeks |
| `Gregorian.CycleMonths` | src/App.jsx:45 | calendar sanity check, not used by the component: the offset of each month from the start of its year is the same 400 years later |
| `Gregorian.MonthIndexInjective` | src/App.jsx:112-136 | a (year, month) pair is determined by its running month count |
| `Gregorian.NextMonth` | src/App.jsx:129 | the next-month button moves the displayed month one month forward, including from December to January of the next year |
| `Gregorian.PrevMonth` | src/App.jsx:119 | the previous-month button moves the displayed month one month back, including from January to December of the year before |
| `Gregorian.NextYear` | src/App.jsx:136 | the next-year button moves the displayed month twelve months forward |
| `Gregorian.PrevYear` | src/App.jsx:112 | the previous-year button moves the displayed month twelve months back |
| `Gregorian.NavigationRoundTrips` | src/App.jsx:112-136 | previous and next month undo each other, and so do previous and next year |
| `DateText.NatText` | src/App.jsx:55 | the decimal text of a number is a non-empty string of digits |
| `DateText.NatTextValue` | src/App.jsx:55 | the decimal text of a number reads back as that number |
| `DateText.NatTextLength` | src/App.jsx:55 | a number below 10^k has at most k digits |
| `DateText.LeadingZerosValue` | src/App.jsx:55 | padding with leading zeros does not change a number's value |
| `DateText.TwoDigitsValue` | src/App.jsx:55 | the two-digit month or day field reads back as the month or day |
| `DateText.YearTextValue` | src/App.jsx:55 | for years 0..9999 the `YYYY` field is four digits and reads back as the year |
| `DateText.FormatDate` | src/App.jsx:55 | the `YYYY-MM-DD` text of a date. For years 0..9999 it is ten characters with dashes at places 4 and 7, and its three digit fields read back as the year, month and day (with `ParseDate` it reads back both ways, see the two round trips) |
| `DateText.ParseDate` | src/App.jsx:75 | reading a date string gives, when it succeeds, a real date with a non-negative year |
| `DateText.ParseFormatRoundTrip` | src/App.jsx:75 | every date with a four-digit year reads back from its `YYYY-MM-DD` text |
| `DateText.PadNatText` | src/App.jsx:75 | a digit string equals its value's text padded back to its own length |
| `DateText.TwoDigitsOfText` | src/App.jsx:75 | a two-digit field equals the text printed for its value |
| `DateText.FormatParseRoundTrip` | src/App.jsx:75 | only canonical text parses: a date string that reads back is exactly the text of the date it gives |
| `DateText.LexLess` | src/App.jsx:69 | JavaScript's `<` on strings: no string is below itself, and a proper prefix is below the longer string. For `HH:MM` times it is chronological order (`ClockTimeOrder`) |
| `DateText.LexLessTotal` | src/App.jsx:69 | string order is trichotomous: of two different strings exactly one is below the other |
| `DateText.LexLessTransitive` | src/App.jsx:69 | string order is transitive. With `LexLess` irreflexive and `LexLessTotal`, the submit check's comparison is a strict total order |
| `DateText.MinuteOfDay` | src/App.jsx:69 | an `HH:MM` time is a minute of the day, in 0..1439 |
| `DateText.ClockTimeOrder` | src/App.jsx:69 | for `HH:MM` times, the string order used by the submit check is chronological order (both directions) |
| `MonthGrid.BuildCalendarDays` | src/App.jsx:43-48 | the grid has exactly start-day + days-in-month cells. The first start-day cells are blank. Cell start-day + k holds day k + 1 of the displayed month, so days appear in increasing order. Every day is a real date and sits in the column of its weekday |
| `MonthGrid.AprilTwentyTwenty` | src/App.jsx:43-48 | April 2020 starts on a Wednesday and has 30 days, so `BuildCalendarDays` gives it 3 blanks and 33 cells |
| `Events.WithDate` | src/App.jsx:55 | the filter keeps only events whose date string equals the key, and is no longer than the store |
| `Events.WithDateCounts` | src/App.jsx:55 | the filter keeps every event stored under the key as many times as it occurs, duplicates included, and drops every other event |
| `Events.EventsForDate` | src/App.jsx:53-56 | a blank cell or no selection gives `[]`. A day gives exactly the events whose date string is the day's `YYYY-MM-DD` text, each with its multiplicity in the store |
| `Events.WithDateConcat` | src/App.jsx:55 | filtering two stretches of the store one after the other gives the filter of the whole store |
| `Events.LookupConcat` | src/App.jsx:55 | a day's list keeps store order: lookup distributes over concatenation of the store |
| `Events.LookupAfterAppend` | src/App.jsx:73 | appending an event puts it at the end of its own day's list and leaves every other day's list unchanged |
| `Events.SubmittedEventListed` | src/App.jsx:73-75 | after a submit, the day the view selects lists the new event last, after that day's earlier events |
| `Events.LookupEmpty` | src/App.jsx:53-56 | a day's list is empty if and only if no stored event has that day's date string |
| `Events.CheckSubmission` | src/App.jsx:65-72 | a submission is refused for a missing field if and only if title, date, start or end time is empty. It is accepted if and only if all four are present and the start time is below the end time in string order. Otherwise it is refused because the end is not after the start |
| `Events.AcceptedAppend` | src/App.jsx:73 | appending an event that passed the checks keeps every submitted event one that passed them |
| `Events.CheckSubmissionOnClockTimes` | src/App.jsx:65-72 | with `HH:MM` times, a submission is accepted if and only if it has a title and a date and ends strictly after it starts |
| `Events.RejectsEndBeforeStart` | src/App.jsx:69-72 | 09:00 to 08:00 is refused, and so is 09:00 to 09:00 |
| `Events.FormDefaults` | src/App.jsx:77-83 | the reset form keeps the given date and has an empty title and description. Its times are 09:00 and 10:00 and are in order. It cannot be submitted until a title is typed |
| `CalendarApp.CalendarView.constructor` | src/App.jsx:19-30 | start-up shows today's month with nothing selected and the form hidden. The store is the fixture and the form buffer is reset to today |
| `CalendarApp.CalendarView.PrevYear` | src/App.jsx:112 | the displayed month moves one year back; nothing else changes |
| `CalendarApp.CalendarView.PrevMonth` | src/App.jsx:119 | the displayed month moves one month back; nothing else changes |
| `CalendarApp.CalendarView.NextMonth` | src/App.jsx:129 | the displayed month moves one month forward; nothing else changes |
| `CalendarApp.CalendarView.NextYear` | src/App.jsx:136 | the displayed month moves one year forward; nothing else changes |
| `CalendarApp.CalendarView.ClickCell` | src/App.jsx:160 | clicking a day selects it; clicking a blank cell changes nothing |
| `CalendarApp.CalendarView.CloseSelectedDay` | src/App.jsx:231 | the close button clears the selection |
| `CalendarApp.CalendarView.ToggleAddEventForm` | src/App.jsx:240 | the Add Event button flips the form's visibility |
| `CalendarApp.CalendarView.EditField` | src/App.jsx:58-61 | typing replaces one field of the form buffer. The date and the other fields are kept |
| `CalendarApp.CalendarView.SubmitEvent` | src/App.jsx:63-84 | A refused submit changes nothing: store, selection, form visibility and buffer are unchanged. An accepted submit makes the store the old store plus the buffer, hides the form, selects the event's date and resets the buffer to that date. The selected day's list is then its old list plus the new event. The store stays the fixture followed by accepted events only |
| `CalendarApp.CalendarView.ClearForm` | src/App.jsx:86-94 | the buffer is reset to the selected day, or to today when nothing is selected |

## Left out

- Event colours (`getRandomColor`, `eventColorMap`): they come from `Math.random` and only affect display.
- Rendering, CSS classes, the `alert` pop-ups and React's re-render machinery are not modelled. A refused submit returns the reason as a `SubmitError` value.
- The "today" highlight and the `isSame` comparisons only decide styling.
- The two-events-per-cell truncation and the "+N more" text are presentation only.
- Loading `events.json` is I/O. The fixture is an arbitrary constructor argument, and its events are not assumed to pass the submit checks.
- The clock: "today" is a parameter of the constructor and of `ClearForm`.
- The date library itself is not modelled. Only the calendar facts the component relies on are: days in a month, weekday of the 1st, `YYYY-MM-DD` text, and reading that text back. The model uses true proleptic Gregorian years throughout. The library builds dates through JavaScript's `new Date(y, m, d)`, which maps years 0..99 to 1900..1999; that handling of years 0..99 is not reproduced (it affects the grid of such a year at src/App.jsx:43 and the parsed date at src/App.jsx:75).
- `currentDate` is modelled as a (year, month) pair. The day-of-month that the date library carries and clamps when it adds months does not affect the grid.
- The view draws the Add Event button only while a day is selected (src/App.jsx:212). It draws the form, with its Save and Clear buttons, only while a day is selected and the form is shown (src/App.jsx:250). The model's `ToggleAddEventForm`, `EditField`, `SubmitEvent` and `ClearForm` do not require either condition, so they allow more states than the UI can reach. In particular, the "today" case of `ClearForm` (src/App.jsx:88) cannot be reached from the UI.
- `CalendarApp.CalendarView.SubmitEvent`: the selection after a submit is the parsed date when the form's date text is canonical `YYYY-MM-DD` with a four-digit year. The model's own text for a date with a year in 0..9999 always has that form; for years 0..99 the library's result differs as noted above. For other years the model clears the selection instead of holding the library's "Invalid Date" object.
- `DateText.LexLess` orders strings by Unicode scalar value, not by UTF-16 code unit as JavaScript does. The two orders differ only for characters outside the Basic Multilingual Plane, which `HH:MM` times never contain.
- Month names and the `'MMMM YYYY'` / `'dddd, MMMM D'` display formats are presentation only.
