/**
  The calendar component's view state and the handlers that change it: month and
  year navigation, picking and closing a day, showing the add-event form, editing
  it, submitting it and clearing it.
 */
module CalendarApp {
  import opened Options
  import opened Gregorian
  import opened DateText
  import opened Events

  /** The form inputs the user can type into (the form has no date input). */
  datatype FormField = Title | StartTime | EndTime | Description

  class CalendarView {
    /** The displayed month. */
    var currentMonth: YearMonth
    /** The day whose event list is open, if any. */
    var selectedDate: Option<Date>
    var showAddEventForm: bool
    /** The event store: the initial fixture followed by the submitted events. */
    var events: seq<Event>
    /** The add-event form buffer. */
    var newEvent: Event
    /** The events the store was created with. */
    ghost var fixture: seq<Event>
    /** The events added through the form since then. */
    ghost var submitted: seq<Event>

    /**
      The store is the fixture followed by events that passed the submit checks,
      and a selection is always a real date.
     */
    ghost predicate Valid()
      reads this
    {
      events == fixture + submitted
      && AllAccepted(submitted)
      && (selectedDate.Some? ==> ValidDate(selectedDate.value))
    }

    /** The initial state: today's month, nothing selected, the form hidden and set to today. */
    constructor (today: Date, initialEvents: seq<Event>)
      requires ValidDate(today)
      ensures Valid()
      ensures currentMonth == YearMonth(today.year, today.month)
      ensures selectedDate == None && !showAddEventForm
      ensures events == initialEvents && fixture == initialEvents && submitted == []
      ensures newEvent == FormDefaults(FormatDate(today))
    {
      currentMonth := YearMonth(today.year, today.month);
      selectedDate := None;
      showAddEventForm := false;
      events := initialEvents;
      newEvent := FormDefaults(FormatDate(today));
      fixture := initialEvents;
      submitted := [];
    }

    method PrevYear()
      requires Valid()
      modifies this`currentMonth
      ensures Valid()
      ensures currentMonth == Gregorian.PrevYear(old(currentMonth))
    {
      currentMonth := Gregorian.PrevYear(currentMonth);
    }

    method PrevMonth()
      requires Valid()
      modifies this`currentMonth
      ensures Valid()
      ensures currentMonth == Gregorian.PrevMonth(old(currentMonth))
    {
      currentMonth := Gregorian.PrevMonth(currentMonth);
    }

    method NextMonth()
      requires Valid()
      modifies this`currentMonth
      ensures Valid()
      ensures currentMonth == Gregorian.NextMonth(old(currentMonth))
    {
      currentMonth := Gregorian.NextMonth(currentMonth);
    }

    method NextYear()
      requires Valid()
      modifies this`currentMonth
      ensures Valid()
      ensures currentMonth == Gregorian.NextYear(old(currentMonth))
    {
      currentMonth := Gregorian.NextYear(currentMonth);
    }

    /** A click on a grid cell selects its day; a click on a blank cell does nothing. */
    method ClickCell(cell: Option<Date>)
      requires Valid()
      requires cell.Some? ==> ValidDate(cell.value)
      modifies this`selectedDate
      ensures Valid()
      ensures selectedDate == if cell.Some? then cell else old(selectedDate)
    {
      if cell.Some? {
        selectedDate := cell;
      }
    }

    /** The close button of the side panel drops the selection. */
    method CloseSelectedDay()
      requires Valid()
      modifies this`selectedDate
      ensures Valid()
      ensures selectedDate == None
    {
      selectedDate := None;
    }

    method ToggleAddEventForm()
      requires Valid()
      modifies this`showAddEventForm
      ensures Valid()
      ensures showAddEventForm == !old(showAddEventForm)
    {
      showAddEventForm := !showAddEventForm;
    }

    /** Typing into one form input replaces that field of the buffer and no other. */
    method EditField(field: FormField, value: string)
      requires Valid()
      modifies this`newEvent
      ensures Valid()
      ensures newEvent.date == old(newEvent.date)
      ensures newEvent == match field
        case Title => old(newEvent).(title := value)
        case StartTime => old(newEvent).(startTime := value)
        case EndTime => old(newEvent).(endTime := value)
        case Description => old(newEvent).(description := value)
    {
      match field
      case Title => newEvent := newEvent.(title := value);
      case StartTime => newEvent := newEvent.(startTime := value);
      case EndTime => newEvent := newEvent.(endTime := value);
      case Description => newEvent := newEvent.(description := value);
    }

    /**
      Submitting the form.  A refused submission changes nothing.  An accepted one
      appends the buffer to the store, hides the form, selects the event's day
      (whose list then ends with the new event) and resets the buffer, keeping
      its date.
     */
    method SubmitEvent() returns (outcome: Option<SubmitError>)
      requires Valid()
      modifies this`events, this`submitted, this`showAddEventForm, this`selectedDate, this`newEvent
      ensures Valid()
      ensures outcome == CheckSubmission(old(newEvent))
      ensures outcome.Some? ==>
        events == old(events) && showAddEventForm == old(showAddEventForm)
        && selectedDate == old(selectedDate) && newEvent == old(newEvent)
      ensures outcome.None? ==>
        events == old(events) + [old(newEvent)] && !showAddEventForm
        && selectedDate == ParseDate(old(newEvent.date))
        && newEvent == FormDefaults(old(newEvent.date))
      ensures outcome.None? && selectedDate.Some? ==>
        EventsForDate(events, selectedDate) == EventsForDate(old(events), selectedDate) + [old(newEvent)]
    {
      outcome := CheckSubmission(newEvent);
      if outcome.None? {
        var e := newEvent;
        AcceptedAppend(submitted, e);
        assert events + [e] == fixture + (submitted + [e]);
        events := events + [e];
        submitted := submitted + [e];
        showAddEventForm := false;
        selectedDate := ParseDate(e.date);
        newEvent := FormDefaults(e.date);
        assert events == fixture + submitted;
        assert AllAccepted(submitted);
        assert selectedDate.Some? ==> ValidDate(selectedDate.value);
        if selectedDate.Some? {
          SubmittedEventListed(old(events), e);
        }
        assert Valid();
      } else {
        assert Valid();
      }
    }

    /** The Clear button: the buffer is reset to the selected day, or to today when none is selected. */
    method ClearForm(today: Date)
      requires Valid()
      requires ValidDate(today)
      modifies this`newEvent
      ensures Valid()
      ensures newEvent == FormDefaults(FormatDate(if selectedDate.Some? then selectedDate.value else today))
    {
      var date := if selectedDate.Some? then FormatDate(selectedDate.value) else FormatDate(today);
      newEvent := FormDefaults(date);
    }
  }
}
