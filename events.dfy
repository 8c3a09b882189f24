/**
  Events, looking them up by day, and the checks a new event must pass before it
  is added to the store.
 */
module Events {
  import opened Options
  import opened Gregorian
  import opened DateText

  /** An event record; a missing description is the empty string. */
  datatype Event = Event(date: string, startTime: string, endTime: string, title: string, description: string)

  /** The events stored under `key`, in store order. */
  function WithDate(events: seq<Event>, key: string): (r: seq<Event>)
    ensures |r| <= |events|
    ensures forall i | 0 <= i < |r| :: r[i].date == key
    decreases |events|
  {
    if events == [] then []
    else
      var last := events[|events| - 1];
      WithDate(events[..|events| - 1], key) + (if last.date == key then [last] else [])
  }

  /** Every event stored under `key` is kept as often as it occurs, and no other is. */
  lemma {:induction false} WithDateCounts(events: seq<Event>, key: string)
    ensures forall e :: multiset(WithDate(events, key))[e] == if e.date == key then multiset(events)[e] else 0
    decreases |events|
  {
    if events != [] {
      var front, last := events[..|events| - 1], events[|events| - 1];
      assert events == front + [last];
      WithDateCounts(front, key);
    }
  }

  /**
    The events of a day cell: none for a blank cell (or no selection), otherwise
    every event whose date string is the day's `YYYY-MM-DD` text, duplicates included.
   */
  function EventsForDate(events: seq<Event>, date: Option<Date>): (r: seq<Event>)
    requires date.Some? ==> ValidDate(date.value)
    ensures date.None? ==> r == []
    ensures date.Some? ==> forall i | 0 <= i < |r| :: r[i].date == FormatDate(date.value)
    ensures date.Some? ==> forall e :: multiset(r)[e] == if e.date == FormatDate(date.value) then multiset(events)[e] else 0
  {
    match date
    case None => []
    case Some(d) => WithDateCounts(events, FormatDate(d)); WithDate(events, FormatDate(d))
  }

  lemma {:induction false} WithDateConcat(a: seq<Event>, b: seq<Event>, key: string)
    ensures WithDate(a + b, key) == WithDate(a, key) + WithDate(b, key)
    decreases |b|
  {
    if b == [] {
      assert a + b == a;
    } else {
      var b', last := b[..|b| - 1], b[|b| - 1];
      var tail := if last.date == key then [last] else [];
      assert (a + b)[..|a + b| - 1] == a + b' && (a + b)[|a + b| - 1] == last;
      assert WithDate(a + b, key) == WithDate(a + b', key) + tail;
      assert WithDate(b, key) == WithDate(b', key) + tail;
      WithDateConcat(a, b', key);
    }
  }

  /** Lookup keeps store order: it distributes over concatenating two stretches of the store. */
  lemma LookupConcat(a: seq<Event>, b: seq<Event>, date: Option<Date>)
    requires date.Some? ==> ValidDate(date.value)
    ensures EventsForDate(a + b, date) == EventsForDate(a, date) + EventsForDate(b, date)
  {
    if date.Some? {
      WithDateConcat(a, b, FormatDate(date.value));
    }
  }

  /** Appending an event adds it at the end of its own day's list and changes no other day's list. */
  lemma LookupAfterAppend(events: seq<Event>, e: Event, d: Date)
    requires ValidDate(d)
    ensures EventsForDate(events + [e], Some(d))
      == EventsForDate(events, Some(d)) + (if e.date == FormatDate(d) then [e] else [])
  {
    assert (events + [e])[..|events|] == events;
  }

  /**
    An event whose date text parses lands at the end of the list of the day it
    names: the day the view selects after adding it.
   */
  lemma SubmittedEventListed(events: seq<Event>, e: Event)
    requires ParseDate(e.date).Some?
    ensures EventsForDate(events + [e], ParseDate(e.date)) == EventsForDate(events, ParseDate(e.date)) + [e]
  {
    FormatParseRoundTrip(e.date);
    LookupAfterAppend(events, e, ParseDate(e.date).value);
  }

  /** A day with no stored event shows an empty list, and only such a day does. */
  lemma LookupEmpty(events: seq<Event>, d: Date)
    requires ValidDate(d)
    ensures EventsForDate(events, Some(d)) == [] <==> forall i | 0 <= i < |events| :: events[i].date != FormatDate(d)
  {
    var r := EventsForDate(events, Some(d));
    WithDateCounts(events, FormatDate(d));
    if r == [] {
      forall i | 0 <= i < |events| ensures events[i].date != FormatDate(d) {
        assert events[i] in multiset(events);
      }
    } else {
      assert r[0] in multiset(r);
      assert r[0] in multiset(events);
    }
  }

  /** Why a submission is refused, in the order the view checks. */
  datatype SubmitError = MissingField | EndNotAfterStart

  /**
    The submit checks: a required field (title, date, start or end time) left
    empty, then an end time not after the start time in string order.
   */
  function CheckSubmission(e: Event): (r: Option<SubmitError>)
    ensures r == Some(MissingField) <==> e.title == [] || e.date == [] || e.startTime == [] || e.endTime == []
    ensures r == None <==> e.title != [] && e.date != [] && e.startTime != [] && e.endTime != []
                           && LexLess(e.startTime, e.endTime)
  {
    if e.title == [] || e.date == [] || e.startTime == [] || e.endTime == [] then Some(MissingField)
    else if !LexLess(e.startTime, e.endTime) then Some(EndNotAfterStart)
    else None
  }

  /** Every event of `s` passes the submit checks. */
  ghost predicate AllAccepted(s: seq<Event>) {
    forall i | 0 <= i < |s| :: CheckSubmission(s[i]).None?
  }

  /** Appending an accepted event keeps a sequence of accepted events. */
  lemma AcceptedAppend(s: seq<Event>, e: Event)
    requires AllAccepted(s) && CheckSubmission(e).None?
    ensures AllAccepted(s + [e])
  {
    forall i | 0 <= i < |s| + 1 ensures CheckSubmission((s + [e])[i]).None? {
      if i < |s| { assert (s + [e])[i] == s[i]; }
    }
  }

  /**
    On times from a time input the string comparison is the chronological one:
    an event is accepted exactly when it has a title and a date and ends after it starts.
   */
  lemma CheckSubmissionOnClockTimes(e: Event)
    requires IsClockTime(e.startTime) && IsClockTime(e.endTime)
    ensures CheckSubmission(e) ==
      if e.title == [] || e.date == [] then Some(MissingField)
      else if MinuteOfDay(e.startTime) < MinuteOfDay(e.endTime) then None
      else Some(EndNotAfterStart)
  {
    ClockTimeOrder(e.startTime, e.endTime);
  }

  /** An end time equal to or before the start time is refused. */
  lemma RejectsEndBeforeStart()
    ensures CheckSubmission(Event("2024-03-15", "09:00", "08:00", "X", "")) == Some(EndNotAfterStart)
    ensures CheckSubmission(Event("2024-03-15", "09:00", "09:00", "X", "")) == Some(EndNotAfterStart)
  {
    ClockTimeOrder("09:00", "08:00");
    ClockTimeOrder("09:00", "09:00");
  }

  /**
    The form after a reset: the given date, 09:00 to 10:00, empty title and
    description.  It cannot be submitted until a title is typed, and its times are
    in order.
   */
  function FormDefaults(date: string): (e: Event)
    ensures e.date == date && e.title == [] && e.description == []
    ensures CheckSubmission(e) == Some(MissingField)
    ensures IsClockTime(e.startTime) && IsClockTime(e.endTime)
    ensures MinuteOfDay(e.startTime) == 9 * 60 && MinuteOfDay(e.endTime) == 10 * 60
  {
    Event(date, "09:00", "10:00", "", "")
  }
}
