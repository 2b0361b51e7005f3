/**
 * The booking decision: the event loop of `check_calendar`
 * (app_cursor.py:270-369) and `book_appointment` up to the event body it
 * would insert (app_cursor.py:371-414). The calendar's answer for the
 * requested window is the `events` parameter.
 */
module Scheduler {
  import opened Wrappers
  import opened Text
  import opened Sorting
  import opened Clock
  import opened Dates
  import opened Events

  /** One entry of `event_list`. */
  datatype Row = Row(date: string, time: string, event: string, attendees: seq<Attendee>, meetLink: string)

  /** `conflict_details`: the clashing event's display time, summary and attendee emails. */
  datatype ConflictDetails = ConflictDetails(time: string, summary: string, attendees: seq<string>)

  /** What `check_calendar` returns: `(event_list, has_conflict, conflict_details)`. */
  datatype CalendarView = CalendarView(rows: seq<Row>, hasConflict: bool, details: Option<ConflictDetails>)

  /** The error result `([], False, None)`. */
  const Failed := CalendarView([], false, None)

  /** The time every timed event is compared with; an empty `specific_time` asks for none. */
  function Wanted(time: string): Option<string> {
    if time == "" then None else NormalizeTime(time)
  }

  /** `normalized_time == local_dt.strftime("%H:%M")` for a timed event. */
  predicate Clashes(e: Event, wanted: Option<string>) {
    e.start.Timed? && wanted == Some(Canonical(e.start.hour, e.start.minute))
  }

  /** `[attendee.get('email', '') for attendee in event.get('attendees', [])]`. */
  function AttendeeEmails(attendees: seq<Attendee>): (r: seq<string>)
    ensures |r| == |attendees|
    ensures forall i :: 0 <= i < |r| ==> r[i] == EmailOf(attendees[i])
  {
    if attendees == [] then [] else [EmailOf(attendees[0])] + AttendeeEmails(attendees[1..])
  }

  function DetailsOf(e: Event): ConflictDetails
    requires e.start.Timed? && e.summary.Some?
  {
    ConflictDetails(Display12(e.start.hour, e.start.minute), e.summary.value, AttendeeEmails(AttendeesOf(e)))
  }

  function RowOf(e: Event): Row
    requires WellFormed(e) && e.summary.Some?
  {
    var meet := e.hangoutLink.GetOr("No meet link");
    match e.start
    case Timed(_, d, h, m) => Row(FormatDate(d, '/'), Display12(h, m), e.summary.value, AttendeesOf(e), meet)
    case AllDay(raw) => Row(raw, "All day", e.summary.value, AttendeesOf(e), meet)
  }

  /**
   * The loop over `events` as a left fold: `None` once an event without a
   * summary is reached (its `KeyError` ends `check_calendar`).
   */
  function Scan(events: seq<Event>, wanted: Option<string>): Option<CalendarView>
    requires forall e :: e in events ==> WellFormed(e)
  {
    if events == [] then Some(CalendarView([], false, None))
    else
      var e := events[|events| - 1];
      match Scan(events[..|events| - 1], wanted)
      case None => None
      case Some(v) =>
        if e.summary.None? then None
        else
          var clash := Clashes(e, wanted);
          Some(CalendarView(v.rows + [RowOf(e)], v.hasConflict || clash, if clash then Some(DetailsOf(e)) else v.details))
  }

  /**
   * A day `pytz`'s `localize` can place: it looks one day either side of
   * the wall-clock time, which overflows on the first and the last day
   * Python's `datetime` can hold.
   */
  predicate Localizable(d: Date) {
    d != Date(1, 1, 1) && d != Date(9999, 12, 31)
  }

  /** No date was given, or it reads as a day `localize` can place. */
  predicate DateAccepted(date: string, year: nat) {
    date == "" || (ResolveDate(date, year).Some? && Localizable(ResolveDate(date, year).value))
  }

  /** `check_calendar(service, date, time)` given the events the calendar returns. */
  function CheckSpec(date: string, time: string, events: seq<Event>, year: nat): CalendarView
    requires forall e :: e in events ==> WellFormed(e)
  {
    if !DateAccepted(date, year) then Failed
    else
      match Scan(events, Wanted(time))
      case None => Failed
      case Some(v) => v
  }

  /** A missing summary anywhere ends the whole scan. */
  lemma {:induction false} ScanFailureSticks(events: seq<Event>, n: nat, wanted: Option<string>)
    requires forall e :: e in events ==> WellFormed(e)
    requires n <= |events| && Scan(events[..n], wanted).None?
    ensures Scan(events, wanted).None?
    decreases |events| - n
  {
    if n == |events| {
      assert events[..n] == events;
    } else {
      assert events[..n + 1][..n] == events[..n];
      ScanFailureSticks(events, n + 1, wanted);
    }
  }

  /** One more event with a summary extends the scan by its row and its clash. */
  lemma ScanStep(events: seq<Event>, i: nat, wanted: Option<string>, v: CalendarView)
    requires forall e :: e in events ==> WellFormed(e)
    requires i < |events| && Scan(events[..i], wanted) == Some(v) && events[i].summary.Some?
    ensures Scan(events[..i + 1], wanted) == Some(CalendarView(
      v.rows + [RowOf(events[i])],
      v.hasConflict || Clashes(events[i], wanted),
      if Clashes(events[i], wanted) then Some(DetailsOf(events[i])) else v.details))
  {
    assert events[..i + 1][..i] == events[..i];
  }

  /** The step that fails: an event without a summary. */
  lemma ScanStop(events: seq<Event>, i: nat, wanted: Option<string>)
    requires forall e :: e in events ==> WellFormed(e)
    requires i < |events| && events[i].summary.None?
    ensures Scan(events, wanted).None?
  {
    assert events[..i + 1][..i] == events[..i];
    ScanFailureSticks(events, i + 1, wanted);
  }

  /**
   * `check_calendar`: resolve the date (an unreadable date gives
   * `([], False, None)`), then walk the events, recording a row for each and
   * the last event whose local `HH:MM` equals the normalised requested time.
   */
  method CheckCalendar(date: string, time: string, events: seq<Event>, year: nat) returns (view: CalendarView)
    requires forall e :: e in events ==> WellFormed(e)
    ensures view == CheckSpec(date, time, events, year)
  {
    if date != "" {
      var resolved := ResolveDate(date, year);
      if resolved.None? || !Localizable(resolved.value) {
        return Failed;
      }
    }
    var scanned := ScanEvents(events, time);
    match scanned {
      case None => return Failed;
      case Some(v) => return v;
    }
  }

  /**
   * The loop of `check_calendar` over the listed events: `None` stands for
   * the `KeyError` of an event without a summary.
   */
  method ScanEvents(events: seq<Event>, time: string) returns (r: Option<CalendarView>)
    requires forall e :: e in events ==> WellFormed(e)
    ensures r == Scan(events, Wanted(time))
  {
    var rows: seq<Row> := [];
    var hasConflict := false;
    var details: Option<ConflictDetails> := None;
    ghost var wanted := Wanted(time);
    var i := 0;
    assert events[..0] == [];
    while i < |events|
      invariant 0 <= i <= |events|
      invariant Scan(events[..i], wanted) == Some(CalendarView(rows, hasConflict, details))
    {
      ghost var before := CalendarView(rows, hasConflict, details);
      var ok;
      ok, rows, hasConflict, details := VisitEvent(events[i], time, rows, hasConflict, details);
      if !ok {
        ScanStop(events, i, wanted);
        return None;
      }
      ScanStep(events, i, wanted, before);
      i := i + 1;
    }
    assert events[..i] == events;
    return Some(CalendarView(rows, hasConflict, details));
  }

  /**
   * One pass of the loop in `check_calendar`: the event's row goes on the
   * list, and a timed event at the requested time becomes the conflict.
   * `ok` is false when the event has no summary (the `KeyError`).
   */
  method VisitEvent(e: Event, time: string, rows: seq<Row>, hasConflict: bool, details: Option<ConflictDetails>)
    returns (ok: bool, rows': seq<Row>, hasConflict': bool, details': Option<ConflictDetails>)
    requires WellFormed(e)
    ensures ok <==> e.summary.Some?
    ensures ok ==> rows' == rows + [RowOf(e)]
    ensures ok ==> hasConflict' == (hasConflict || Clashes(e, Wanted(time)))
    ensures ok ==> details' == if Clashes(e, Wanted(time)) then Some(DetailsOf(e)) else details
  {
    rows', hasConflict', details' := rows, hasConflict, details;
    var eventTime, eventDate;
    match e.start {
      case Timed(_, d, h, m) =>
        eventTime := Display12(h, m);
        eventDate := FormatDate(d, '/');
        if time != "" {
          var normalized := NormalizeTime(time);
          if normalized == Some(Canonical(h, m)) {
            if e.summary.None? {
              return false, rows', hasConflict', details';
            }
            hasConflict' := true;
            details' := Some(ConflictDetails(eventTime, e.summary.value, AttendeeEmails(AttendeesOf(e))));
          }
        }
      case AllDay(raw) =>
        eventTime := "All day";
        eventDate := raw;
    }
    if e.summary.None? {
      return false, rows', hasConflict', details';
    }
    var row := Row(eventDate, eventTime, e.summary.value, AttendeesOf(e), e.hangoutLink.GetOr("No meet link"));
    rows' := rows' + [row];
    ok := true;
  }

  /**
   * `check_calendar` gives `([], False, None)` when an event lacks a summary
   * or the date is unreadable, and otherwise the view the scan builds, which
   * then exists.
   */
  lemma CheckSpecOutcome(date: string, time: string, events: seq<Event>, year: nat)
    requires forall e :: e in events ==> WellFormed(e)
    ensures (exists i :: 0 <= i < |events| && events[i].summary.None?) ==> CheckSpec(date, time, events, year) == Failed
    ensures !DateAccepted(date, year) ==> CheckSpec(date, time, events, year) == Failed
    ensures DateAccepted(date, year) && (forall i :: 0 <= i < |events| ==> events[i].summary.Some?) ==>
      Scan(events, Wanted(time)).Some? && CheckSpec(date, time, events, year) == Scan(events, Wanted(time)).value
  {
    ScanSucceeds(events, Wanted(time));
  }

  /** The index of the last clashing event among the first `n`, if any. */
  function LastClash(events: seq<Event>, n: nat, wanted: Option<string>): (r: Option<nat>)
    requires n <= |events|
    ensures r.None? ==> forall i :: 0 <= i < n ==> !Clashes(events[i], wanted)
    ensures r.Some? ==> r.value < n && Clashes(events[r.value], wanted)
    ensures r.Some? ==> forall i :: r.value < i < n ==> !Clashes(events[i], wanted)
  {
    if n == 0 then None
    else if Clashes(events[n - 1], wanted) then Some(n - 1)
    else LastClash(events, n - 1, wanted)
  }

  /** The scan fails exactly when some event has no summary. */
  lemma {:induction false} ScanSucceeds(events: seq<Event>, wanted: Option<string>)
    requires forall e :: e in events ==> WellFormed(e)
    ensures Scan(events, wanted).Some? <==> forall i :: 0 <= i < |events| ==> events[i].summary.Some?
  {
    if events != [] {
      var n := |events| - 1;
      var init := events[..n];
      assert forall e :: e in init ==> e in events;
      ScanSucceeds(init, wanted);
      assert forall i :: 0 <= i < n ==> init[i] == events[i];
    }
  }

  /** When the scan succeeds there is one row per event, in order. */
  lemma {:induction false} ScanRows(events: seq<Event>, wanted: Option<string>)
    requires forall e :: e in events ==> WellFormed(e)
    requires Scan(events, wanted).Some?
    ensures forall i :: 0 <= i < |events| ==> events[i].summary.Some?
    ensures |Scan(events, wanted).value.rows| == |events|
    ensures forall i :: 0 <= i < |events| ==> Scan(events, wanted).value.rows[i] == RowOf(events[i])
  {
    if events != [] {
      var n := |events| - 1;
      var init := events[..n];
      ScanLast(events, wanted);
      ScanRows(init, wanted);
      var rows0 := Scan(init, wanted).value.rows;
      var rows := Scan(events, wanted).value.rows;
      assert rows == rows0 + [RowOf(events[n])];
      forall i | 0 <= i < n ensures events[i].summary.Some? && rows[i] == RowOf(events[i]) {
        assert init[i] == events[i];
        assert rows[i] == rows0[i];
      }
    }
  }

  /** A successful scan is the scan of all but the last event, extended by the last one. */
  lemma ScanLast(events: seq<Event>, wanted: Option<string>)
    requires forall e :: e in events ==> WellFormed(e)
    requires events != [] && Scan(events, wanted).Some?
    ensures var n := |events| - 1;
      && (forall e :: e in events[..n] ==> WellFormed(e))
      && Scan(events[..n], wanted).Some?
      && events[n].summary.Some?
      && var v := Scan(events[..n], wanted).value;
      Scan(events, wanted).value == CalendarView(
        v.rows + [RowOf(events[n])],
        v.hasConflict || Clashes(events[n], wanted),
        if Clashes(events[n], wanted) then Some(DetailsOf(events[n])) else v.details)
  {
    var n := |events| - 1;
    assert forall e :: e in events[..n] ==> e in events;
  }

  /** When the scan succeeds it reports a conflict exactly when some event clashes. */
  lemma {:induction false} ScanConflict(events: seq<Event>, wanted: Option<string>)
    requires forall e :: e in events ==> WellFormed(e)
    requires Scan(events, wanted).Some?
    ensures Scan(events, wanted).value.hasConflict <==> exists i :: 0 <= i < |events| && Clashes(events[i], wanted)
  {
    if events != [] {
      var n := |events| - 1;
      ScanLast(events, wanted);
      ScanConflict(events[..n], wanted);
      ClashInPrefix(events, wanted);
    }
  }

  /** Some event clashes exactly when one before the last does or the last one does. */
  lemma ClashInPrefix(events: seq<Event>, wanted: Option<string>)
    requires events != []
    ensures var n := |events| - 1;
      (exists i :: 0 <= i < |events| && Clashes(events[i], wanted))
      <==> (exists i :: 0 <= i < n && Clashes(events[..n][i], wanted)) || Clashes(events[n], wanted)
  {
    var n := |events| - 1;
    var init := events[..n];
    if exists i :: 0 <= i < |events| && Clashes(events[i], wanted) {
      var i :| 0 <= i < |events| && Clashes(events[i], wanted);
      if i < n {
        assert init[i] == events[i];
      }
    }
    if exists i :: 0 <= i < n && Clashes(init[i], wanted) {
      var i :| 0 <= i < n && Clashes(init[i], wanted);
      assert init[i] == events[i];
    }
  }

  /** When the scan succeeds its details are those of the last clashing event. */
  lemma {:induction false} ScanDetails(events: seq<Event>, wanted: Option<string>)
    requires forall e :: e in events ==> WellFormed(e)
    requires Scan(events, wanted).Some?
    ensures forall i :: 0 <= i < |events| ==> events[i].summary.Some?
    ensures Scan(events, wanted).value.details == match LastClash(events, |events|, wanted)
      case None => None
      case Some(k) => Some(DetailsOf(events[k]))
  {
    ScanSucceeds(events, wanted);
    if events != [] {
      var n := |events| - 1;
      var init := events[..n];
      assert forall e :: e in init ==> e in events;
      ScanDetails(init, wanted);
      PrefixClashAgree(events, n, n, wanted);
      ScanSucceeds(events, wanted);
    }
  }

  /** Only the first `k` events matter to `LastClash(_, k, _)`. */
  lemma {:induction false} PrefixClashAgree(events: seq<Event>, n: nat, k: nat, wanted: Option<string>)
    requires k <= n <= |events|
    ensures LastClash(events[..n], k, wanted) == LastClash(events, k, wanted)
  {
    if k > 0 {
      assert events[..n][k - 1] == events[k - 1];
      PrefixClashAgree(events, n, k - 1, wanted);
    }
  }

  /**
   * `has_conflict` holds exactly when the date is readable, every event has a
   * summary, and some timed event starts at the normalised requested time.
   */
  lemma ConflictExactly(date: string, time: string, events: seq<Event>, year: nat)
    requires forall e :: e in events ==> WellFormed(e)
    ensures CheckSpec(date, time, events, year).hasConflict <==>
      && DateAccepted(date, year)
      && (forall i :: 0 <= i < |events| ==> events[i].summary.Some?)
      && (exists i :: 0 <= i < |events| && Clashes(events[i], Wanted(time)))
  {
    CheckSpecOutcome(date, time, events, year);
    ScanSucceeds(events, Wanted(time));
    if Scan(events, Wanted(time)).Some? {
      ScanConflict(events, Wanted(time));
    }
  }

  /** All-day events never conflict, and neither does a time that does not normalise. */
  lemma NoClashWithoutTimedMatch(date: string, time: string, events: seq<Event>, year: nat)
    requires forall e :: e in events ==> WellFormed(e)
    requires NormalizeTime(time).None? || forall i :: 0 <= i < |events| ==> events[i].start.AllDay?
    ensures !CheckSpec(date, time, events, year).hasConflict
  {
    ConflictExactly(date, time, events, year);
  }

  /**
   * With a readable date and every summary present, `event_list` has one
   * row per event in order; otherwise it is empty.
   */
  lemma RowsOnePerEvent(date: string, time: string, events: seq<Event>, year: nat)
    requires forall e :: e in events ==> WellFormed(e)
    ensures var rows := CheckSpec(date, time, events, year).rows;
      if DateAccepted(date, year) && forall i :: 0 <= i < |events| ==> events[i].summary.Some?
      then |rows| == |events| && forall i :: 0 <= i < |events| ==> rows[i] == RowOf(events[i])
      else rows == []
  {
    CheckSpecOutcome(date, time, events, year);
    ScanSucceeds(events, Wanted(time));
    if Scan(events, Wanted(time)).Some? {
      ScanRows(events, Wanted(time));
    }
  }

  /**
   * `conflict_details` is present exactly with a conflict, and then it
   * describes the last clashing event: the loop overwrites earlier ones.
   */
  lemma DetailsFromLastClash(date: string, time: string, events: seq<Event>, year: nat)
    requires forall e :: e in events ==> WellFormed(e)
    ensures var v := CheckSpec(date, time, events, year);
      (v.details.Some? <==> v.hasConflict)
      && (v.hasConflict ==>
            exists k :: 0 <= k < |events| && Clashes(events[k], Wanted(time))
              && events[k].summary.Some?
              && v.details == Some(DetailsOf(events[k]))
              && forall j :: k < j < |events| ==> !Clashes(events[j], Wanted(time)))
  {
    var wanted := Wanted(time);
    CheckSpecOutcome(date, time, events, year);
    ScanSucceeds(events, wanted);
    if DateAccepted(date, year) && Scan(events, wanted).Some? {
      ScanConflict(events, wanted);
      ScanDetails(events, wanted);
      match LastClash(events, |events|, wanted)
      case None =>
      case Some(k) =>
        assert Clashes(events[k], wanted);
    }
  }

  /** A point in local wall-clock time, to the minute. */
  datatype Stamp = Stamp(date: Date, hour: Hour, minute: Minute)

  /** Minutes since the start of 0001-01-01 (day 1). */
  function Minutes(s: Stamp): int
    requires ValidDate(s.date)
  {
    (Ordinal(s.date) - 1) * 1440 + s.hour * 60 + s.minute
  }

  /** `start + timedelta(hours=1)`, or `None` when that leaves year 9999. */
  function AddHour(s: Stamp): (r: Option<Stamp>)
    requires ValidDate(s.date)
    ensures r.Some? ==> ValidDate(r.value.date)
  {
    if s.hour < 23 then Some(Stamp(s.date, s.hour + 1, s.minute))
    else match NextDay(s.date)
      case None => None
      case Some(d) => Some(Stamp(d, 0, s.minute))
  }

  /** An hour later is sixty minutes later; only the last hour of 9999-12-31 has none. */
  lemma AddHourMinutes(s: Stamp)
    requires ValidDate(s.date)
    ensures AddHour(s).None? <==> s.date == Date(9999, 12, 31) && s.hour == 23
    ensures AddHour(s).Some? ==> Minutes(AddHour(s).value) == Minutes(s) + 60
  {
    if s.hour == 23 && s.date != Date(9999, 12, 31) {
      NextDayOrdinal(s.date);
    }
  }

  /** The event `book_appointment` would insert. */
  datatype EventBody = EventBody(summary: string, start: Stamp, end: Stamp, attendees: seq<string>)

  /**
   * The outcome of `book_appointment`: the conflict message, the invalid-time
   * message, an exception out of `strptime` or the date arithmetic, or the
   * event to insert.
   */
  datatype Booking =
    | Blocked(details: ConflictDetails)
    | InvalidTime
    | Raises
    | Insert(body: EventBody)

  /** `[email for email in attendees if email]`. */
  function NonEmpty(attendees: seq<string>): seq<string> {
    Filter(attendees, (a: string) => a != "")
  }

  /**
   * `strptime(f"{date} {display}", "%m/%d/%Y %I:%M %p")`: the date, then
   * whitespace and the 12-hour clock reading.
   */
  function ParseDateTime(text: string): Option<Stamp> {
    match ParseDatePrefix(text, '/')
    case None => None
    case Some((d, rest)) =>
      match ParseSpacedClock12(rest)
      case None => None
      case Some((h, m)) => Some(Stamp(d, h, m))
  }

  /** What `book_appointment` does once no conflict was found. */
  function Schedule(date: string, time: string, attendees: seq<string>, summary: string): Booking {
    match NormalizeClock(time)
    case None => InvalidTime
    case Some((h, m)) =>
      match ParseDateTime(date + " " + Display12(h, m))
      case None => Raises
      case Some(start) =>
        if !Localizable(start.date) then Raises
        else
        match AddHour(start)
        case None => Raises
        case Some(end) => Insert(EventBody(summary, start, end, NonEmpty(attendees)))
  }

  /** `book_appointment(service, date, time, attendees, summary)` up to the event body. */
  function Book(date: string, time: string, attendees: seq<string>, summary: string, events: seq<Event>, year: nat): Booking
    requires forall e :: e in events ==> WellFormed(e)
  {
    var view := CheckSpec(date, time, events, year);
    if view.hasConflict then
      DetailsFromLastClash(date, time, events, year);
      Blocked(view.details.value)
    else
      Schedule(date, time, attendees, summary)
  }

  /** Nothing is built when there is a conflict or the time does not normalise. */
  lemma BookOnlyWhenFree(date: string, time: string, attendees: seq<string>, summary: string, events: seq<Event>, year: nat)
    requires forall e :: e in events ==> WellFormed(e)
    ensures CheckSpec(date, time, events, year).hasConflict ==>
      Book(date, time, attendees, summary, events, year).Blocked?
      && CheckSpec(date, time, events, year).details == Some(Book(date, time, attendees, summary, events, year).details)
    ensures !CheckSpec(date, time, events, year).hasConflict && NormalizeTime(time).None? ==>
      Book(date, time, attendees, summary, events, year) == InvalidTime
    ensures Book(date, time, attendees, summary, events, year).Insert? ==>
      !CheckSpec(date, time, events, year).hasConflict && NormalizeTime(time).Some?
  {
    DetailsFromLastClash(date, time, events, year);
  }

  /**
   * A free slot on a full `MM/DD/YYYY` date books the hour from the
   * normalised time on that date, with every non-empty attendee in order.
   */
  lemma BookInsertsTheHour(d: Date, time: string, h: Hour, m: Minute, attendees: seq<string>, summary: string, events: seq<Event>, year: nat)
    requires forall e :: e in events ==> WellFormed(e)
    requires ValidDate(d) && 1000 <= d.year && d != Date(9999, 12, 31)
    requires NormalizeClock(time) == Some((h, m))
    requires !CheckSpec(FormatDate(d, '/'), time, events, year).hasConflict
    ensures var b := Book(FormatDate(d, '/'), time, attendees, summary, events, year);
      && b.Insert?
      && b.body.summary == summary
      && b.body.start == Stamp(d, h, m)
      && Minutes(b.body.end) == Minutes(b.body.start) + 60
      && b.body.attendees == NonEmpty(attendees)
      && (forall a :: a in b.body.attendees <==> a in attendees && a != "")
  {
    ScheduleBooks(d, time, h, m, attendees, summary);
    FilterMembers(attendees, (a: string) => a != "");
  }

  /** The date and the display form of the time read back as the requested start. */
  lemma ParseBookedStart(d: Date, h: Hour, m: Minute)
    requires ValidDate(d) && 1000 <= d.year
    ensures ParseDateTime(FormatDate(d, '/') + " " + Display12(h, m)) == Some(Stamp(d, h, m))
  {
    var display := Display12(h, m);
    FormatDatePrefix(d, '/', " " + display);
    assert FormatDate(d, '/') + " " + display == FormatDate(d, '/') + (" " + display);
    DisplayRoundTrip(h, m);
  }

  /** Once no conflict is found, a readable time on a full date books the hour from it. */
  lemma ScheduleBooks(d: Date, time: string, h: Hour, m: Minute, attendees: seq<string>, summary: string)
    requires ValidDate(d) && 1000 <= d.year && d != Date(9999, 12, 31)
    requires NormalizeClock(time) == Some((h, m))
    ensures var b := Schedule(FormatDate(d, '/'), time, attendees, summary);
      && b.Insert?
      && b.body.summary == summary
      && b.body.start == Stamp(d, h, m)
      && Minutes(b.body.end) == Minutes(b.body.start) + 60
      && b.body.attendees == NonEmpty(attendees)
  {
    var start := Stamp(d, h, m);
    ParseBookedStart(d, h, m);
    AddHourMinutes(start);
    var end := AddHour(start).value;
    assert Schedule(FormatDate(d, '/'), time, attendees, summary) == Insert(EventBody(summary, start, end, NonEmpty(attendees)));
  }

  /**
   * Nothing is booked on a day `localize` cannot place (12/31/9999, the only
   * such day written with four year digits), whatever the hour: it overflows
   * in `check_calendar`, whose `except Exception` gives `([], False, None)`,
   * and again in `book_appointment`, where nothing catches it.
   */
  lemma UnplaceableDayRaises(d: Date, time: string, h: Hour, m: Minute, attendees: seq<string>, summary: string, events: seq<Event>, year: nat)
    requires forall e :: e in events ==> WellFormed(e)
    requires ValidDate(d) && 1000 <= d.year && !Localizable(d)
    requires NormalizeClock(time) == Some((h, m))
    ensures CheckSpec(FormatDate(d, '/'), time, events, year) == Failed
    ensures Book(FormatDate(d, '/'), time, attendees, summary, events, year) == Raises
  {
    FullDateKept(d, year);
    UnplaceableStartRaises(d, time, h, m, attendees, summary);
  }

  lemma UnplaceableStartRaises(d: Date, time: string, h: Hour, m: Minute, attendees: seq<string>, summary: string)
    requires ValidDate(d) && 1000 <= d.year && !Localizable(d)
    requires NormalizeClock(time) == Some((h, m))
    ensures Schedule(FormatDate(d, '/'), time, attendees, summary) == Raises
  {
    ParseBookedStart(d, h, m);
  }

  /** The last day `datetime` can hold, as `MM/DD/YYYY`. */
  lemma LastDayText()
    ensures FormatDate(Date(9999, 12, 31), '/') == "12/31/9999"
  {
  }

  /**
   * A date with a trailing space slips past the conflict check: for
   * `check_calendar` it is unreadable, so no conflict is reported whatever the
   * calendar holds, while the whitespace in `book_appointment`'s format
   * absorbs it and the hour is booked.
   */
  lemma TrailingSpaceSkipsCheck(d: Date, time: string, h: Hour, m: Minute, attendees: seq<string>, summary: string, events: seq<Event>, year: nat)
    requires forall e :: e in events ==> WellFormed(e)
    requires ValidDate(d) && 1000 <= d.year && d != Date(9999, 12, 31)
    requires NormalizeClock(time) == Some((h, m))
    ensures var date := FormatDate(d, '/') + " ";
      && CheckSpec(date, time, events, year) == Failed
      && Book(date, time, attendees, summary, events, year).Insert?
      && Book(date, time, attendees, summary, events, year).body.start == Stamp(d, h, m)
  {
    var date := FormatDate(d, '/') + " ";
    TrailingSpaceUnreadable(d, year);
    CheckSpecOutcome(date, time, events, year);
    TrailingSpaceSchedules(d, time, h, m, attendees, summary);
  }

  lemma TrailingSpaceUnreadable(d: Date, year: nat)
    requires ValidDate(d) && 1000 <= d.year
    ensures !DateAccepted(FormatDate(d, '/') + " ", year)
  {
    var s := FormatDate(d, '/');
    var date := s + " ";
    SlashCount(d);
    CountConcat(s, " ", '/');
    assert date[2] == '/';
    assert SpelledToNumeric(date, year) == date;
    NoDashUnchanged(date);
    assert CompleteDate(date, year) == date;
    FormatDatePrefix(d, '/', " ");
  }

  lemma TrailingSpaceSchedules(d: Date, time: string, h: Hour, m: Minute, attendees: seq<string>, summary: string)
    requires ValidDate(d) && 1000 <= d.year && d != Date(9999, 12, 31)
    requires NormalizeClock(time) == Some((h, m))
    ensures Schedule(FormatDate(d, '/') + " ", time, attendees, summary).Insert?
    ensures Schedule(FormatDate(d, '/') + " ", time, attendees, summary).body.start == Stamp(d, h, m)
  {
    var start := Stamp(d, h, m);
    TrailingSpaceParses(d, h, m);
    AddHourMinutes(start);
    var end := AddHour(start).value;
    assert Schedule(FormatDate(d, '/') + " ", time, attendees, summary) == Insert(EventBody(summary, start, end, NonEmpty(attendees)));
  }

  lemma TrailingSpaceParses(d: Date, h: Hour, m: Minute)
    requires ValidDate(d) && 1000 <= d.year
    ensures ParseDateTime(FormatDate(d, '/') + " " + " " + Display12(h, m)) == Some(Stamp(d, h, m))
  {
    var display := Display12(h, m);
    var rest := "  " + display;
    FormatDatePrefix(d, '/', rest);
    assert FormatDate(d, '/') + " " + " " + display == FormatDate(d, '/') + rest;
    DisplayAfterBlanks(h, m);
  }

  /** The event as the calendar would list it once inserted. */
  function Inserted(body: EventBody, raw: string, meet: Option<string>): Event
    requires ValidDate(body.start.date)
  {
    Event(Timed(raw, body.start.date, body.start.hour, body.start.minute), Some(body.summary),
          Some(seq(|body.attendees|, i requires 0 <= i < |body.attendees| => Attendee(Some(body.attendees[i]), None))), meet)
  }

  /** An empty time never reads as a clock time. */
  lemma EmptyTimeInvalid(t: string)
    requires t == ""
    ensures NormalizeClock(t).None?
  {
    assert Squeeze(t) == "";
    assert AddMinutes("") == "";
  }

  /**
   * Once a booking's event is on the calendar, asking again for the same time
   * is blocked, provided every listed event has a summary.
   */
  lemma BookingTwiceIsBlocked(d: Date, time: string, h: Hour, m: Minute, attendees: seq<string>, summary: string, events: seq<Event>, year: nat, raw: string, meet: Option<string>)
    requires forall e :: e in events ==> WellFormed(e)
    requires forall i :: 0 <= i < |events| ==> events[i].summary.Some?
    requires ValidDate(d) && 1000 <= d.year && d != Date(9999, 12, 31)
    requires NormalizeClock(time) == Some((h, m))
    requires !CheckSpec(FormatDate(d, '/'), time, events, year).hasConflict
    ensures var b := Book(FormatDate(d, '/'), time, attendees, summary, events, year);
      && b.Insert? && b.body.start == Stamp(d, h, m)
      && var again := events + [Inserted(b.body, raw, meet)];
      && (forall e :: e in again ==> WellFormed(e))
      && Book(FormatDate(d, '/'), time, attendees, summary, again, year).Blocked?
  {
    var date := FormatDate(d, '/');
    BookInsertsTheHour(d, time, h, m, attendees, summary, events, year);
    var body := Book(date, time, attendees, summary, events, year).body;
    WantedOf(time, h, m);
    var e := Inserted(body, raw, meet);
    assert WellFormed(e) && Clashes(e, Wanted(time));
    FullDateKept(d, year);
    BlockedAgain(date, time, attendees, summary, events, e, year);
  }

  /** An event with a summary at the requested time, added to a readable day, blocks the booking. */
  lemma BlockedAgain(date: string, time: string, attendees: seq<string>, summary: string, events: seq<Event>, e: Event, year: nat)
    requires forall x :: x in events ==> WellFormed(x)
    requires forall i :: 0 <= i < |events| ==> events[i].summary.Some?
    requires WellFormed(e) && e.summary.Some? && Clashes(e, Wanted(time))
    requires DateAccepted(date, year)
    ensures forall x :: x in events + [e] ==> WellFormed(x)
    ensures Book(date, time, attendees, summary, events + [e], year).Blocked?
  {
    var again := events + [e];
    AppendedClash(events, e, Wanted(time));
    assert forall x :: x in again ==> x in events || x == e;
    ConflictExactly(date, time, again, year);
    BookOnlyWhenFree(date, time, attendees, summary, again, year);
  }

  /** A time that reads as `(h, m)` asks for the events at `h:m`. */
  lemma WantedOf(time: string, h: Hour, m: Minute)
    requires NormalizeClock(time) == Some((h, m))
    ensures Wanted(time) == Some(Canonical(h, m))
  {
    if time == "" {
      EmptyTimeInvalid(time);
    }
  }

  /** A clashing event with a summary, added after events that all have one. */
  lemma AppendedClash(events: seq<Event>, e: Event, wanted: Option<string>)
    requires forall i :: 0 <= i < |events| ==> events[i].summary.Some?
    requires e.summary.Some? && Clashes(e, wanted)
    ensures var again := events + [e];
      && (forall i :: 0 <= i < |again| ==> again[i].summary.Some?)
      && exists i :: 0 <= i < |again| && Clashes(again[i], wanted)
  {
    var again := events + [e];
    assert again[|events|] == e;
    forall i | 0 <= i < |again| ensures again[i].summary.Some? {
      if i < |events| {
        assert again[i] == events[i];
      }
    }
  }
}
