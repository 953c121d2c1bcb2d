/**
 * The event record and the per-event part of `parseEvents`: the two
 * timestamps with their zones, the fallback to the calendar's zone, the
 * default end at 23:59:59 of the start day, the whole-day flag, and which
 * failures are reported as diagnostics and which end the whole parse.
 */
module Events {
  import opened Wrappers
  import opened Text
  import opened Civil
  import opened Timezone
  import opened Dates
  import opened Fields

  /** One event, as `parseEvents` fills it. */
  datatype Event = Event(
    id: string, classification: string, sequence: int, status: string, summary: string,
    description: string, location: string,
    start: Instant, end: Instant, startZone: Zone, endZone: Zone, wholeDay: bool,
    created: Instant, modified: Instant, rrule: string, exDates: seq<Instant>,
    recurrenceId: Instant, attendees: seq<Attendee>, organizer: Attendee)

  /** A non-fatal condition handed to the calendar's trace callback. */
  datatype Diagnostic =
    | UnmappedZone(location: string)
    | CompatibilityMode(original: string, compatible: string)

  /** A condition that ends the whole parse. */
  datatype Failure =
    | DateFailed(property: string, cause: DateError)
    | ExDateFailed(zoneError: ZoneError)
    | RecurrenceIdFailed(cause: DateError)

  /** `DTSTART` and `DTEND` errors that only produce a diagnostic: a zone that fell back to UTC or was found by stripping. */
  predicate Tolerated(e: DateError) {
    e.ZoneErr? && (e.zone.Unmapped? || e.zone.Compatibility?)
  }

  function DiagnosticOf(e: DateError): (d: Diagnostic)
    requires Tolerated(e)
    ensures e.zone.Unmapped? <==> d.UnmappedZone?
  {
    match e.zone
    case Unmapped(loc) => UnmappedZone(loc)
    case Compatibility(o, c) => CompatibilityMode(o, c)
  }

  /** The diagnostics one timestamp contributes. */
  function StampDiagnostics(s: Stamp): (r: seq<Diagnostic>)
    ensures |r| <= 1
    ensures r != [] <==> s.err.Some? && Tolerated(s.err.value)
  {
    if s.err.Some? && Tolerated(s.err.value) then [DiagnosticOf(s.err.value)] else []
  }

  /** The stamp's error, when `parseEvents` gives up on it. */
  predicate Fatal(s: Stamp) {
    s.err.Some? && !Tolerated(s.err.value)
  }

  /** What reading one block gives: the diagnostics traced so far, and the event or the failure. */
  datatype Reading = Reading(diagnostics: seq<Diagnostic>, event: Result<Event, Failure>)

  /** The zone of a timestamp, or the calendar's zone when it has none. */
  function ZoneOr(s: Stamp, fallback: Zone): (z: Zone)
    ensures s.zone.None? ==> z == fallback
    ensures s.zone.Some? ==> z == s.zone.value
  {
    if s.zone.Some? then s.zone.value else fallback
  }

  /** The end of an event: its own when set, else 23:59:59 of the start day. */
  function EndOr(start: Instant, end: Instant): (r: Instant)
    ensures !IsZero(end) ==> r == end
    ensures IsZero(end) ==> DayNumber(r) == DayNumber(start) && Clock(r) == DaySeconds - 1 && start <= r
  {
    if IsZero(end) then (EndOfDayBounds(start); EndOfDay(start)) else end
  }

  /** Both ends at midnight. */
  predicate WholeDay(start: Instant, end: Instant) {
    Clock(start) == 0 && Clock(end) == 0
  }

  /** The text fields of a block, read by the single-field extractors. */
  datatype Details = Details(
    id: string, classification: string, sequence: int, status: string, summary: string,
    description: string, location: string, created: Instant, modified: Instant, rrule: string,
    organizer: Attendee)

  function DetailsOf(block: string): Details {
    Details(EventId(block), Field(block, ClassTag), EventSequence(block), Field(block, StatusTag),
            Field(block, SummaryTag), Field(block, DescriptionTag), Field(block, LocationTag),
            EventCreated(block), EventModified(block), Field(block, RRuleTag), ParseOrganizer(block))
  }

  /** The timestamps, exclusions and recurrence id of a block, each with its possible error. */
  datatype Parts = Parts(start: Stamp, end: Stamp, exDates: Result<seq<Instant>, ZoneError>, recurrenceId: Stamp)

  function PartsOf(db: ZoneDb, block: string): Parts {
    Parts(ParseEventDate(db, "DTSTART", block), ParseEventDate(db, "DTEND", block),
          ExDates(db, ExDateMatches(block, 0)), ParseRecurrenceId(db, block))
  }

  /**
   * The decisions of the loop body of `parseEvents` up to the expansion,
   * in its order: a fatal `DTSTART`, a fatal `DTEND`, a failed exclusion
   * zone, a failed recurrence id; otherwise the event with its defaults,
   * `zone` being the calendar's zone.
   */
  function Decide(zone: Zone, d: Details, p: Parts, attendees: seq<Attendee>): (r: Reading)
    ensures |r.diagnostics| <= 2
    ensures r.event.Err? <==> Fatal(p.start) || Fatal(p.end) || p.exDates.Err? || p.recurrenceId.err.Some?
  {
    var s := p.start;
    var e := p.end;
    if Fatal(s) then Reading([], Err(DateFailed("DTSTART", s.err.value)))
    else if Fatal(e) then Reading(StampDiagnostics(s), Err(DateFailed("DTEND", e.err.value)))
    else
      var diags := StampDiagnostics(s) + StampDiagnostics(e);
      if p.exDates.Err? then Reading(diags, Err(ExDateFailed(p.exDates.error)))
      else if p.recurrenceId.err.Some? then Reading(diags, Err(RecurrenceIdFailed(p.recurrenceId.err.value)))
      else
        var end := EndOr(s.at, e.at);
        Reading(diags, Ok(Event(d.id, d.classification, d.sequence, d.status, d.summary, d.description,
                                d.location, s.at, end, ZoneOr(s, zone), ZoneOr(e, zone), WholeDay(s.at, end),
                                d.created, d.modified, d.rrule, p.exDates.value, p.recurrenceId.at,
                                attendees, d.organizer)))
  }

  /** One block read by the loop body of `parseEvents`, up to the recurrence expansion. */
  function ReadEvent(db: ZoneDb, zone: Zone, block: string): Reading {
    Decide(zone, DetailsOf(block), PartsOf(db, block), KeptAttendees(FoldedAll(block, AttendeeTag, 0)))
  }

  lemma PartsExDates(db: ZoneDb, block: string)
    ensures PartsOf(db, block).exDates == ExDates(db, ExDateMatches(block, 0))
  {
  }

  /** `parseEvents` loop body up to the expansion: the two timestamps first, each tolerated zone error traced. */
  method ReadEventBlock(db: ZoneDb, zone: Zone, block: string) returns (r: Reading)
    ensures r == ReadEvent(db, zone, block)
  {
    var p := PartsOf(db, block);
    var diags, stop := TraceStamps(p.start, p.end);
    if stop.Some? {
      return stop.value;
    }
    r := FinishEvent(db, zone, block, diags);
  }

  /**
   * The two timestamp checks of the loop body: a tolerated zone error is
   * traced and reading goes on, any other error ends the block.
   */
  method TraceStamps(s: Stamp, e: Stamp) returns (diags: seq<Diagnostic>, stop: Option<Reading>)
    ensures stop.None? <==> !Fatal(s) && !Fatal(e)
    ensures Fatal(s) ==> stop == Some(Reading([], Err(DateFailed("DTSTART", s.err.value))))
    ensures !Fatal(s) && Fatal(e) ==> stop == Some(Reading(StampDiagnostics(s), Err(DateFailed("DTEND", e.err.value))))
    ensures stop.None? ==> diags == StampDiagnostics(s) + StampDiagnostics(e)
  {
    diags := [];
    if s.err.Some? {
      if Tolerated(s.err.value) {
        diags := diags + [DiagnosticOf(s.err.value)];
      } else {
        return diags, Some(Reading(diags, Err(DateFailed("DTSTART", s.err.value))));
      }
    }
    assert diags == StampDiagnostics(s);
    if e.err.Some? {
      if Tolerated(e.err.value) {
        diags := diags + [DiagnosticOf(e.err.value)];
      } else {
        return diags, Some(Reading(diags, Err(DateFailed("DTEND", e.err.value))));
      }
    }
    stop := None;
  }

  /** The rest of the loop body once both timestamps are read: exclusions, recurrence id, attendees. */
  method FinishEvent(db: ZoneDb, zone: Zone, block: string, diags: seq<Diagnostic>) returns (r: Reading)
    requires !Fatal(PartsOf(db, block).start) && !Fatal(PartsOf(db, block).end)
    requires diags == StampDiagnostics(PartsOf(db, block).start) + StampDiagnostics(PartsOf(db, block).end)
    ensures r == ReadEvent(db, zone, block)
  {
    var p := PartsOf(db, block);
    var exclusions, exErr := ParseExcludedDates(db, block);
    PartsExDates(db, block);
    if exErr.Some? {
      return Reading(diags, Err(ExDateFailed(exErr.value)));
    }
    assert p.exDates.Ok?;
    var rid := p.recurrenceId;
    if rid.err.Some? {
      return Reading(diags, Err(RecurrenceIdFailed(rid.err.value)));
    }
    var attendees := ParseEventAttendees(block);
    assert p == Parts(p.start, p.end, Ok(exclusions), rid);
    r := Decide(zone, DetailsOf(block), p, attendees);
  }

  // ---- the per-event defaults

  /** A timestamp without a zone takes the calendar's zone, for either end. */
  lemma ZoneFallsBack(zone: Zone, d: Details, p: Parts, attendees: seq<Attendee>)
    requires Decide(zone, d, p, attendees).event.Ok?
    ensures var ev := Decide(zone, d, p, attendees).event.value;
      (p.start.zone.None? ==> ev.startZone == zone) && (p.end.zone.None? ==> ev.endZone == zone)
      && (p.start.zone.Some? ==> ev.startZone == p.start.zone.value)
      && (p.end.zone.Some? ==> ev.endZone == p.end.zone.value)
  {
  }

  /**
   * Without an end the event ends at 23:59:59 on its start day, never
   * before its start, and so is never a whole-day event.
   */
  lemma MissingEndIsEndOfDay(zone: Zone, d: Details, p: Parts, attendees: seq<Attendee>)
    requires Decide(zone, d, p, attendees).event.Ok? && IsZero(p.end.at)
    ensures var ev := Decide(zone, d, p, attendees).event.value;
      DayNumber(ev.end) == DayNumber(ev.start) && Clock(ev.end) == DaySeconds - 1
      && ev.start <= ev.end && !ev.wholeDay
  {
  }

  /** A block without a `DTEND` line has no end of its own. */
  lemma NoEndLine(db: ZoneDb, block: string)
    requires DateLine("DTEND", block) == []
    ensures IsZero(PartsOf(db, block).end.at)
  {
  }

  /** The whole-day flag is set exactly when both ends fall at midnight; a set end is kept. */
  lemma WholeDayIffMidnight(zone: Zone, d: Details, p: Parts, attendees: seq<Attendee>)
    requires Decide(zone, d, p, attendees).event.Ok?
    ensures var ev := Decide(zone, d, p, attendees).event.value;
      (ev.wholeDay <==> Clock(ev.start) == 0 && Clock(ev.end) == 0)
      && ev.start == p.start.at && (!IsZero(p.end.at) ==> ev.end == p.end.at)
  {
  }

  /** Tolerated zone errors become diagnostics, in the order start, end. */
  lemma DiagnosticsOfEnds(zone: Zone, d: Details, p: Parts, attendees: seq<Attendee>)
    requires Decide(zone, d, p, attendees).event.Ok?
    ensures Decide(zone, d, p, attendees).diagnostics == StampDiagnostics(p.start) + StampDiagnostics(p.end)
  {
  }

  /** A zone error on a timestamp is fatal only when the zone's table entry did not load. */
  lemma ZoneErrorFatalOnlyOnLoadFailure(s: Stamp)
    requires s.err.Some? && s.err.value.ZoneErr?
    ensures Fatal(s) <==> s.err.value.zone.LoadFailed?
  {
  }
}
