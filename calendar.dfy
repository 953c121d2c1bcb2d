/**
 * `ParseICalContent` and `parseEvents`: the calendar header, then every
 * event block in turn, each read event appended to the calendar's events
 * and, when it has a rule and the repeat cap is positive, expanded into
 * its occurrences; at the end the events are sorted by start and the
 * excluded occurrences are subtracted with `diff`.
 */
module Calendars {
  import opened Wrappers
  import opened Civil
  import opened Timezone
  import opened Fields
  import opened Events
  import opened Expansion
  import opened Post

  /**
   * How `parseEvents` ends: it returns `nil`, it returns the failure, or
   * (in the model only) an expansion did not stop within its fuel.
   */
  datatype Status = Complete | Failed(failure: Failure) | Unfinished

  /** The event list, the excluded list and the diagnostics so far, and how the loop ended. */
  datatype Outcome = Outcome(live: seq<Event>, excluded: seq<Event>, diagnostics: seq<Diagnostic>, status: Status)

  /** The reading of every block, in order; reading is pure, so reading ahead changes nothing. */
  function Readings(db: ZoneDb, zone: Zone, blocks: seq<string>): (r: seq<Reading>)
    ensures |r| == |blocks|
  {
    seq(|blocks|, i requires 0 <= i < |blocks| => ReadEvent(db, zone, blocks[i]))
  }

  /**
   * One turn of the `parseEvents` loop, given the block's reading: its
   * diagnostics are traced, a failure ends the loop, otherwise the event
   * is appended and then expanded when `maxRepeats > 0` and it has a rule.
   */
  function Absorb(rd: Reading, maxRepeats: int, fuel: nat, acc: Outcome): (r: Outcome) {
    var diags := acc.diagnostics + rd.diagnostics;
    if rd.event.Err? then acc.(diagnostics := diags, status := Failed(rd.event.error))
    else Grow(rd.event.value, maxRepeats, fuel, acc.(diagnostics := diags))
  }

  /** The event appended, then expanded when `maxRepeats > 0` and it has a rule. */
  function Grow(ev: Event, maxRepeats: int, fuel: nat, acc: Outcome): (r: Outcome) {
    var live := acc.live + [ev];
    if maxRepeats > 0 && ev.rrule != [] then
      var p := PlanOf(ev, maxRepeats);
      var e := Expand(p, Begin(p, live, acc.excluded), fuel);
      if e.None? then acc.(live := live, status := Unfinished)
      else acc.(live := e.value.live, excluded := e.value.excluded)
    else acc.(live := live)
  }

  /** The `parseEvents` loop over the readings, up to the sort: it stops at the first turn that does not complete. */
  function Gather(readings: seq<Reading>, maxRepeats: int, fuel: nat, acc: Outcome): (r: Outcome)
    decreases |readings|
  {
    if readings == [] || !acc.status.Complete? then acc
    else Gather(readings[1..], maxRepeats, fuel, Absorb(readings[0], maxRepeats, fuel, acc))
  }

  function StartOf(ev: Event): int {
    ev.start
  }

  /**
   * The calendar's events when `parseEvents` returns: after a complete
   * loop, sorted by start, passed through `ExcludeRecurrences` (the
   * parameter `reconcile`) and with the excluded occurrences subtracted;
   * after a failure, the events appended so far, unsorted.
   */
  function Final(o: Outcome, eq: (Event, Event) -> bool, reconcile: seq<Event> -> seq<Event>): seq<Event> {
    if o.status.Complete? then Keep(reconcile(SortBy(o.live, StartOf)), o.excluded, eq) else o.live
  }

  /** The diagnostics of the readings, in order. */
  function AllDiagnostics(readings: seq<Reading>): seq<Diagnostic> {
    if readings == [] then [] else readings[0].diagnostics + AllDiagnostics(readings[1..])
  }

  /** One turn of `Gather` while the loop runs. */
  lemma GatherStep(readings: seq<Reading>, maxRepeats: int, fuel: nat, acc: Outcome)
    requires readings != [] && acc.status.Complete?
    ensures Gather(readings, maxRepeats, fuel, acc)
         == Gather(readings[1..], maxRepeats, fuel, Absorb(readings[0], maxRepeats, fuel, acc))
  {
  }

  /** Once a turn has not completed, the loop has ended. */
  lemma GatherStops(readings: seq<Reading>, maxRepeats: int, fuel: nat, acc: Outcome)
    requires !acc.status.Complete?
    ensures Gather(readings, maxRepeats, fuel, acc) == acc
  {
  }

  // ---- one turn

  /**
   * A turn keeps what was there: the event list gains the read event
   * right after the old ones, then its occurrences; the excluded list
   * and the diagnostics only grow.
   */
  lemma AbsorbGrows(rd: Reading, maxRepeats: int, fuel: nat, acc: Outcome)
    ensures var r := Absorb(rd, maxRepeats, fuel, acc);
      acc.excluded <= r.excluded && acc.diagnostics + rd.diagnostics == r.diagnostics
      && (rd.event.Ok? ==> acc.live + [rd.event.value] <= r.live)
      && (rd.event.Err? ==> r.live == acc.live && r.status == Failed(rd.event.error))
  {
    if rd.event.Ok? {
      var ev := rd.event.value;
      var live := acc.live + [ev];
      if maxRepeats > 0 && ev.rrule != [] {
        var p := PlanOf(ev, maxRepeats);
        var s := Begin(p, live, acc.excluded);
        if Expand(p, s, fuel).Some? {
          SoundStart(p, s);
          ExpandSound(p, s, s, fuel);
        }
      }
    }
  }

  /**
   * The occurrences a turn appends after the read event are moved copies
   * of it that miss its `EXDATE` instants, and the occurrences it adds to
   * the excluded list start at one of them.
   */
  lemma GrowOccurrences(ev: Event, maxRepeats: int, fuel: nat, acc: Outcome)
    ensures var r := Grow(ev, maxRepeats, fuel, acc);
      (forall i :: |acc.live| < i < |r.live| ==>
         r.live[i] == ev.(start := r.live[i].start, end := r.live[i].start + Sub(ev.end, ev.start),
                          sequence := r.live[i].sequence)
         && r.live[i].start !in ev.exDates && r.live[i].start != ev.start)
      && (forall i :: |acc.excluded| <= i < |r.excluded| ==>
         r.excluded[i].start in ev.exDates && r.excluded[i].id == ev.id)
  {
    var live := acc.live + [ev];
    if maxRepeats > 0 && ev.rrule != [] {
      var p := PlanOf(ev, maxRepeats);
      var s := Begin(p, live, acc.excluded);
      if Expand(p, s, fuel).Some? {
        SoundStart(p, s);
        ExpandSound(p, s, s, fuel);
      }
    }
  }

  /** With a repeat cap of zero or less no event is expanded: a turn appends exactly the read event. */
  lemma AbsorbWithoutRepeats(rd: Reading, maxRepeats: int, fuel: nat, acc: Outcome)
    requires maxRepeats <= 0 && rd.event.Ok?
    ensures Absorb(rd, maxRepeats, fuel, acc)
      == Outcome(acc.live + [rd.event.value], acc.excluded, acc.diagnostics + rd.diagnostics, acc.status)
  {
  }

  // ---- the whole loop

  /** The loop only appends: to the events, to the excluded list, to the diagnostics. */
  lemma {:induction false} GatherGrows(readings: seq<Reading>, maxRepeats: int, fuel: nat, acc: Outcome)
    ensures var r := Gather(readings, maxRepeats, fuel, acc);
      acc.live <= r.live && acc.excluded <= r.excluded && acc.diagnostics <= r.diagnostics
    decreases |readings|
  {
    if readings != [] && acc.status.Complete? {
      var next := Absorb(readings[0], maxRepeats, fuel, acc);
      AbsorbGrows(readings[0], maxRepeats, fuel, acc);
      GatherGrows(readings[1..], maxRepeats, fuel, next);
    }
  }

  /** A complete loop read every block without failure. */
  lemma {:induction false} GatherComplete(readings: seq<Reading>, maxRepeats: int, fuel: nat, acc: Outcome)
    requires acc.status.Complete? && Gather(readings, maxRepeats, fuel, acc).status.Complete?
    ensures forall i :: 0 <= i < |readings| ==> readings[i].event.Ok?
    decreases |readings|
  {
    if readings != [] {
      var next := Absorb(readings[0], maxRepeats, fuel, acc);
      GatherStep(readings, maxRepeats, fuel, acc);
      assert next.status.Complete?;
      GatherComplete(readings[1..], maxRepeats, fuel, next);
      forall i | 0 <= i < |readings| ensures readings[i].event.Ok? {
        if i > 0 {
          assert readings[i] == readings[1..][i - 1];
        }
      }
    }
  }

  /** A failed loop stopped at the first block whose reading failed, with that failure. */
  lemma {:induction false} GatherFailed(readings: seq<Reading>, maxRepeats: int, fuel: nat, acc: Outcome)
    requires acc.status.Complete? && Gather(readings, maxRepeats, fuel, acc).status.Failed?
    ensures var f := Gather(readings, maxRepeats, fuel, acc).status.failure;
      exists i :: 0 <= i < |readings| && readings[i].event == Err(f) && forall j :: 0 <= j < i ==> readings[j].event.Ok?
    decreases |readings|
  {
    var f := Gather(readings, maxRepeats, fuel, acc).status.failure;
    var next := Absorb(readings[0], maxRepeats, fuel, acc);
    GatherStep(readings, maxRepeats, fuel, acc);
    if !next.status.Complete? {
      GatherStops(readings[1..], maxRepeats, fuel, next);
      assert readings[0].event == Err(f);
    } else {
      GatherFailed(readings[1..], maxRepeats, fuel, next);
      var i :| 0 <= i < |readings[1..]| && readings[1..][i].event == Err(f)
               && forall j :: 0 <= j < i ==> readings[1..][j].event.Ok?;
      assert readings[i + 1].event == Err(f);
      forall j | 0 <= j < i + 1 ensures readings[j].event.Ok? {
        if j > 0 {
          assert readings[j] == readings[1..][j - 1];
        }
      }
    }
  }

  /**
   * With a repeat cap of zero or less and every block read without
   * failure, the loop completes and appends exactly the read events, in
   * block order, excluding nothing.
   */
  lemma {:induction false} GatherWithoutRepeats(readings: seq<Reading>, maxRepeats: int, fuel: nat, acc: Outcome)
    requires maxRepeats <= 0 && acc.status.Complete?
    requires forall i :: 0 <= i < |readings| ==> readings[i].event.Ok?
    ensures var r := Gather(readings, maxRepeats, fuel, acc);
      r.status.Complete? && r.excluded == acc.excluded && |r.live| == |acc.live| + |readings|
      && acc.live <= r.live
      && forall i :: 0 <= i < |readings| ==> r.live[|acc.live| + i] == readings[i].event.value
    decreases |readings|
  {
    if readings != [] {
      var next := Absorb(readings[0], maxRepeats, fuel, acc);
      AbsorbWithoutRepeats(readings[0], maxRepeats, fuel, acc);
      assert forall i :: 0 <= i < |readings[1..]| ==> readings[1..][i].event.Ok?;
      GatherWithoutRepeats(readings[1..], maxRepeats, fuel, next);
      var r := Gather(readings, maxRepeats, fuel, acc);
      forall i | 0 <= i < |readings| ensures r.live[|acc.live| + i] == readings[i].event.value {
        if i == 0 {
          assert next.live <= r.live;
          assert r.live[|acc.live|] == next.live[|acc.live|];
        } else {
          assert r.live[|next.live| + (i - 1)] == readings[1..][i - 1].event.value;
        }
      }
    }
  }

  /** After a complete loop the diagnostics are those of every block, in block order. */
  lemma {:induction false} GatherDiagnostics(readings: seq<Reading>, maxRepeats: int, fuel: nat, acc: Outcome)
    requires acc.status.Complete? && Gather(readings, maxRepeats, fuel, acc).status.Complete?
    ensures Gather(readings, maxRepeats, fuel, acc).diagnostics == acc.diagnostics + AllDiagnostics(readings)
    decreases |readings|
  {
    if readings == [] {
      assert acc.diagnostics + [] == acc.diagnostics;
    } else {
      var next := Absorb(readings[0], maxRepeats, fuel, acc);
      AbsorbGrows(readings[0], maxRepeats, fuel, acc);
      GatherStep(readings, maxRepeats, fuel, acc);
      var r := Gather(readings[1..], maxRepeats, fuel, next);
      assert next.status.Complete?;
      GatherDiagnostics(readings[1..], maxRepeats, fuel, next);
      DiagnosticsJoin(acc.diagnostics, readings[0].diagnostics, AllDiagnostics(readings[1..]));
    }
  }

  lemma DiagnosticsJoin(a: seq<Diagnostic>, b: seq<Diagnostic>, c: seq<Diagnostic>)
    ensures a + b + c == a + (b + c)
  {
  }

  /** After a complete loop every read event is among the calendar's events, before sorting. */
  lemma {:induction false} GatherKeepsEvents(readings: seq<Reading>, maxRepeats: int, fuel: nat, acc: Outcome)
    requires acc.status.Complete? && Gather(readings, maxRepeats, fuel, acc).status.Complete?
    ensures forall i :: 0 <= i < |readings| ==>
      readings[i].event.Ok? && readings[i].event.value in Gather(readings, maxRepeats, fuel, acc).live
    decreases |readings|
  {
    if readings != [] {
      var next := Absorb(readings[0], maxRepeats, fuel, acc);
      var r := Gather(readings, maxRepeats, fuel, acc);
      AbsorbGrows(readings[0], maxRepeats, fuel, acc);
      assert next.status.Complete?;
      GatherKeepsEvents(readings[1..], maxRepeats, fuel, next);
      GatherGrows(readings[1..], maxRepeats, fuel, next);
      forall i | 0 <= i < |readings| ensures readings[i].event.Ok? && readings[i].event.value in r.live {
        if i == 0 {
          assert r.live[|acc.live|] == next.live[|acc.live|] == readings[0].event.value;
        } else {
          assert readings[i] == readings[1..][i - 1];
        }
      }
    }
  }

  // ---- the end of `parseEvents`

  /** No event left after `diff` equals an excluded occurrence, and each came out of `ExcludeRecurrences`. */
  lemma FinalAvoidsExcluded(o: Outcome, eq: (Event, Event) -> bool, reconcile: seq<Event> -> seq<Event>)
    requires o.status.Complete?
    ensures forall x :: x in Final(o, eq, reconcile) ==>
      x in reconcile(SortBy(o.live, StartOf)) && !Matched(x, o.excluded, eq)
  {
    forall x | x in Final(o, eq, reconcile)
      ensures x in reconcile(SortBy(o.live, StartOf)) && !Matched(x, o.excluded, eq)
    {
      KeepMembers(reconcile(SortBy(o.live, StartOf)), o.excluded, eq, x);
    }
  }

  /**
   * When `ExcludeRecurrences` changes nothing, the final events are
   * sorted by start and each is one the loop produced.
   */
  lemma FinalSorted(o: Outcome, eq: (Event, Event) -> bool, reconcile: seq<Event> -> seq<Event>)
    requires o.status.Complete? && reconcile(SortBy(o.live, StartOf)) == SortBy(o.live, StartOf)
    ensures SortedBy(Final(o, eq, reconcile), StartOf)
    ensures forall x :: x in Final(o, eq, reconcile) ==> x in o.live
  {
    var sorted := SortBy(o.live, StartOf);
    SortBySorted(o.live, StartOf);
    SortByPermutes(o.live, StartOf);
    KeepSorted(sorted, o.excluded, eq, StartOf);
    forall x | x in Final(o, eq, reconcile) ensures x in o.live {
      KeepMembers(sorted, o.excluded, eq, x);
      assert x in multiset(sorted);
    }
  }

  /** After a failure the calendar keeps the events appended so far, unsorted and with nothing subtracted. */
  lemma FinalAfterFailure(readings: seq<Reading>, maxRepeats: int, fuel: nat, acc: Outcome,
                          eq: (Event, Event) -> bool, reconcile: seq<Event> -> seq<Event>)
    requires Gather(readings, maxRepeats, fuel, acc).status.Failed?
    ensures Final(Gather(readings, maxRepeats, fuel, acc), eq, reconcile) == Gather(readings, maxRepeats, fuel, acc).live
    ensures acc.live <= Final(Gather(readings, maxRepeats, fuel, acc), eq, reconcile)
  {
    GatherGrows(readings, maxRepeats, fuel, acc);
  }

  /** A document without `BEGIN:VEVENT` has no event blocks and its whole text is the header. */
  lemma NoEventsWithoutBegin(db: ZoneDb, zone: Zone, content: string, maxRepeats: int, fuel: nat,
                             eq: (Event, Event) -> bool, reconcile: seq<Event> -> seq<Event>)
    requires !Text.Contains(content, BeginTag)
    ensures var start := Outcome([], [], [], Complete);
      ExplodeICal(content).1 == content
      && Gather(Readings(db, zone, ExplodeICal(content).0), maxRepeats, fuel, start) == start
  {
    NoBlocksWithoutBegin(content);
  }

  /** The calendar: its header fields, and the events and diagnostics `parseEvents` leaves in it. */
  class Calendar {
    var name: string
    var description: string
    var timezone: Zone
    var url: string
    var events: seq<Event>
    var diagnostics: seq<Diagnostic>

    /** `NewCalendar` and the header assignments of `ParseICalContent`. */
    constructor (name: string, description: string, timezone: Zone, url: string)
      ensures this.name == name && this.description == description && this.timezone == timezone
      ensures this.url == url && events == [] && diagnostics == []
    {
      this.name := name;
      this.description := description;
      this.timezone := timezone;
      this.url := url;
      events := [];
      diagnostics := [];
    }

    /**
     * One turn of the `parseEvents` loop, once the block is read: trace its
     * diagnostics, stop on a failure, else append the event and expand it.
     */
    method Take(r: Reading, maxRepeats: int, fuel: nat, excluded: seq<Event>)
      returns (excludedAfter: seq<Event>, status: Status)
      modifies this
      ensures Outcome(events, excludedAfter, diagnostics, status)
           == Absorb(r, maxRepeats, fuel, Outcome(old(events), excluded, old(diagnostics), Complete))
      ensures name == old(name) && description == old(description) && timezone == old(timezone) && url == old(url)
    {
      diagnostics := diagnostics + r.diagnostics;
      if r.event.Err? {
        return excluded, Failed(r.event.error);
      }
      excludedAfter, status := GrowEvent(r.event.value, maxRepeats, fuel, excluded);
    }

    /** The rest of the turn: `cal.Events = append(cal.Events, *event)`, then the expansion loop. */
    method GrowEvent(ev: Event, maxRepeats: int, fuel: nat, excluded: seq<Event>)
      returns (excludedAfter: seq<Event>, status: Status)
      modifies this
      ensures Outcome(events, excludedAfter, diagnostics, status)
           == Grow(ev, maxRepeats, fuel, Outcome(old(events), excluded, old(diagnostics), Complete))
      ensures name == old(name) && description == old(description) && timezone == old(timezone) && url == old(url)
    {
      events := events + [ev];
      excludedAfter := excluded;
      status := Complete;
      if maxRepeats > 0 && ev.rrule != [] {
        var expander := new Expander(PlanOf(ev, maxRepeats), events, excluded);
        var finished := expander.Run(fuel);
        if !finished {
          return excludedAfter, Unfinished;
        }
        events := expander.live;
        excludedAfter := expander.excluded;
      }
    }

    /**
     * `parseEvents`: the loop over the blocks, with the calendar's zone as
     * the fallback zone, then the sort, `ExcludeRecurrences` and `diff`.
     */
    method ParseEvents(db: ZoneDb, blocks: seq<string>, maxRepeats: int, fuel: nat,
                       eq: (Event, Event) -> bool, reconcile: seq<Event> -> seq<Event>)
      returns (status: Status)
      modifies this
      ensures var o := Gather(Readings(db, timezone, blocks), maxRepeats, fuel,
                              Outcome(old(events), [], old(diagnostics), Complete));
        status == o.status && diagnostics == o.diagnostics && events == Final(o, eq, reconcile)
      ensures name == old(name) && description == old(description) && timezone == old(timezone) && url == old(url)
    {
      ghost var readings := Readings(db, timezone, blocks);
      ghost var start := Outcome(events, [], diagnostics, Complete);
      var excluded: seq<Event> := [];
      var i := 0;
      while i < |blocks|
        invariant 0 <= i <= |blocks|
        invariant name == old(name) && description == old(description) && timezone == old(timezone) && url == old(url)
        invariant Gather(readings[i..], maxRepeats, fuel, Outcome(events, excluded, diagnostics, Complete))
               == Gather(readings, maxRepeats, fuel, start)
      {
        var turn: Status;
        excluded, turn := Turn(db, blocks, i, maxRepeats, fuel, excluded);
        if !turn.Complete? {
          GatherStops(readings[i + 1..], maxRepeats, fuel, Outcome(events, excluded, diagnostics, turn));
          return turn;
        }
        i := i + 1;
      }
      assert readings[i..] == [];
      Settle(excluded, eq, reconcile);
      return Complete;
    }

    /** One turn of the loop: read the block at `i`, then `Take` it. */
    method Turn(db: ZoneDb, blocks: seq<string>, i: nat, maxRepeats: int, fuel: nat, excluded: seq<Event>)
      returns (excludedAfter: seq<Event>, status: Status)
      requires i < |blocks|
      modifies this
      ensures var readings := Readings(db, timezone, blocks);
        Gather(readings[i..], maxRepeats, fuel, Outcome(old(events), excluded, old(diagnostics), Complete))
        == Gather(readings[i + 1..], maxRepeats, fuel, Outcome(events, excludedAfter, diagnostics, status))
      ensures name == old(name) && description == old(description) && timezone == old(timezone) && url == old(url)
    {
      ghost var readings := Readings(db, timezone, blocks);
      assert readings[i..][1..] == readings[i + 1..];
      GatherStep(readings[i..], maxRepeats, fuel, Outcome(events, excluded, diagnostics, Complete));
      var r := ReadAt(db, blocks, i);
      excludedAfter, status := Take(r, maxRepeats, fuel, excluded);
    }

    /** The block at `i` read with the calendar's zone. */
    method ReadAt(db: ZoneDb, blocks: seq<string>, i: nat) returns (r: Reading)
      requires i < |blocks|
      ensures r == Readings(db, timezone, blocks)[i]
    {
      r := ReadEventBlock(db, timezone, blocks[i]);
    }

    /** The last two statements of `parseEvents`: sort by start, `ExcludeRecurrences`, then `diff` with the excluded list. */
    method Settle(excluded: seq<Event>, eq: (Event, Event) -> bool, reconcile: seq<Event> -> seq<Event>)
      modifies this
      ensures events == Keep(reconcile(SortBy(old(events), StartOf)), excluded, eq)
      ensures name == old(name) && description == old(description) && timezone == old(timezone) && url == old(url)
      ensures diagnostics == old(diagnostics)
    {
      var sorted := SortBy(events, StartOf);
      events := Diff(reconcile(sorted), excluded, eq);
    }
  }

  /**
   * `ParseICalContent`: split the document, read the header, then run
   * `parseEvents` on the blocks with the header's zone (`local` when it
   * names none that loads).
   */
  method ParseICalContent(db: ZoneDb, local: Zone, content: string, url: string, maxRepeats: int, fuel: nat,
                          eq: (Event, Event) -> bool, reconcile: seq<Event> -> seq<Event>)
    returns (cal: Calendar, status: Status)
    ensures var (blocks, info) := ExplodeICal(content);
      var zone := CalendarTimezone(db, local, info);
      var o := Gather(Readings(db, zone, blocks), maxRepeats, fuel, Outcome([], [], [], Complete));
      cal.name == CalendarName(info) && cal.description == CalendarDescription(info)
      && cal.timezone == zone && cal.url == url
      && status == o.status && cal.diagnostics == o.diagnostics && cal.events == Final(o, eq, reconcile)
  {
    var parts := ExplodeICal(content);
    var info := parts.1;
    cal := new Calendar(CalendarName(info), CalendarDescription(info), CalendarTimezone(db, local, info), url);
    status := cal.ParseEvents(db, parts.0, maxRepeats, fuel, eq, reconcile);
  }
}
