/**
 * The recurrence expansion of `parseEvents`: a cursor that starts at the
 * event's start and moves by the rule's step, a month filter, an optional
 * seven-day scan for `BYDAY`, and the commit of each occurrence to the
 * live list, to the excluded list, or to neither.
 *
 * `Plan`, `Progress` and the functions over them are the specification;
 * the class `Expander` holds the loop state in fields, as the closure of
 * the Go code does, and its methods are proved against those functions.
 * The Go loop has no bound of its own, so the specification takes a fuel
 * argument: `Expand` is `None` when the loop has not stopped within that
 * many rounds.
 */
module Expansion {
  import opened Wrappers
  import opened Text
  import opened Civil
  import opened Rule
  import opened Events

  /** What the loop reads and never changes. */
  datatype Plan = Plan(base: Event, duration: int, exclusions: seq<Instant>, rule: Recurrence, maxRepeats: int)

  /** The plan of an event: its rule decoded with the repeat cap, its exclusions, its length. */
  function PlanOf(base: Event, maxRepeats: int): (p: Plan)
    ensures p.base == base && p.duration == Sub(base.end, base.start) && p.exclusions == base.exDates
    ensures p.rule.count == ParseCount(base.rrule, maxRepeats) && p.rule.until == ParseUntil(base.rrule)
  {
    Plan(base, Sub(base.end, base.start), base.exDates, Decode(base.rrule, maxRepeats), maxRepeats)
  }

  /** The loop state: the counters, the cursor `freqDate`, and the two lists it appends to. */
  datatype Progress = Progress(current: int, count: int, cursor: Instant, live: seq<Event>, excluded: seq<Event>)

  /** The state before the first round, after the base event has been added to `live`. */
  function Begin(p: Plan, live: seq<Event>, excluded: seq<Event>): Progress {
    Progress(0, p.rule.count, p.base.start, live, excluded)
  }

  /** A copy of the base event moved to `at`, with the base length and the given sequence number. */
  function Occurrence(p: Plan, sequence: int, at: Instant): Event {
    p.base.(start := at, end := at + p.duration, sequence := sequence)
  }

  /** `commitEvent`: count the occurrence at `at`, then file it as excluded, live, or nowhere. */
  function CommitOne(p: Plan, s: Progress, at: Instant): Progress {
    var n := s.current + 1;
    var ev := Occurrence(p, n, at);
    if at in p.exclusions then s.(current := n, count := s.count - 1, excluded := s.excluded + [ev])
    else if IsZero(p.rule.until) || at <= p.rule.until then s.(current := n, count := s.count - 1, live := s.live + [ev])
    else s.(current := n, count := s.count - 1)
  }

  /** The rest of the seven-day scan from day `i`, at `day`: commit each selected day other than the base start. */
  function ScanWeek(p: Plan, s: Progress, day: Instant, i: nat): Progress
    decreases 7 - i
  {
    if i >= 7 then s
    else
      var s1 := if DaySelected(p.rule.byDay, day) && day != p.base.start then CommitOne(p, s, day) else s;
      ScanWeek(p, s1, AddDate(day, 0, 0, 1), i + 1)
  }

  /** One round at the cursor, before it moves. */
  function RoundOf(p: Plan, s: Progress): Progress {
    if !MonthSelected(p.rule.byMonth, s.cursor) then s
    else if p.rule.byDay != [] then ScanWeek(p, s, s.cursor, 0)
    else if s.cursor != p.base.start then CommitOne(p, s, s.cursor)
    else s
  }

  /** A round, then the cursor moved by one step. */
  function Next(p: Plan, s: Progress): Progress {
    RoundOf(p, s).(cursor := Advance(s.cursor, p.rule.step))
  }

  /** The exit test after each round: over the cap, count used up, or the cursor at or past `until`. */
  predicate Stops(p: Plan, s: Progress) {
    s.current > p.maxRepeats || s.count == 0 || (!IsZero(p.rule.until) && p.rule.until <= s.cursor)
  }

  /** The loop run for at most `fuel` rounds: the final state, or `None` when it has not stopped by then. */
  function Expand(p: Plan, s: Progress, fuel: nat): (r: Option<Progress>)
    decreases fuel
    ensures r.Some? ==> Stops(p, r.value)
  {
    if fuel == 0 then None
    else
      var n := Next(p, s);
      if Stops(p, n) then Some(n) else Expand(p, n, fuel - 1)
  }

  /** One round of `Expand`, stated without unfolding the round itself. */
  lemma ExpandStep(p: Plan, s: Progress, fuel: nat)
    requires fuel > 0
    ensures Expand(p, s, fuel) == if Stops(p, Next(p, s)) then Some(Next(p, s)) else Expand(p, Next(p, s), fuel - 1)
  {
  }

  // ---- what every commit does

  /**
   * A commit counts first: `current` goes up by one and `count` down by
   * one whatever happens next. An excluded instant goes to the excluded
   * list only; any other goes to the live list exactly when there is no
   * `until` or it is not after `until`; the cursor never moves.
   */
  lemma CommitBookkeeping(p: Plan, s: Progress, at: Instant)
    ensures var r := CommitOne(p, s, at);
      r.current == s.current + 1 && r.count == s.count - 1 && r.cursor == s.cursor
      && (at in p.exclusions ==> r.live == s.live && r.excluded == s.excluded + [Occurrence(p, r.current, at)])
      && (at !in p.exclusions ==> r.excluded == s.excluded)
      && (at !in p.exclusions ==>
            (r.live == s.live + [Occurrence(p, r.current, at)] <==> IsZero(p.rule.until) || at <= p.rule.until))
      && (at !in p.exclusions ==> (r.live == s.live <==> !IsZero(p.rule.until) && p.rule.until < at))
  {
    var r := CommitOne(p, s, at);
    if at !in p.exclusions && !IsZero(p.rule.until) && p.rule.until < at {
      assert r.live == s.live;
      assert |r.live| != |s.live + [Occurrence(p, r.current, at)]|;
    }
    if at !in p.exclusions && (IsZero(p.rule.until) || at <= p.rule.until) {
      assert |r.live| != |s.live|;
    }
  }

  /**
   * An occurrence is the base event with only its start, end and sequence
   * number replaced. Its length is `end.Sub(start)` of the base: the base
   * length itself unless that exceeds the largest `time.Duration`, about
   * 292 years, where it saturates.
   */
  lemma OccurrenceShape(p: Plan, n: int, at: Instant)
    requires p.duration == Sub(p.base.end, p.base.start)
    ensures var ev := Occurrence(p, n, at);
      ev.start == at && ev.sequence == n && ev.end - ev.start == Sub(p.base.end, p.base.start)
      && (-MaxDuration <= p.base.end - p.base.start <= MaxDuration ==> ev.end - ev.start == p.base.end - p.base.start)
      && ev.(start := p.base.start, end := p.base.end, sequence := p.base.sequence) == p.base
  {
  }

  // ---- what the expansion appends

  /** An occurrence as the expansion makes it: a moved copy of the base, numbered from 1 to `upTo`, not at the base start. */
  predicate Emitted(p: Plan, ev: Event, upTo: int) {
    ev == Occurrence(p, ev.sequence, ev.start) && 1 <= ev.sequence <= upTo && ev.start != p.base.start
  }

  /** A live occurrence is not excluded and not after `until`. */
  predicate LiveOk(p: Plan, ev: Event, upTo: int) {
    Emitted(p, ev, upTo) && ev.start !in p.exclusions && (IsZero(p.rule.until) || ev.start <= p.rule.until)
  }

  /** An excluded occurrence starts at an exclusion instant. */
  predicate ExcludedOk(p: Plan, ev: Event, upTo: int) {
    Emitted(p, ev, upTo) && ev.start in p.exclusions
  }

  /** The sequence numbers of `xs` from `from` on increase. */
  predicate Ascending(xs: seq<Event>, from: nat) {
    forall i, j :: from <= i < j < |xs| ==> xs[i].sequence < xs[j].sequence
  }

  /**
   * What the expansion from `s0` has done by `s`: `count + current` is
   * unchanged, the two lists only grew, every appended occurrence is a
   * well-formed live or excluded one numbered after `s0.current`, the
   * numbers increase along each list, and there are no more appended
   * occurrences than commits.
   */
  predicate Sound(p: Plan, s0: Progress, s: Progress) {
    s.count + s.current == s0.count + s0.current && 0 <= s0.current <= s.current
    && s0.live <= s.live && s0.excluded <= s.excluded
    && (forall i :: |s0.live| <= i < |s.live| ==> LiveOk(p, s.live[i], s.current) && s0.current < s.live[i].sequence)
    && (forall i :: |s0.excluded| <= i < |s.excluded| ==>
          ExcludedOk(p, s.excluded[i], s.current) && s0.current < s.excluded[i].sequence)
    && Ascending(s.live, |s0.live|) && Ascending(s.excluded, |s0.excluded|)
    && (|s.live| - |s0.live|) + (|s.excluded| - |s0.excluded|) <= s.current - s0.current
  }

  lemma SoundStart(p: Plan, s: Progress)
    requires s.current >= 0
    ensures Sound(p, s, s)
  {
  }

  /** A commit away from the base start keeps the expansion sound. */
  lemma CommitSound(p: Plan, s0: Progress, s: Progress, at: Instant)
    requires Sound(p, s0, s) && at != p.base.start
    ensures Sound(p, s0, CommitOne(p, s, at))
  {
    var r := CommitOne(p, s, at);
    var ev := Occurrence(p, s.current + 1, at);
    assert ev.sequence == s.current + 1 && ev.start == at;
    assert Emitted(p, ev, r.current);
    forall i | |s0.live| <= i < |r.live|
      ensures LiveOk(p, r.live[i], r.current) && s0.current < r.live[i].sequence
    {
      if i < |s.live| {
        assert r.live[i] == s.live[i];
        EmittedLater(p, s.live[i], s.current, r.current);
      }
    }
    forall i | |s0.excluded| <= i < |r.excluded|
      ensures ExcludedOk(p, r.excluded[i], r.current) && s0.current < r.excluded[i].sequence
    {
      if i < |s.excluded| {
        assert r.excluded[i] == s.excluded[i];
        EmittedLater(p, s.excluded[i], s.current, r.current);
      }
    }
    AppendAscending(s.live, r.live, |s0.live|, s.current);
    AppendAscending(s.excluded, r.excluded, |s0.excluded|, s.current);
  }

  lemma EmittedLater(p: Plan, ev: Event, a: int, b: int)
    requires Emitted(p, ev, a) && a <= b
    ensures Emitted(p, ev, b)
  {
  }

  /** Appending at most one occurrence numbered above every earlier one keeps a list ascending. */
  lemma AppendAscending(xs: seq<Event>, ys: seq<Event>, from: nat, top: int)
    requires Ascending(xs, from) && xs <= ys && |ys| <= |xs| + 1
    requires forall i :: from <= i < |xs| ==> xs[i].sequence <= top
    requires |ys| == |xs| + 1 ==> ys[|xs|].sequence > top
    ensures Ascending(ys, from)
  {
    forall i, j | from <= i < j < |ys| ensures ys[i].sequence < ys[j].sequence {
      assert ys[i] == xs[i];
      if j < |xs| {
        assert ys[j] == xs[j];
      }
    }
  }

  /** The seven-day scan keeps the expansion sound. */
  lemma {:induction false} ScanSound(p: Plan, s0: Progress, s: Progress, day: Instant, i: nat)
    requires Sound(p, s0, s)
    ensures Sound(p, s0, ScanWeek(p, s, day, i))
    decreases 7 - i
  {
    if i < 7 {
      var s1 := if DaySelected(p.rule.byDay, day) && day != p.base.start then CommitOne(p, s, day) else s;
      if DaySelected(p.rule.byDay, day) && day != p.base.start {
        CommitSound(p, s0, s, day);
      }
      ScanSound(p, s0, s1, AddDate(day, 0, 0, 1), i + 1);
    }
  }

  /** One day of the scan. */
  lemma ScanStep(p: Plan, s: Progress, day: Instant, i: nat)
    requires i < 7
    ensures ScanWeek(p, s, day, i) ==
      ScanWeek(p, if DaySelected(p.rule.byDay, day) && day != p.base.start then CommitOne(p, s, day) else s,
               AddDate(day, 0, 0, 1), i + 1)
  {
  }

  /** A round and a step keep the expansion sound. */
  lemma NextSound(p: Plan, s0: Progress, s: Progress)
    requires Sound(p, s0, s)
    ensures Sound(p, s0, Next(p, s))
  {
    if MonthSelected(p.rule.byMonth, s.cursor) {
      if p.rule.byDay != [] {
        ScanSound(p, s0, s, s.cursor, 0);
      } else if s.cursor != p.base.start {
        CommitSound(p, s0, s, s.cursor);
      }
    }
    var r := RoundOf(p, s);
    assert Sound(p, s0, r);
    assert Next(p, s) == r.(cursor := Advance(s.cursor, p.rule.step));
  }

  /**
   * Everything a finished expansion appended is sound: every live
   * occurrence is a moved copy of the base, not at its start, not at an
   * exclusion instant and not after `until`; every excluded one is at an
   * exclusion instant; sequence numbers increase along each list; and
   * `count + current` never changes.
   */
  lemma {:induction false} ExpandSound(p: Plan, s0: Progress, s: Progress, fuel: nat)
    requires Sound(p, s0, s) && Expand(p, s, fuel).Some?
    ensures Sound(p, s0, Expand(p, s, fuel).value)
    decreases fuel
  {
    var n := Next(p, s);
    ExpandStep(p, s, fuel);
    NextSound(p, s0, s);
    if Stops(p, n) {
      assert Expand(p, s, fuel).value == n;
    } else {
      ExpandSound(p, s0, n, fuel - 1);
      assert Expand(p, s, fuel) == Expand(p, n, fuel - 1);
    }
  }

  // ---- how far the expansion goes

  /** The scan from day `i` commits at most once per remaining day. */
  lemma {:induction false} ScanCommits(p: Plan, s: Progress, day: Instant, i: nat)
    requires i <= 7
    ensures var r := ScanWeek(p, s, day, i);
      s.current <= r.current <= s.current + (7 - i) && r.current + r.count == s.current + s.count
      && r.cursor == s.cursor
    decreases 7 - i
  {
    if i < 7 {
      var s1 := if DaySelected(p.rule.byDay, day) && day != p.base.start then CommitOne(p, s, day) else s;
      ScanStep(p, s, day, i);
      CommitCounts(p, s, day);
      ScanCommits(p, s1, AddDate(day, 0, 0, 1), i + 1);
    }
  }

  lemma CommitCounts(p: Plan, s: Progress, at: Instant)
    ensures var r := CommitOne(p, s, at);
      r.current == s.current + 1 && r.count == s.count - 1 && r.cursor == s.cursor
  {
  }

  /** A round commits at most seven times, and at most once without `BYDAY`. */
  lemma RoundCommits(p: Plan, s: Progress)
    ensures var r := Next(p, s);
      s.current <= r.current <= s.current + 7 && r.current + r.count == s.current + s.count
      && (p.rule.byDay == [] ==> r.current <= s.current + 1)
  {
    if MonthSelected(p.rule.byMonth, s.cursor) && p.rule.byDay != [] {
      ScanCommits(p, s, s.cursor, 0);
    }
  }

  /** The repeat cap bounds every expansion: at most `maxRepeats + 7` commits in all. */
  lemma {:induction false} ExpandCap(p: Plan, s: Progress, fuel: nat)
    requires s.current <= p.maxRepeats && Expand(p, s, fuel).Some?
    ensures Expand(p, s, fuel).value.current <= p.maxRepeats + 7
    decreases fuel
  {
    ExpandStep(p, s, fuel);
    RoundCommits(p, s);
    if !Stops(p, Next(p, s)) {
      ExpandCap(p, Next(p, s), fuel - 1);
    }
  }

  /**
   * Without `BYDAY` a round commits at most once, so the count reaches
   * zero exactly: the expansion ends with `count` never negative and at
   * most `maxRepeats + 1` commits.
   */
  lemma {:induction false} ExpandCapWithoutByDay(p: Plan, s: Progress, fuel: nat)
    requires p.rule.byDay == [] && s.current <= p.maxRepeats && s.count >= 1 && Expand(p, s, fuel).Some?
    ensures Expand(p, s, fuel).value.current <= p.maxRepeats + 1
    ensures Expand(p, s, fuel).value.count >= 0
    decreases fuel
  {
    ExpandStep(p, s, fuel);
    RoundCommits(p, s);
    if !Stops(p, Next(p, s)) {
      ExpandCapWithoutByDay(p, Next(p, s), fuel - 1);
    }
  }

  /**
   * From the start, an expansion without `BYDAY` commits at most
   * `min(count, maxRepeats + 1)` occurrences, `count` being the rule's
   * `COUNT` or the cap.
   */
  lemma CommitsWithoutByDay(p: Plan, live: seq<Event>, excluded: seq<Event>, fuel: nat)
    requires p.rule.byDay == [] && p.maxRepeats >= 0 && p.rule.count >= 1
    requires Expand(p, Begin(p, live, excluded), fuel).Some?
    ensures var r := Expand(p, Begin(p, live, excluded), fuel).value;
      r.current <= p.rule.count && r.current <= p.maxRepeats + 1
  {
    var s := Begin(p, live, excluded);
    ExpandCapWithoutByDay(p, s, fuel);
    SoundStart(p, s);
    ExpandSound(p, s, s, fuel);
  }

  /** A committed instant past `until` is dropped but still counts against `COUNT` and the cap. */
  lemma PastUntilUsesSlot(p: Plan, s: Progress, at: Instant)
    requires at !in p.exclusions && !IsZero(p.rule.until) && p.rule.until < at
    ensures CommitOne(p, s, at) == s.(current := s.current + 1, count := s.count - 1)
  {
  }

  /**
   * A rule whose step is zero and that has no `BYDAY` never leaves its
   * first round: the cursor stays on the base start, which is never
   * committed, so nothing changes and the loop runs for ever unless it
   * has already stopped.
   */
  lemma {:induction false} ZeroStepNeverStops(p: Plan, s: Progress, fuel: nat)
    requires p.rule.step == Step(0, 0, 0) && p.rule.byDay == [] && s.cursor == p.base.start
    requires !Stops(p, s)
    ensures Expand(p, s, fuel).None?
    decreases fuel
  {
    if fuel > 0 {
      ExpandStep(p, s, fuel);
      AddDaysShift(s.cursor, 0);
      assert Next(p, s) == s;
      ZeroStepNeverStops(p, s, fuel - 1);
    }
  }

  // ---- the loop itself

  /** The state of the expansion loop of `parseEvents` for one event. */
  class Expander {
    const plan: Plan
    var current: int
    var count: int
    var cursor: Instant
    var live: seq<Event>
    var excluded: seq<Event>

    function Snapshot(): Progress
      reads this
    {
      Progress(current, count, cursor, live, excluded)
    }

    /** `current := 0`, `freqDate := event.Start`, `count` from the rule. */
    constructor (plan: Plan, live: seq<Event>, excluded: seq<Event>)
      ensures this.plan == plan && Snapshot() == Begin(plan, live, excluded)
    {
      this.plan := plan;
      current := 0;
      count := plan.rule.count;
      cursor := plan.base.start;
      this.live := live;
      this.excluded := excluded;
    }

    /** `commitEvent` for the day `at`. */
    method Commit(at: Instant)
      modifies this
      ensures Snapshot() == CommitOne(plan, old(Snapshot()), at)
    {
      current := current + 1;
      count := count - 1;
      var ev := Occurrence(plan, current, at);
      var i := 0;
      while i < |plan.exclusions|
        invariant 0 <= i <= |plan.exclusions|
        invariant at !in plan.exclusions[..i]
      {
        if plan.exclusions[i] == at {
          excluded := excluded + [ev];
          return;
        }
        i := i + 1;
      }
      assert plan.exclusions[..i] == plan.exclusions;
      if IsZero(plan.rule.until) || at <= plan.rule.until {
        live := live + [ev];
      }
    }

    /** The body of the outer loop before the cursor moves: the month filter, then the day scan or the single commit. */
    method Round()
      modifies this
      ensures Snapshot() == RoundOf(plan, old(Snapshot())) && cursor == old(cursor)
    {
      if plan.rule.byMonth == [] || Contains(plan.rule.byMonth, MonthText(Month(cursor))) {
        if plan.rule.byDay != [] {
          ScanDays();
        } else if cursor != plan.base.start {
          Commit(cursor);
        }
      }
    }

    /** One round, then `freqDate = freqDate.AddDate(years, months, days)`. */
    method Turn()
      modifies this
      ensures Snapshot() == Next(plan, old(Snapshot()))
    {
      Round();
      var step := plan.rule.step;
      cursor := AddDate(cursor, step.years, step.months, step.days);
    }

    /** The seven-day scan from the cursor: each day whose code `BYDAY` contains, other than the base start, is committed. */
    method ScanDays()
      modifies this
      ensures Snapshot() == ScanWeek(plan, old(Snapshot()), old(cursor), 0) && cursor == old(cursor)
    {
      var day := cursor;
      for i := 0 to 7
        invariant cursor == old(cursor)
        invariant ScanWeek(plan, Snapshot(), day, i) == ScanWeek(plan, old(Snapshot()), old(cursor), 0)
      {
        ghost var before := Snapshot();
        ScanStep(plan, before, day, i);
        if Contains(plan.rule.byDay, DayCode(Weekday(day))) && day != plan.base.start {
          Commit(day);
        }
        day := AddDate(day, 0, 0, 1);
      }
    }

    /** The outer loop, for at most `fuel` rounds; `finished` says whether it stopped by itself. */
    method Run(fuel: nat) returns (finished: bool)
      modifies this
      ensures finished <==> Expand(plan, old(Snapshot()), fuel).Some?
      ensures finished ==> Snapshot() == Expand(plan, old(Snapshot()), fuel).value
    {
      var f: nat := fuel;
      while f > 0
        invariant f <= fuel
        invariant Expand(plan, Snapshot(), f) == Expand(plan, old(Snapshot()), fuel)
        decreases f
      {
        ghost var before := Snapshot();
        Turn();
        ExpandStep(plan, before, f);
        if current > plan.maxRepeats || count == 0 || (!IsZero(plan.rule.until) && plan.rule.until <= cursor) {
          return true;
        }
        f := f - 1;
      }
      return false;
    }
  }
}
