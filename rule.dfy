/**
 * Decoding of an event's `RRULE` value (`parseUntil`, `parseInterval`,
 * `parseCount`, the `FREQ`, `BYMONTH` and `BYDAY` substrings, and the step
 * table of `parseEvents`). Every part is a search for a tag anywhere in the
 * rule text followed by the field trimming; malformed or missing parts fall
 * back to defaults instead of failing.
 */
module Rule {
  import opened Wrappers
  import opened Text
  import opened Civil

  const IntervalTag: string := "INTERVAL="
  const CountTag: string := "COUNT="
  const UntilTag: string := "UNTIL="
  const FreqTag: string := "FREQ="
  const ByMonthTag: string := "BYMONTH="
  const ByDayTag: string := "BYDAY="

  /** The first occurrence of `sub` is at the start of `sub + rest`. */
  lemma IndexOfPrefix(sub: string, rest: string)
    ensures IndexOf(sub + rest, sub, 0) == Some(0)
  {
    assert OccursAt(sub + rest, sub, 0);
  }

  /**
   * Trimming a match made of the tag, a middle part in which no cut starts,
   * and an optional `;` yields the middle part.
   */
  lemma TaggedTrim(tag: string, mid: string, semi: string)
    requires tag != [] && NoCutStart(mid, [tag, ";"]) && (semi == [] || semi == ";")
    requires mid == [] || !IsLineEnd(mid[|mid| - 1])
    ensures TrimField(tag + mid + semi, [tag, ";"]) == mid
  {
    var cuts := [tag, ";"];
    assert tag + mid + semi == tag + (mid + semi);
    assert CutAt(tag + (mid + semi), cuts) == |tag|;
    RemoveAllLeadingCut(tag, mid + semi, cuts);
    RemoveAllKeepsPlain(mid, semi, cuts);
    SemicolonRemoved(tag, semi);
    assert mid + [] == mid;
  }

  /** The optional `;` at the end of a match is removed. */
  lemma SemicolonRemoved(tag: string, semi: string)
    requires tag != [] && (semi == [] || semi == ";")
    ensures RemoveAll(semi, [tag, ";"]) == []
  {
    if semi == ";" {
      assert CutAt(semi, [tag, ";"]) == 1;
      assert semi[1..] == [];
    }
  }

  // ---- INTERVAL=(\d)*(;){0,1} and COUNT=(\d)*(;){0,1}

  /**
   * `FindString` of `TAG(\d)*(;){0,1}`: the first occurrence of the tag
   * (which always matches, the digits being optional) with the digits that
   * follow it and a `;` right after them.
   */
  function DigitsMatch(rule: string, tag: string): string
  {
    match IndexOf(rule, tag, 0)
    case None => []
    case Some(i) =>
      var d := RuleDigits(rule, tag);
      tag + d + SemicolonAt(rule, i + |tag| + |d|)
  }

  /** `(;){0,1}` at index `e`: the `;` when there is one. */
  function SemicolonAt(s: string, e: nat): (r: string)
    ensures r == [] || r == ";"
  {
    if e < |s| && s[e] == ';' then ";" else ""
  }

  /** The digits that follow the first occurrence of the tag; none when the tag does not occur. */
  function RuleDigits(rule: string, tag: string): (d: string)
    ensures AllDigits(d)
  {
    match IndexOf(rule, tag, 0)
    case None => []
    case Some(i) => LeadingDigits(rule[i + |tag|..])
  }

  /** The trimmed match of a digits pattern is the digits after the tag. */
  lemma DigitsFieldTrim(rule: string, tag: string)
    requires tag != [] && !IsDigit(tag[0])
    ensures TrimField(DigitsMatch(rule, tag), [tag, ";"]) == RuleDigits(rule, tag)
  {
    var r := IndexOf(rule, tag, 0);
    if r.Some? {
      var d := RuleDigits(rule, tag);
      DigitsNoCut(d, tag);
      TaggedTrim(tag, d, SemicolonAt(rule, r.value + |tag| + |d|));
    }
  }

  lemma DigitsNoCut(d: string, tag: string)
    requires AllDigits(d) && tag != [] && !IsDigit(tag[0])
    ensures NoCutStart(d, [tag, ";"])
  {
  }

  /** The digits after a tag at the start of the rule are read up to the first non-digit. */
  lemma TaggedDigitsRead(tag: string, d: string, rest: string)
    requires AllDigits(d) && (rest == [] || !IsDigit(rest[0]))
    ensures RuleDigits(tag + d + rest, tag) == d
  {
    IndexOfPrefix(tag, d + rest);
    assert tag + d + rest == tag + (d + rest);
    assert (tag + (d + rest))[|tag|..] == d + rest;
    LeadingDigitsOf(d, rest);
  }

  /** `parseInterval`: the `INTERVAL` digits, with 1 for a missing, empty or zero value. */
  function ParseInterval(rule: string): (r: int)
    ensures r >= 1
    ensures var d := RuleDigits(rule, IntervalTag); d == [] || DigitsValue(d) == 0 ==> r == 1
    ensures var d := RuleDigits(rule, IntervalTag); d != [] && 0 < DigitsValue(d) <= MaxInt64 ==> r == DigitsValue(d)
    ensures var d := RuleDigits(rule, IntervalTag); DigitsValue(d) > MaxInt64 ==> r == MaxInt64
  {
    DigitsFieldTrim(rule, IntervalTag);
    AtoiDigitsNonNegative(RuleDigits(rule, IntervalTag));
    var i := Atoi(TrimField(DigitsMatch(rule, IntervalTag), [IntervalTag, ";"]));
    if i == 0 then 1 else i
  }

  /** `parseCount`: the `COUNT` digits, with `maxRepeats` for a missing, empty or zero value. */
  function ParseCount(rule: string, maxRepeats: int): (r: int)
    ensures var d := RuleDigits(rule, CountTag); d == [] || DigitsValue(d) == 0 ==> r == maxRepeats
    ensures var d := RuleDigits(rule, CountTag); d != [] && 0 < DigitsValue(d) <= MaxInt64 ==> r == DigitsValue(d)
    ensures var d := RuleDigits(rule, CountTag); DigitsValue(d) > MaxInt64 ==> r == MaxInt64
    ensures maxRepeats >= 1 ==> r >= 1
  {
    DigitsFieldTrim(rule, CountTag);
    AtoiDigitsNonNegative(RuleDigits(rule, CountTag));
    var c := Atoi(TrimField(DigitsMatch(rule, CountTag), [CountTag, ";"]));
    if c == 0 then maxRepeats else c
  }

  /** An interval written at the start of the rule is read back. */
  lemma IntervalRead(d: string, rest: string)
    requires AllDigits(d) && 0 < DigitsValue(d) <= MaxInt64 && (rest == [] || !IsDigit(rest[0]))
    ensures ParseInterval(IntervalTag + d + rest) == DigitsValue(d)
  {
    TaggedDigitsRead(IntervalTag, d, rest);
  }

  /** A count written at the start of the rule is read back. */
  lemma CountRead(d: string, rest: string, maxRepeats: int)
    requires AllDigits(d) && 0 < DigitsValue(d) <= MaxInt64 && (rest == [] || !IsDigit(rest[0]))
    ensures ParseCount(CountTag + d + rest, maxRepeats) == DigitsValue(d)
  {
    TaggedDigitsRead(CountTag, d, rest);
  }

  /** `COUNT=0` is the same as no count at all. */
  lemma CountZeroIsUnbounded(rest: string, maxRepeats: int)
    requires rest == [] || !IsDigit(rest[0])
    ensures ParseCount(CountTag + "0" + rest, maxRepeats) == maxRepeats
  {
    TaggedDigitsRead(CountTag, "0", rest);
    assert DigitsValue("0") == 0 by {
      assert "0"[..0] == [];
    }
  }

  // ---- UNTIL=(\d)*T(\d)*Z(;){0,1}

  /**
   * `s[k..e]` is `UNTIL=`, a run of digits, the `T` at `a`, a run of
   * digits and a `Z`.
   */
  predicate UntilShape(s: string, k: nat, a: nat, e: nat) {
    k + |UntilTag| <= a && a + 1 < e <= |s| && OccursAt(s, UntilTag, k)
    && AllDigits(s[k + |UntilTag|..a]) && s[a] == 'T' && AllDigits(s[a + 1..e - 1]) && s[e - 1] == 'Z'
  }

  /** The end of the run of digits that starts at `i`. */
  function DigitsEnd(s: string, i: nat): (r: nat)
    requires i <= |s|
    ensures i <= r <= |s| && AllDigits(s[i..r]) && (r < |s| ==> !IsDigit(s[r]))
    ensures forall j :: i <= j < r ==> IsDigit(s[j])
  {
    var d := LeadingDigits(s[i..]);
    assert s[i..i + |d|] == d;
    assert forall j :: i <= j < i + |d| ==> s[j] == d[j - i];
    i + |d|
  }

  /** A run of digits that a non-digit ends is the run `DigitsEnd` finds. */
  lemma DigitsEndOf(s: string, i: nat, j: nat)
    requires i <= j <= |s| && AllDigits(s[i..j]) && (j < |s| ==> !IsDigit(s[j]))
    ensures DigitsEnd(s, i) == j
  {
    assert s[i..] == s[i..j] + s[j..];
    LeadingDigitsOf(s[i..j], s[j..]);
  }

  /** The end (exclusive) of a match of `UNTIL=(\d)*T(\d)*Z` that starts at `k`. */
  function UntilAt(s: string, k: nat): (r: Option<nat>)
    ensures r.Some? ==> k + |UntilTag| <= |s| && UntilShape(s, k, DigitsEnd(s, k + |UntilTag|), r.value)
  {
    if !OccursAt(s, UntilTag, k) then None
    else
      var a := DigitsEnd(s, k + |UntilTag|);
      if a < |s| && s[a] == 'T' then
        var b := DigitsEnd(s, a + 1);
        if b < |s| && s[b] == 'Z' then
          assert UntilShape(s, k, a, b + 1);
          Some(b + 1)
        else None
      else None
  }

  /** Whatever has the shape of the pattern at `k` is its match: digits cannot stand for the `T` or the `Z`. */
  lemma UntilAtExact(s: string, k: nat, a: nat, e: nat)
    requires UntilShape(s, k, a, e)
    ensures UntilAt(s, k) == Some(e)
  {
    DigitsEndOf(s, k + |UntilTag|, a);
    DigitsEndOf(s, a + 1, e - 1);
    UntilAtOf(s, k, a, e - 1);
  }

  /** `UntilAt` once both runs of digits are known. */
  lemma UntilAtOf(s: string, k: nat, a: nat, b: nat)
    requires OccursAt(s, UntilTag, k) && a == DigitsEnd(s, k + |UntilTag|) && a < |s| && s[a] == 'T'
    requires b == DigitsEnd(s, a + 1) && b < |s| && s[b] == 'Z'
    ensures UntilAt(s, k) == Some(b + 1)
  {
  }

  /** The leftmost match of the `UNTIL` pattern at or after `from`, as (start, end). */
  function UntilScan(s: string, from: nat): (r: Option<(nat, nat)>)
    decreases |s| - from
    ensures r.Some? ==> from <= r.value.0 && UntilAt(s, r.value.0) == Some(r.value.1)
    ensures forall k :: from <= k && (r.None? || k < r.value.0) ==> UntilAt(s, k).None?
  {
    if from + |UntilTag| > |s| then None
    else if UntilAt(s, from).Some? then Some((from, UntilAt(s, from).value))
    else UntilScan(s, from + 1)
  }

  /** `untilRegex.FindString`: the leftmost match, with the `;` that follows it when there is one. */
  function UntilMatch(rule: string): string {
    match UntilScan(rule, 0)
    case None => []
    case Some((k, e)) => rule[k..e] + SemicolonAt(rule, e)
  }

  /** The `YYYYMMDDTHHMMSSZ`-like text of the leftmost `UNTIL` match, from the first digit to the `Z`. */
  function UntilText(rule: string): (r: Option<string>)
    ensures r.Some? ==> r.value != [] && r.value[|r.value| - 1] == 'Z'
  {
    match UntilScan(rule, 0)
    case None => None
    case Some((k, e)) => Some(rule[k + |UntilTag|..e])
  }

  /** The trimmed `UNTIL` match is the text between the tag and the `Z`, inclusive. */
  lemma UntilFieldTrim(rule: string)
    ensures TrimField(UntilMatch(rule), [UntilTag, ";"]) == (if UntilText(rule).Some? then UntilText(rule).value else [])
  {
    var r := UntilScan(rule, 0);
    if r.Some? {
      UntilTrimAt(rule, r.value.0, r.value.1);
    }
  }

  lemma UntilTrimAt(rule: string, k: nat, e: nat)
    requires UntilAt(rule, k) == Some(e)
    ensures TrimField(rule[k..e] + SemicolonAt(rule, e), [UntilTag, ";"]) == rule[k + |UntilTag|..e]
  {
    UntilMatchParts(rule, k, e);
    TaggedTrim(UntilTag, rule[k + |UntilTag|..e], SemicolonAt(rule, e));
  }

  /** A match is the tag followed by text in which no cut starts. */
  lemma UntilMatchParts(rule: string, k: nat, e: nat)
    requires UntilAt(rule, k) == Some(e)
    ensures rule[k..e] == UntilTag + rule[k + |UntilTag|..e]
    ensures NoCutStart(rule[k + |UntilTag|..e], [UntilTag, ";"])
  {
    var mid := rule[k + |UntilTag|..e];
    var a := DigitsEnd(rule, k + |UntilTag|);
    assert rule[k..k + |UntilTag|] == UntilTag;
    forall j | 0 <= j < |mid| ensures mid[j] != 'U' && mid[j] != ';' {
      var i := k + |UntilTag| + j;
      assert mid[j] == rule[i];
      if i < a {
        assert rule[i] == rule[k + |UntilTag|..a][j];
      } else if a < i < e - 1 {
        assert rule[i] == rule[a + 1..e - 1][i - a - 1];
      }
    }
  }

  /** `parseUntil`: the decoded `UNTIL` stamp, or the zero instant when it is missing or does not decode. */
  function ParseUntil(rule: string): (r: Instant)
    ensures UntilText(rule).None? ==> r == 0
    ensures UntilText(rule).Some? && DecodeStamp(UntilText(rule).value).Some? ==>
      r == DecodeStamp(UntilText(rule).value).value
    ensures UntilText(rule).Some? && DecodeStamp(UntilText(rule).value).None? ==> r == 0
  {
    UntilFieldTrim(rule);
    var until := TrimField(UntilMatch(rule), [UntilTag, ";"]);
    if until == [] then 0
    else match DecodeStamp(until)
      case Some(t) => t
      case None => 0
  }

  /** The `UNTIL` match of a well-formed stamp ends at its `Z`. */
  lemma UntilAtStamp(st: string, rest: string)
    requires StampShape(st)
    ensures UntilAt(UntilTag + st + rest, 0) == Some(|UntilTag| + 16)
  {
    var s := UntilTag + st + rest;
    assert OccursAt(s, UntilTag, 0);
    assert s[6..14] == st[..8] && s[14] == 'T';
    assert s[15..21] == st[9..15] && s[21] == 'Z';
    UntilAtExact(s, 0, 14, 22);
  }

  /** An `UNTIL` stamp at the start of the rule is read back. */
  lemma UntilReadsBack(st: string, rest: string)
    requires StampShape(st) && StampInRange(st)
    ensures ParseUntil(UntilTag + st + rest) == DecodeStamp(st).value
  {
    var s := UntilTag + st + rest;
    UntilAtStamp(st, rest);
    assert UntilScan(s, 0) == Some((0, 22));
    assert s[6..22] == st;
  }

  // ---- FREQ=.*?; and BYMONTH=.*?;

  /** The `FREQ` value: found only when a `;` follows it on the same line. */
  function FreqOf(rule: string): string {
    TrimField(FindString(rule, [FreqTag], ';', 0), [FreqTag, ";"])
  }

  /** The `BYMONTH` value: found only when a `;` follows it on the same line. */
  function ByMonthOf(rule: string): string {
    TrimField(FindString(rule, [ByMonthTag], ';', 0), [ByMonthTag, ";"])
  }

  /** The first `;` or line feed after the tag is the one that ends the value. */
  lemma StopAtValueEnd(s: string, tag: string, f: string, rest: string)
    requires s == tag + f + ";" + rest && ';' !in f && '\n' !in f
    ensures StopAt(s, |tag|, ';') == Some(|tag| + |f|)
  {
    var r := StopAt(s, |tag|, ';');
    assert s[|tag| + |f|] == ';';
    assert forall k :: |tag| <= k < |tag| + |f| ==> s[k] == f[k - |tag|];
  }

  /** A value written as `TAG` value `;` at the start of the rule is read back. */
  lemma SemicolonFieldRead(tag: string, f: string, rest: string)
    requires tag != [] && ';' !in f && '\n' !in f && tag[0] !in f
    requires f == [] || !IsLineEnd(f[|f| - 1])
    ensures TrimField(FindString(tag + f + ";" + rest, [tag], ';', 0), [tag, ";"]) == f
  {
    var s := tag + f + ";" + rest;
    IndexOfPrefix(tag, f + ";" + rest);
    assert tag + (f + ";" + rest) == s;
    assert OccursAt(s, tag, 0);
    StopAtValueEnd(s, tag, f, rest);
    assert MatchAt(s, 0, [tag], ';', 0) == Some(|tag| + |f|);
    assert Scan(s, 0, [tag], ';', 0) == Some((0, |tag| + |f|));
    assert s[0..|tag| + |f| + 1] == tag + f + ";";
    TaggedTrim(tag, f, ";");
  }

  /** `FREQ=` followed by a value and `;` yields that value. */
  lemma FreqRead(f: string, rest: string)
    requires ';' !in f && '\n' !in f && 'F' !in f && (f == [] || !IsLineEnd(f[|f| - 1]))
    ensures FreqOf(FreqTag + f + ";" + rest) == f
  {
    SemicolonFieldRead(FreqTag, f, rest);
  }

  /** `BYMONTH=` followed by a value and `;` yields that value. */
  lemma ByMonthRead(f: string, rest: string)
    requires ';' !in f && '\n' !in f && 'B' !in f && (f == [] || !IsLineEnd(f[|f| - 1]))
    ensures ByMonthOf(ByMonthTag + f + ";" + rest) == f
  {
    SemicolonFieldRead(ByMonthTag, f, rest);
  }

  /** A rule without any `;` has no `FREQ` and no `BYMONTH`, even when it spells them out. */
  lemma NoSemicolonNoFields(rule: string)
    requires ';' !in rule
    ensures FreqOf(rule) == [] && ByMonthOf(rule) == []
  {
    FindStringNeedsTerm(rule, [FreqTag], ';', 0);
    FindStringNeedsTerm(rule, [ByMonthTag], ';', 0);
  }

  // ---- BYDAY=.*?(;|){0,1}\z

  /** `BYDAY=` at `k` with no line feed from there to the end of the text. */
  predicate ByDayAt(s: string, k: nat) {
    OccursAt(s, ByDayTag, k) && '\n' !in s[k..]
  }

  /** The leftmost start of a `BYDAY` match at or after `from`. */
  function ByDayScan(s: string, from: nat): (r: Option<nat>)
    decreases |s| - from
    ensures r.Some? ==> from <= r.value <= |s| && ByDayAt(s, r.value)
    ensures forall k :: from <= k && (r.None? || k < r.value) ==> !ByDayAt(s, k)
  {
    if from + |ByDayTag| > |s| then None
    else if ByDayAt(s, from) then Some(from)
    else ByDayScan(s, from + 1)
  }

  /**
   * The `BYDAY` value: the pattern is anchored at the end of the text, so
   * the match runs from the tag to the end of the rule, and trimming drops
   * every `;` in it.
   */
  function ByDayOf(rule: string): string {
    var m := match ByDayScan(rule, 0)
      case None => []
      case Some(k) => rule[k..];
    TrimField(m, [ByDayTag, ";"])
  }

  /** Neither `;`, `B` nor a line end. */
  predicate PlainPart(s: string) {
    forall k :: 0 <= k < |s| ==> s[k] != ';' && s[k] != 'B' && !IsLineEnd(s[k])
  }

  lemma PlainNoCut(s: string)
    requires PlainPart(s)
    ensures NoCutStart(s, [ByDayTag, ";"])
  {
  }

  /**
   * Everything after the `BYDAY` value is glued to it: the parts after the
   * first `;` stay in the value with the `;` removed.
   */
  lemma ByDayKeepsRest(days: string, rest: string)
    requires PlainPart(days) && PlainPart(rest)
    ensures ByDayOf(ByDayTag + days + ";" + rest) == days + rest
  {
    var s := ByDayTag + days + ";" + rest;
    assert OccursAt(s, ByDayTag, 0);
    assert '\n' !in s[0..] by {
      assert forall k :: 0 <= k < |s| ==> s[k] != '\n';
    }
    assert ByDayScan(s, 0) == Some(0);
    assert s[0..] == s;
    ByDayStrip(days, rest);
    var v := days + rest;
    assert v == [] || !IsLineEnd(v[|v| - 1]);
  }

  /** Removing the cuts leaves the two parts joined. */
  lemma ByDayStrip(days: string, rest: string)
    requires PlainPart(days) && PlainPart(rest)
    ensures RemoveAll(ByDayTag + days + ";" + rest, [ByDayTag, ";"]) == days + rest
  {
    var cuts := [ByDayTag, ";"];
    assert ByDayTag + days + ";" + rest == ByDayTag + (days + (";" + rest));
    assert CutAt(ByDayTag + (days + (";" + rest)), cuts) == |ByDayTag|;
    RemoveAllLeadingCut(ByDayTag, days + (";" + rest), cuts);
    SemicolonJoin(days, rest);
  }

  /** After the tag: the days kept, the `;` dropped, the rest kept. */
  lemma SemicolonJoin(days: string, rest: string)
    requires PlainPart(days) && PlainPart(rest)
    ensures RemoveAll(days + (";" + rest), [ByDayTag, ";"]) == days + rest
  {
    var cuts := [ByDayTag, ";"];
    PlainNoCut(days);
    RemoveAllKeepsPlain(days, ";" + rest, cuts);
    assert (";" + rest)[0] == ';' && ByDayTag[0] == 'B';
    assert CutAt(";" + rest, cuts) == 1;
    RemoveAllLeadingCut(";", rest, cuts);
    PlainNoCut(rest);
    PlainKept(rest, cuts);
  }

  /**
   * So a week start written after the days is read as one more day: the
   * value of `BYDAY=MO;WKST=SU` is `MOWKST=SU`, which selects Sundays too.
   */
  lemma WeekStartSelected(days: string, w: int)
    requires PlainPart(days) && 0 <= w < 7
    ensures Contains(ByDayOf(ByDayTag + days + ";" + WeekStart + DayCode(w)), DayCode(w))
  {
    var code := DayCode(w);
    var rest := WeekStart + code;
    DayCodePlain(w);
    ByDayKeepsRest(days, rest);
    assert ByDayTag + days + ";" + WeekStart + code == ByDayTag + days + ";" + rest;
    assert days + rest == (days + WeekStart) + code;
    ContainsSuffix(days + WeekStart, code);
  }

  const WeekStart: string := "WKST="

  lemma DayCodePlain(w: int)
    requires 0 <= w < 7
    ensures PlainPart(WeekStart + DayCode(w))
  {
  }

  // ---- the filters and the step table

  /** The two-letter iCalendar code of a weekday counted from Monday. */
  function DayCode(w: int): (c: string)
    requires 0 <= w < 7
    ensures |c| == 2
  {
    ["MO", "TU", "WE", "TH", "FR", "SA", "SU"][w]
  }

  /** The month filter: no `BYMONTH`, or the month number occurs somewhere in it. */
  predicate MonthSelected(byMonth: string, t: Instant) {
    byMonth == [] || Contains(byMonth, MonthText(Month(t)))
  }

  /** The day filter: the weekday's code occurs somewhere in the `BYDAY` value. */
  predicate DaySelected(byDay: string, t: Instant) {
    Contains(byDay, DayCode(Weekday(t)))
  }

  /** The month filter is a substring test, so `BYMONTH` 11 or 12 also admits January. */
  lemma MonthFilterIsLoose(t: Instant)
    requires Month(t) == 1
    ensures MonthSelected("11", t) && MonthSelected("12", t)
  {
    assert MonthText(1) == "1";
    assert OccursAt("11", "1", 0) && OccursAt("12", "1", 0);
  }

  /** The years, months and days the cursor moves by on each iteration. */
  datatype Step = Step(years: int, months: int, days: int)

  /** The step table of `parseEvents`. */
  function StepFor(freq: string, interval: int): Step {
    match freq
    case "DAILY" => Step(0, 0, interval)
    case "WEEKLY" => Step(0, 0, 7)
    case "MONTHLY" => Step(0, interval, 0)
    case "YEARLY" => Step(interval, 0, 0)
    case _ => Step(0, 0, 0)
  }

  /** The cursor after one step. */
  function Advance(t: Instant, s: Step): Instant {
    AddDate(t, s.years, s.months, s.days)
  }

  /** A daily rule moves the cursor by `interval` whole days. */
  lemma DailyAdvance(t: Instant, interval: int)
    ensures Advance(t, StepFor("DAILY", interval)) == t + interval * DaySeconds
  {
    AddDaysShift(t, interval);
  }

  /** A weekly rule moves the cursor by exactly seven days, whatever its interval. */
  lemma WeeklyIgnoresInterval(t: Instant, interval: int)
    ensures Advance(t, StepFor("WEEKLY", interval)) == t + 7 * DaySeconds
  {
    AddDaysShift(t, 7);
  }

  /**
   * A monthly rule moves the cursor `interval` months on, carrying whole
   * years, at the same time of day and on the same day of the month; a day
   * the target month lacks runs on into the month after it.
   */
  lemma MonthlyAdvance(t: Instant, interval: int)
    ensures var r := Advance(t, StepFor("MONTHLY", interval));
      Clock(r) == Clock(t) && DateOf(r) == MonthsLater(DateOf(t), 0, interval)
    ensures var dt, m0 := DateOf(t), DateOf(t).month - 1 + interval;
      dt.day <= 28 ==> DateOf(Advance(t, StepFor("MONTHLY", interval))) == Date(dt.year + m0 / 12, m0 % 12 + 1, dt.day)
  {
    assert Advance(t, StepFor("MONTHLY", interval)) == AddDate(t, 0, interval, 0) by {
      assert StepFor("MONTHLY", interval) == Step(0, interval, 0);
    }
    AddMonthsDate(t, 0, interval);
    MonthsLaterSameDay(DateOf(t), 0, interval);
  }

  /**
   * A yearly rule moves the cursor `interval` years on, to the same month,
   * day and time of day; only 29 February runs on to 1 March in a year
   * that is not a leap year.
   */
  lemma YearlyAdvance(t: Instant, interval: int)
    ensures var dt, r := DateOf(t), Advance(t, StepFor("YEARLY", interval));
      Clock(r) == Clock(t)
      && (dt.day <= DaysIn(dt.year + interval, dt.month) ==> DateOf(r) == Date(dt.year + interval, dt.month, dt.day))
      && (dt.day > DaysIn(dt.year + interval, dt.month) ==> DateOf(r) == Date(dt.year + interval, 3, 1))
      && (dt.month != 2 || dt.day != 29 ==> DateOf(r) == Date(dt.year + interval, dt.month, dt.day))
  {
    var dt, r := DateOf(t), Advance(t, StepFor("YEARLY", interval));
    assert r == AddDate(t, interval, 0, 0) by {
      assert StepFor("YEARLY", interval) == Step(interval, 0, 0);
    }
    AddMonthsDate(t, interval, 0);
    assert ValidDate(dt.year, dt.month, dt.day) by {
      CivilFromDaysValid(DayNumber(t));
    }
    YearsLater(dt, interval);
  }

  /** 31 January plus one month is 3 March, or 2 March in a leap year: `time.Date` normalises 31 February. */
  lemma MonthEndRunsOn(y: int, c: int, t: Instant)
    requires 0 <= c < DaySeconds && t == DaysFromCivil(y, 1, 31) * DaySeconds + c
    ensures DateOf(Advance(t, StepFor("MONTHLY", 1))) == Date(y, 3, if IsLeap(y) then 2 else 3)
  {
    assert DateOf(t) == Date(y, 1, 31) by {
      DayOfDay(DaysFromCivil(y, 1, 31), c);
      DaysFromCivilInverse(y, 1, 31);
    }
    MonthlyAdvance(t, 1);
    JanuaryEndMonthLater(y);
  }

  /** Any other frequency, including a missing one, leaves the cursor where it is. */
  lemma OtherFrequencyStalls(t: Instant, freq: string, interval: int)
    requires freq !in {"DAILY", "WEEKLY", "MONTHLY", "YEARLY"}
    ensures Advance(t, StepFor(freq, interval)) == t
  {
    AddDaysShift(t, 0);
  }

  /** A step never changes the time of day. */
  lemma AdvanceKeepsClock(t: Instant, s: Step)
    ensures Clock(Advance(t, s)) == Clock(t)
  {
    AddDateKeepsClock(t, s.years, s.months, s.days);
  }

  /** Everything `parseEvents` reads from a rule before expanding it. */
  datatype Recurrence = Recurrence(until: Instant, count: int, byMonth: string, byDay: string, step: Step)

  /** The decoding of a rule with the given repeat cap. */
  function Decode(rule: string, maxRepeats: int): Recurrence {
    Recurrence(ParseUntil(rule), ParseCount(rule, maxRepeats), ByMonthOf(rule), ByDayOf(rule),
               StepFor(FreqOf(rule), ParseInterval(rule)))
  }
}
