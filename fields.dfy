/**
 * Extraction from the calendar text: the split into event blocks
 * (`explodeICal`), the calendar header, the single-line event fields, and
 * the folded attendee and organizer properties.
 *
 * Every single-line field is the first `TAG.*?\n` match anywhere in the
 * block (the tag is not anchored to the start of a line), trimmed by the
 * field trimming.
 */
module Fields {
  import opened Wrappers
  import opened Text
  import opened Civil
  import opened Timezone

  // ---- single-line fields

  /** The first `tag` line of the block, trimmed of every occurrence of `cut` and of the line end. */
  function LineField(block: string, tag: string, cut: string): string {
    TrimField(FindString(block, [tag], '\n', 0), [cut])
  }

  /** The usual case: the trimmed cut is the tag itself. */
  function Field(block: string, tag: string): string {
    LineField(block, tag, tag)
  }

  const SummaryTag: string := "SUMMARY:"
  const StatusTag: string := "STATUS:"
  const DescriptionTag: string := "DESCRIPTION:"
  const UidTag: string := "UID:"
  const ClassTag: string := "CLASS:"
  const SequenceTag: string := "SEQUENCE:"
  const CreatedTag: string := "CREATED:"
  const ModifiedTag: string := "LAST-MODIFIED:"
  const RRuleTag: string := "RRULE:"
  const LocationTag: string := "LOCATION:"

  /** `parseEventID`: the `UID` line with `DSTAMP:` trimmed from it, so the `UID:` prefix stays. */
  function EventId(block: string): string {
    LineField(block, UidTag, "DSTAMP:")
  }

  /** `parseEventSequence`: the `SEQUENCE` value read by `strconv.Atoi`, 0 when it does not parse. */
  function EventSequence(block: string): int {
    Atoi(Field(block, SequenceTag))
  }

  /** `time.Parse` of the reader's stamp layout with the error dropped: the zero instant on failure. */
  function StampOrZero(text: string): (t: Instant)
    ensures DecodeStamp(text).Some? ==> t == DecodeStamp(text).value
    ensures DecodeStamp(text).None? ==> IsZero(t)
  {
    match DecodeStamp(text)
    case Some(t) => t
    case None => 0
  }

  /** `parseEventCreated`. */
  function EventCreated(block: string): Instant {
    StampOrZero(Field(block, CreatedTag))
  }

  /** `parseEventModified`. */
  function EventModified(block: string): Instant {
    StampOrZero(Field(block, ModifiedTag))
  }

  /** Trimming a line made of the tag, a value free of cuts, and the line end leaves the value. */
  lemma LineTrim(tag: string, v: string, e: string)
    requires tag != [] && !IsLineEnd(tag[0]) && NoCutStart(v, [tag])
    requires (e == "\n" || e == "\r\n") && (v == [] || !IsLineEnd(v[|v| - 1]))
    ensures TrimField(tag + v + e, [tag]) == v
  {
    assert tag + v + e == tag + (v + e);
    LineKept(tag, v, e);
    TrimLineEndOf(v, e);
  }

  /** Removing the tag from a tagged line leaves the value and the line end. */
  lemma LineKept(tag: string, v: string, e: string)
    requires tag != [] && !IsLineEnd(tag[0]) && NoCutStart(v, [tag])
    requires e == "\n" || e == "\r\n"
    ensures RemoveAll(tag + (v + e), [tag]) == v + e
  {
    var cuts := [tag];
    assert CutAt(tag + (v + e), cuts) == |tag|;
    RemoveAllLeadingCut(tag, v + e, cuts);
    RemoveAllKeepsPlain(v, e, cuts);
    LineEndKept(tag, e);
  }

  lemma LineEndKept(tag: string, e: string)
    requires tag != [] && !IsLineEnd(tag[0]) && (e == "\n" || e == "\r\n")
    ensures RemoveAll(e, [tag]) == e
  {
    PlainKept(e, [tag]);
  }

  /** The first line of a block that starts with the tag is matched up to its line feed. */
  lemma FirstLineMatch(tag: string, v: string, rest: string)
    requires tag != [] && '\n' !in v
    ensures FindString(tag + v + "\n" + rest, [tag], '\n', 0) == tag + v + "\n"
  {
    var s := tag + v + "\n" + rest;
    assert OccursAt(s, tag, 0);
    assert forall k :: |tag| <= k < |tag| + |v| ==> s[k] == v[k - |tag|];
    StopAtFirst(s, |tag|, '\n', |tag| + |v|);
    FindStringAtStart(s, tag, '\n', |tag| + |v|);
    assert s[..|tag| + |v| + 1] == tag + v + "\n";
  }

  /**
   * A field on the first line of the block is read back, whether the line
   * ends in a line feed or in a carriage return and a line feed.
   */
  lemma FieldRead(tag: string, v: string, e: string, rest: string)
    requires tag != [] && !IsLineEnd(tag[0]) && tag[0] !in v && '\n' !in v
    requires (e == "\n" || e == "\r\n") && (v == [] || !IsLineEnd(v[|v| - 1]))
    ensures Field(tag + v + e + rest, tag) == v
  {
    FieldLine(tag, v, e, rest);
    assert NoCutStart(v, [tag]);
    LineTrim(tag, v, e);
  }

  /** A `SEQUENCE` line at the start of the block is read by `strconv.Atoi`. */
  lemma SequenceRead(v: string, e: string, rest: string)
    requires 'S' !in v && '\n' !in v
    requires (e == "\n" || e == "\r\n") && (v == [] || !IsLineEnd(v[|v| - 1]))
    ensures EventSequence(SequenceTag + v + e + rest) == Atoi(v)
  {
    FieldRead(SequenceTag, v, e, rest);
  }

  /** A `CREATED` line at the start of the block gives its stamp, or the zero instant when it does not decode. */
  lemma CreatedRead(v: string, e: string, rest: string)
    requires 'C' !in v && '\n' !in v
    requires (e == "\n" || e == "\r\n") && (v == [] || !IsLineEnd(v[|v| - 1]))
    ensures EventCreated(CreatedTag + v + e + rest) == StampOrZero(v)
  {
    FieldRead(CreatedTag, v, e, rest);
  }

  /** A `LAST-MODIFIED` line at the start of the block gives its stamp, or the zero instant when it does not decode. */
  lemma ModifiedRead(v: string, e: string, rest: string)
    requires 'L' !in v && '\n' !in v
    requires (e == "\n" || e == "\r\n") && (v == [] || !IsLineEnd(v[|v| - 1]))
    ensures EventModified(ModifiedTag + v + e + rest) == StampOrZero(v)
  {
    FieldRead(ModifiedTag, v, e, rest);
  }

  /** The matched line of a block starting with the tag is the whole first line. */
  lemma FieldLine(tag: string, v: string, e: string, rest: string)
    requires tag != [] && '\n' !in v && (e == "\n" || e == "\r\n")
    ensures FindString(tag + v + e + rest, [tag], '\n', 0) == tag + v + e
  {
    var w := v + e[..|e| - 1];
    assert w + "\n" == v + e by {
      assert e == e[..|e| - 1] + "\n";
    }
    FirstLineMatch(tag, w, rest);
    assert tag + w + "\n" == tag + v + e;
  }

  /** A block without the tag has an empty field. */
  lemma FieldAbsent(block: string, tag: string)
    requires !Contains(block, tag)
    ensures Field(block, tag) == []
  {
    FindStringNeedsTag(block, tag, '\n', 0);
  }

  /** The event identifier keeps its `UID:` prefix: only `DSTAMP:` is trimmed. */
  lemma EventIdKeepsTag(v: string, rest: string)
    requires 'D' !in v && '\n' !in v && (v == [] || !IsLineEnd(v[|v| - 1]))
    ensures EventId(UidTag + v + "\n" + rest) == UidTag + v
  {
    FirstLineMatch(UidTag, v, rest);
    assert 'D' !in v + "\n";
    UidLineKept(v + "\n");
    assert UidTag + (v + "\n") == (UidTag + v) + "\n";
    TrimLineEndOf(UidTag + v, "\n");
  }

  /** No `DSTAMP:` starts in a `UID:` line whose value holds no `D`. */
  lemma UidLineKept(w: string)
    requires 'D' !in w
    ensures RemoveAll(UidTag + w, ["DSTAMP:"]) == UidTag + w
  {
    var d := "D:" + w;
    assert UidTag + w == "UI" + d;
    assert NoCutStart("UI", ["DSTAMP:"]);
    RemoveAllKeepsPlain("UI", d, ["DSTAMP:"]);
    DKept(w);
  }

  /** The `D` of `UID:` does not start `DSTAMP:` when the value holds no `D`. */
  lemma DKept(w: string)
    requires 'D' !in w
    ensures RemoveAll("D:" + w, ["DSTAMP:"]) == "D:" + w
  {
    var d := "D:" + w;
    forall k, c | 0 <= k < |d| && c in ["DSTAMP:"] && c != [] ensures !OccursAt(d + [], c, k) {
      DstampNowhere(w, k);
    }
    RemoveAllKeeps(d, [], ["DSTAMP:"]);
    assert d + [] == d;
  }

  /** `DSTAMP:` starts nowhere in `D:` and a value without `D`. */
  lemma DstampNowhere(w: string, k: nat)
    requires 'D' !in w
    ensures !OccursAt("D:" + w + [], "DSTAMP:", k)
  {
    var d := "D:" + w + [];
    if k + 7 <= |d| {
      var m := d[k..k + 7];
      assert m[0] == d[k] && m[1] == d[k + 1];
      if k >= 2 {
        assert d[k] == w[k - 2];
      }
    }
  }

  // ---- folded properties: ATTENDEE(:|;)(.*?\r?\n)(\s.*?\r?\n)*

  /** The end of the continuation lines from `p`: each starts with white space and runs to its line feed. */
  function ContinuedTo(s: string, p: nat): (e: nat)
    requires p <= |s|
    decreases |s| - p
    ensures p <= e <= |s|
    // What is taken is whole lines, the first of them starting with white space.
    ensures e == p || (IsRegexSpace(s[p]) && s[e - 1] == '\n')
    // As many lines as there are: the next one is not a continuation line.
    ensures e < |s| && IsRegexSpace(s[e]) ==> CharIndex(s, '\n', e + 1).None?
    ensures p < |s| && IsRegexSpace(s[p]) && CharIndex(s, '\n', p + 1).Some? ==> p < e
  {
    if p < |s| && IsRegexSpace(s[p]) then
      match CharIndex(s, '\n', p + 1)
      case None => p
      case Some(q) => ContinuedTo(s, q + 1)
    else p
  }

  /** The end (exclusive) of a folded property starting at `k`: tag, `:` or `;`, its line, and the continuation lines. */
  function FoldedAt(s: string, tag: string, k: nat): (r: Option<nat>)
    ensures r.Some? ==> OccursAt(s, tag, k) && k + |tag| < r.value <= |s| && s[r.value - 1] == '\n'
    // A match needs the tag, a `:` or `;`, and a line feed later on.
    ensures r.Some? <==>
      OccursAt(s, tag, k) && k + |tag| < |s| && (s[k + |tag|] == ':' || s[k + |tag|] == ';')
      && CharIndex(s, '\n', k + |tag| + 1).Some?
    // It runs past the first line feed and every continuation line after it.
    ensures r.Some? ==> r.value == ContinuedTo(s, CharIndex(s, '\n', k + |tag| + 1).value + 1)
  {
    var h := k + |tag|;
    if OccursAt(s, tag, k) && h < |s| && (s[h] == ':' || s[h] == ';') then
      match CharIndex(s, '\n', h + 1)
      case None => None
      case Some(q) => Some(ContinuedTo(s, q + 1))
    else None
  }

  /** The leftmost folded property at or after `from`, as (start, end). */
  function FoldedScan(s: string, tag: string, from: nat): (r: Option<(nat, nat)>)
    decreases |s| - from
    ensures r.Some? ==> from <= r.value.0 && FoldedAt(s, tag, r.value.0) == Some(r.value.1)
    ensures forall k :: from <= k && (r.None? || k < r.value.0) ==> FoldedAt(s, tag, k).None?
  {
    if from + |tag| >= |s| then None
    else if FoldedAt(s, tag, from).Some? then Some((from, FoldedAt(s, tag, from).value))
    else FoldedScan(s, tag, from + 1)
  }

  /** `FindAllString` of a folded property: the leftmost non-overlapping matches, in order. */
  function FoldedAll(s: string, tag: string, from: nat): (r: seq<string>)
    decreases |s| - from
    ensures forall x :: x in r ==> tag <= x && |x| > 0 && x[|x| - 1] == '\n'
    // The first is the leftmost match; there is none only when no match is left.
    ensures r == [] <==> FoldedScan(s, tag, from).None?
    ensures r != [] ==> r[0] == s[FoldedScan(s, tag, from).value.0..FoldedScan(s, tag, from).value.1]
  {
    match FoldedScan(s, tag, from)
    case None => []
    case Some((k, e)) =>
      var m := s[k..e];
      assert m[..|tag|] == tag && m[|m| - 1] == '\n';
      [m] + FoldedAll(s, tag, e)
  }

  /** `FindString` of a folded property. */
  function FoldedFirst(s: string, tag: string): (r: string)
    ensures r == [] <==> FoldedAll(s, tag, 0) == []
    ensures r != [] ==> r == FoldedAll(s, tag, 0)[0]
  {
    match FoldedScan(s, tag, 0)
    case None => []
    case Some((k, e)) => s[k..e]
  }

  /** The unfolding the reader applies: only the first `\r` and the first line feed followed by a space go. */
  function Unfold(a: string): string {
    RemoveFirst(RemoveFirst(a, "\r"), "\n ")
  }

  /** The first fold of a property is joined. */
  lemma FirstFoldJoined(head: string, tail: string)
    requires '\r' !in head && '\n' !in head
    ensures Unfold(head + "\r\n " + tail) == head + tail
  {
    var a := head + "\r\n " + tail;
    assert OccursAt(a, "\r", |head|);
    assert forall k :: 0 <= k < |head| ==> !OccursAt(a, "\r", k) by {
      forall k | 0 <= k < |head| ensures !OccursAt(a, "\r", k) {
        assert a[k..k + 1][0] == head[k] && head[k] != '\r';
      }
    }
    assert IndexOf(a, "\r", 0) == Some(|head|);
    var b := head + "\n " + tail;
    assert a[..|head|] + a[|head| + 1..] == b;
    assert OccursAt(b, "\n ", |head|);
    assert forall k :: 0 <= k < |head| ==> !OccursAt(b, "\n ", k) by {
      forall k | 0 <= k < |head| ensures !OccursAt(b, "\n ", k) {
        assert b[k..k + 2][0] == head[k] && head[k] != '\n';
      }
    }
    assert IndexOf(b, "\n ", 0) == Some(|head|);
    assert b[..|head|] + b[|head| + 2..] == head + tail;
  }

  /** An attendee or organizer, as the reader fills it. */
  datatype Attendee = Attendee(email: string, name: string, role: string, status: string, userType: string)

  const NoAttendee: Attendee := Attendee("", "", "", "", "")

  /** A `TAG.*?;` sub-field, trimmed of the tag and of every `;`. */
  function Param(data: string, tag: string): string {
    TrimField(FindString(data, [tag], ';', 0), [tag, ";"])
  }

  /** `parseAttendeeMail`: the text after `mailto:` up to the line end. */
  function Mail(data: string): string {
    Field(data, "mailto:")
  }

  /** `parseAttendee`. */
  function ParseAttendee(data: string): Attendee {
    Attendee(Mail(data), Param(data, "CN="), Param(data, "ROLE="), Param(data, "PARTSTAT="), Param(data, "CUTYPE="))
  }

  /** An attendee counts when it has an email or a name. */
  predicate Identified(a: Attendee) {
    a.email != [] || a.name != []
  }

  const AttendeeTag: string := "ATTENDEE"
  const OrganizerTag: string := "ORGANIZER"

  /** The attendees the reader keeps from a list of matched properties, in order. */
  function KeptAttendees(props: seq<string>): (r: seq<Attendee>)
    ensures |r| <= |props|
    ensures forall i :: 0 <= i < |r| ==> Identified(r[i])
  {
    if props == [] then []
    else
      var rest := KeptAttendees(props[..|props| - 1]);
      var p := props[|props| - 1];
      var a := ParseAttendee(Unfold(p));
      if p != [] && Identified(a) then rest + [a] else rest
  }

  /** One more property: kept after the others when it is identified. */
  lemma KeptAttendeesStep(props: seq<string>, i: nat)
    requires i < |props|
    ensures KeptAttendees(props[..i + 1]) ==
      if props[i] != [] && Identified(ParseAttendee(Unfold(props[i])))
      then KeptAttendees(props[..i]) + [ParseAttendee(Unfold(props[i]))]
      else KeptAttendees(props[..i])
  {
    assert props[..i + 1][..i] == props[..i];
  }

  /** Every identified attendee of the list is kept. */
  lemma {:induction false} KeptAttendeesComplete(props: seq<string>, j: nat)
    requires j < |props| && Identified(ParseAttendee(Unfold(props[j])))
    ensures ParseAttendee(Unfold(props[j])) in KeptAttendees(props)
    decreases |props|
  {
    if j < |props| - 1 {
      assert props[..|props| - 1][j] == props[j];
      KeptAttendeesComplete(props[..|props| - 1], j);
    } else {
      assert props[j] != [] by {
        if props[j] == [] {
          assert Unfold(props[j]) == [];
          AttendeeOfNothing();
        }
      }
    }
  }

  /** Nothing holds no email and no name. */
  lemma AttendeeOfNothing()
    ensures !Identified(ParseAttendee([]))
  {
    FindStringNeedsTag([], "mailto:", '\n', 0);
    FindStringNeedsTag([], "CN=", ';', 0);
  }

  /** Every kept attendee comes from one of the properties. */
  lemma {:induction false} KeptAttendeesSound(props: seq<string>, a: Attendee)
    requires a in KeptAttendees(props)
    ensures exists j :: 0 <= j < |props| && a == ParseAttendee(Unfold(props[j]))
    decreases |props|
  {
    var rest := KeptAttendees(props[..|props| - 1]);
    if a in rest {
      KeptAttendeesSound(props[..|props| - 1], a);
      var j :| 0 <= j < |props| - 1 && a == ParseAttendee(Unfold(props[..|props| - 1][j]));
      assert props[..|props| - 1][j] == props[j];
    } else {
      assert a == ParseAttendee(Unfold(props[|props| - 1]));
    }
  }

  /** `parseEventAttendees`. */
  method ParseEventAttendees(block: string) returns (attendees: seq<Attendee>)
    ensures attendees == KeptAttendees(FoldedAll(block, AttendeeTag, 0))
  {
    var props := FoldedAll(block, AttendeeTag, 0);
    attendees := [];
    var i := 0;
    while i < |props|
      invariant 0 <= i <= |props|
      invariant attendees == KeptAttendees(props[..i])
    {
      KeptAttendeesStep(props, i);
      var p := props[i];
      if p != [] {
        var a := ParseAttendee(Unfold(p));
        if a.email != [] || a.name != [] {
          attendees := attendees + [a];
        }
      }
      i := i + 1;
    }
    assert props[..|props|] == props;
  }

  /** `parseEventOrganizer`: the first organizer property's email and `CN=` name (ended by `:`). */
  function ParseOrganizer(block: string): (r: Attendee)
    ensures FoldedFirst(block, OrganizerTag) == [] ==> r == NoAttendee
    ensures r.role == [] && r.status == [] && r.userType == []
  {
    var o := FoldedFirst(block, OrganizerTag);
    if o == [] then NoAttendee
    else
      var data := Unfold(o);
      Attendee(Mail(data), TrimField(FindString(data, ["CN="], ':', 0), ["CN=", ":"]), "", "", "")
  }

  /** The organizer line `ORGANIZER;CN=name:mailto:address`, without its line end. */
  function OrganizerLine(n: string, a: string): string {
    "ORGANIZER;CN=" + n + ":mailto:" + a
  }

  /**
   * An organizer line at the start of the block, ended by `\r\n` and not
   * folded, gives its address and its name and nothing else.
   */
  lemma OrganizerRead(n: string, a: string, rest: string)
    requires ':' !in n && !Contains(n, "CN=") && !Contains(n, "mailto") && '\r' !in n && '\n' !in n
    requires !Contains(a, "mailto:") && '\r' !in a && '\n' !in a
    requires rest == [] || !IsRegexSpace(rest[0])
    ensures ParseOrganizer(OrganizerLine(n, a) + "\r\n" + rest) == Attendee(a, n, "", "", "")
  {
    var p := OrganizerLine(n, a);
    assert '\r' !in p && '\n' !in p by {
      assert forall k :: 0 <= k < |p| ==>
        p[k] in "ORGANIZER;CN=" || p[k] in n || p[k] in ":mailto:" || p[k] in a;
    }
    OrganizerFirst(p, rest);
    UnfoldLine(p);
    OrganizerMail(n, a);
    OrganizerName(n, a);
  }

  /** The first folded organizer property is the whole first line when the next line is no continuation. */
  lemma OrganizerFirst(p: string, rest: string)
    requires OrganizerTag + ";" <= p && '\n' !in p
    requires rest == [] || !IsRegexSpace(rest[0])
    ensures FoldedFirst(p + "\r\n" + rest, OrganizerTag) == p + "\r\n"
  {
    var line := p + "\r\n";
    var block := line + rest;
    var h := |OrganizerTag|;
    assert forall k :: 0 <= k < |line| ==> block[k] == line[k];
    assert OccursAt(block, OrganizerTag, 0) by {
      assert block[..h] == p[..h];
    }
    assert block[h] == ';';
    assert block[|p| + 1] == '\n';
    assert CharIndex(block, '\n', h + 1) == Some(|p| + 1);
    assert ContinuedTo(block, |line|) == |line|;
    assert FoldedAt(block, OrganizerTag, 0) == Some(|line|);
    assert FoldedScan(block, OrganizerTag, 0) == Some((0, |line|));
    assert block[0..|line|] == line;
  }

  /** Unfolding a single line drops its carriage return and nothing else. */
  lemma UnfoldLine(p: string)
    requires '\r' !in p && '\n' !in p
    ensures Unfold(p + "\r\n") == p + "\n"
  {
    var s := p + "\r\n";
    assert IndexOf(s, "\r", 0) == Some(|p|) by {
      assert OccursAt(s, "\r", |p|);
      forall k | 0 <= k < |p| ensures !OccursAt(s, "\r", k) {
        assert s[k..k + 1][0] == p[k] && p[k] != '\r';
      }
    }
    var t := p + "\n";
    assert s[..|p|] + s[|p| + 1..] == t;
    assert !Contains(t, "\n ") by {
      forall k | 0 <= k <= |t| ensures !OccursAt(t, "\n ", k) {
        if k + |"\n "| <= |t| {
          assert k < |p| && t[k] == p[k] && p[k] != '\n';
          assert t[k..k + 2][0] == t[k];
        }
      }
    }
  }

  /** The address of an organizer line: `mailto:` first occurs right before it. */
  lemma OrganizerMail(n: string, a: string)
    requires ':' !in n && !Contains(n, "mailto") && '\n' !in n
    requires !Contains(a, "mailto:") && '\r' !in a && '\n' !in a
    ensures Mail(OrganizerLine(n, a) + "\n") == a
  {
    MailMatch(n, a);
    AddressKept(a);
  }

  /** The `mailto:` match of an organizer line runs from the `mailto:` after the name to the line feed. */
  lemma MailMatch(n: string, a: string)
    requires ':' !in n && !Contains(n, "mailto") && '\n' !in n && '\n' !in a
    ensures FindString(OrganizerLine(n, a) + "\n", ["mailto:"], '\n', 0) == "mailto:" + a + "\n"
  {
    var data := OrganizerLine(n, a) + "\n";
    MailMatchAt(n, a);
    forall k | 0 <= k < 14 + |n| ensures MatchAt(data, k, ["mailto:"], '\n', 0).None? {
      MailtoNotBefore(n, a, k);
    }
    FindStringAt(data, ["mailto:"], '\n', 0, 14 + |n|);
  }

  /** `mailto:` after the name starts a match that ends at the line feed. */
  lemma MailMatchAt(n: string, a: string)
    requires '\n' !in a
    ensures var data := OrganizerLine(n, a) + "\n";
      MatchAt(data, 14 + |n|, ["mailto:"], '\n', 0) == Some(|data| - 1)
      && data[14 + |n|..|data|] == "mailto:" + a + "\n"
  {
    var data := OrganizerLine(n, a) + "\n";
    var j := 14 + |n|;
    var tail := "mailto:" + a + "\n";
    assert data[j..] == tail by {
      assert data == ("ORGANIZER;CN=" + n + ":") + tail;
    }
    MailStop(data, j, a);
  }

  /** The match of `mailto:` at `j` stops at the line feed that ends the address. */
  lemma MailStop(data: string, j: nat, a: string)
    requires j <= |data| && data[j..] == "mailto:" + a + "\n" && '\n' !in a
    ensures MatchAt(data, j, ["mailto:"], '\n', 0) == Some(|data| - 1)
  {
    var tail := data[j..];
    var e := |data| - 1;
    assert OccursAt(data, "mailto:", j) by {
      assert data[j..j + 7] == tail[..7];
    }
    forall k | j + 7 <= k < e ensures data[k] != '\n' {
      assert data[k] == tail[k - j] == a[k - j - 7];
    }
    assert data[e] == tail[|tail| - 1];
    StopAtFirst(data, j + 7, '\n', e);
  }

  /** Trimming `mailto:address` and its line feed leaves the address. */
  lemma AddressKept(a: string)
    requires !Contains(a, "mailto:") && '\r' !in a && '\n' !in a
    ensures TrimField("mailto:" + a + "\n", ["mailto:"]) == a
  {
    var cuts := ["mailto:"];
    var b := a + "\n";
    assert RemoveAll("mailto:" + a + "\n", cuts) == RemoveAll(b, cuts) by {
      assert "mailto:" + a + "\n" == "mailto:" + b;
      RemoveAllLeadingCut("mailto:", b, cuts);
    }
    AddressNoCut(a);
    TrimLineEndOf(a, "\n");
  }

  /** No `mailto:` starts in an address that holds none, followed by its line feed. */
  lemma AddressNoCut(a: string)
    requires !Contains(a, "mailto:") && '\n' !in a
    ensures RemoveAll(a + "\n", ["mailto:"]) == a + "\n"
  {
    var cuts := ["mailto:"];
    var b := a + "\n";
    forall k, c | 0 <= k < |b| && c in cuts && c != [] ensures !OccursAt(b + [], c, k) {
      assert b + [] == b;
      if k + 7 <= |a| {
        assert b[k..k + 7] == a[k..k + 7];
        assert !OccursAt(a, c, k);
      } else if k + 7 == |b| {
        assert b[k..k + 7][6] == b[|a|] == '\n';
      }
    }
    RemoveAllKeeps(b, [], cuts);
    assert b + [] == b;
  }

  /** `mailto:` does not occur before the one that follows the name. */
  lemma MailtoNotBefore(n: string, a: string, k: nat)
    requires ':' !in n && !Contains(n, "mailto")
    requires k < 14 + |n|
    ensures !OccursAt(OrganizerLine(n, a) + "\n", "mailto:", k)
  {
    var data := OrganizerLine(n, a) + "\n";
    var head := "ORGANIZER;CN=";
    var tail := ":mailto:" + a + "\n";
    assert data == head + n + tail;
    if k + 7 <= |data| {
      var w := data[k..k + 7];
      assert w[0] == data[k] && w[6] == data[k + 6];
      if k < 13 {
        assert data[k] == head[k];
      } else if k + 6 < 13 + |n| {
        assert data[k + 6] == n[k - 7];
      } else if k + 6 == 13 + |n| {
        assert w[..6] == n[k - 13..|n|] by {
          forall t | 0 <= t < 6 ensures w[..6][t] == n[k - 13..|n|][t] {
            assert data[k + t] == n[k - 13 + t];
          }
        }
        assert !OccursAt(n, "mailto", k - 13);
      } else {
        assert data[k + 6] == tail[k + 6 - 13 - |n|];
      }
    }
  }

  /** The name of an organizer line: the `CN=` sub-field, ended by the `:` after it. */
  lemma OrganizerName(n: string, a: string)
    requires ':' !in n && !Contains(n, "CN=") && '\r' !in n && '\n' !in n
    ensures TrimField(FindString(OrganizerLine(n, a) + "\n", ["CN="], ':', 0), ["CN=", ":"]) == n
  {
    NameMatch(n, a);
    NameKept(n);
  }

  /** The `CN=` match of an organizer line runs from its `CN=` to the `:` after the name. */
  lemma NameMatch(n: string, a: string)
    requires ':' !in n && '\n' !in n
    ensures FindString(OrganizerLine(n, a) + "\n", ["CN="], ':', 0) == "CN=" + n + ":"
  {
    var data := OrganizerLine(n, a) + "\n";
    NameMatchAt(n, a);
    forall k | 0 <= k < 10 ensures MatchAt(data, k, ["CN="], ':', 0).None? {
      CnNotBefore(n, a, k);
    }
    FindStringAt(data, ["CN="], ':', 0, 10);
  }

  /** `CN=` does not occur within `ORGANIZER;`. */
  lemma CnNotBefore(n: string, a: string, k: nat)
    requires k < 10
    ensures !OccursAt(OrganizerLine(n, a) + "\n", "CN=", k)
  {
    var data := OrganizerLine(n, a) + "\n";
    var head := "ORGANIZER;";
    assert data == head + ("CN=" + n + ":mailto:" + a + "\n");
    assert data[k] == head[k];
    assert data[k..k + 3][0] == data[k];
  }

  /** `CN=` starts a match that ends at the `:` after the name. */
  lemma NameMatchAt(n: string, a: string)
    requires ':' !in n && '\n' !in n
    ensures var data := OrganizerLine(n, a) + "\n";
      MatchAt(data, 10, ["CN="], ':', 0) == Some(13 + |n|) && data[10..14 + |n|] == "CN=" + n + ":"
  {
    var data := OrganizerLine(n, a) + "\n";
    var e := 13 + |n|;
    assert data == "ORGANIZER;" + ("CN=" + n + ":") + ("mailto:" + a + "\n");
    assert forall k :: 13 <= k < e ==> data[k] == n[k - 13];
    assert OccursAt(data, "CN=", 10);
    StopAtFirst(data, 13, ':', e);
  }

  /** Trimming `CN=name:` leaves the name. */
  lemma NameKept(n: string)
    requires ':' !in n && !Contains(n, "CN=") && '\r' !in n && '\n' !in n
    ensures TrimField("CN=" + n + ":", ["CN=", ":"]) == n
  {
    var cuts := ["CN=", ":"];
    assert RemoveAll("CN=" + n + ":", cuts) == RemoveAll(n + ":", cuts) by {
      assert "CN=" + n + ":" == "CN=" + (n + ":");
      RemoveAllLeadingCut("CN=", n + ":", cuts);
    }
    NameNoCut(n);
    assert RemoveAll(":", cuts) == [] by {
      assert CutAt(":", cuts) == 1;
    }
    assert n + [] == n;
    TrimLineEndOf(n, []);
  }

  /** No cut starts inside a name that holds neither `:` nor `CN=`. */
  lemma NameNoCut(n: string)
    requires ':' !in n && !Contains(n, "CN=")
    ensures RemoveAll(n + ":", ["CN=", ":"]) == n + RemoveAll(":", ["CN=", ":"])
  {
    var cuts := ["CN=", ":"];
    forall k, c | 0 <= k < |n| && c in cuts && c != [] ensures !OccursAt(n + ":", c, k) {
      var t := n + ":";
      if c == ":" {
        assert t[k..k + 1][0] == n[k];
      } else if k + 3 <= |n| {
        assert t[k..k + 3] == n[k..k + 3];
        assert !OccursAt(n, c, k);
      } else if k + 3 == |t| {
        assert t[k..k + 3][2] == t[|n|] == ':';
      }
    }
    RemoveAllKeeps(n, ":", cuts);
  }

  // ---- event blocks: (BEGIN:VEVENT(.*\n)*?END:VEVENT\r?\n)

  const BeginTag: string := "BEGIN:VEVENT"
  const EndTag: string := "END:VEVENT"

  /** `END:VEVENT` at `j`, followed by a line feed or by a carriage return and a line feed. */
  predicate EndLineAt(s: string, j: nat) {
    OccursAt(s, EndTag, j)
    && ((j + 10 < |s| && s[j + 10] == '\n') || (j + 11 < |s| && s[j + 10] == '\r' && s[j + 11] == '\n'))
  }

  /** The end (exclusive) of the end line at `j`: past its `\r\n`, or past its `\n`. */
  function EndOf(s: string, j: nat): (e: nat)
    requires EndLineAt(s, j)
    ensures j + |EndTag| < e <= |s| && s[e - 1] == '\n'
    ensures e == j + |EndTag| + 1 || (e == j + |EndTag| + 2 && s[j + |EndTag|] == '\r')
  {
    if j + 11 < |s| && s[j + 10] == '\r' && s[j + 11] == '\n' then j + 12 else j + 11
  }

  /** `j` starts a line of the text read from `p`: it is `p`, or it follows a line feed. */
  predicate LineStart(s: string, p: nat, j: nat) {
    j == p || (p < j <= |s| && s[j - 1] == '\n')
  }

  /** `(.*\n)*?` before `END:VEVENT\r?\n` from `p`: the first line start that holds the end tag. */
  function EndLine(s: string, p: nat): (r: Option<nat>)
    decreases |s| - p
    ensures r.Some? ==> p <= r.value && LineStart(s, p, r.value) && EndLineAt(s, r.value)
    ensures forall i :: p <= i && LineStart(s, p, i) && (r.None? || i < r.value) ==> !EndLineAt(s, i)
  {
    if EndLineAt(s, p) then Some(p)
    else match CharIndex(s, '\n', p)
      case None => None
      case Some(q) =>
        var r := EndLine(s, q + 1);
        assert forall i :: p < i && LineStart(s, p, i) ==> q + 1 <= i && LineStart(s, q + 1, i);
        r
  }

  /** The end (exclusive) of an event block starting at `k`: past the first end line after `BEGIN:VEVENT`. */
  function BlockAt(s: string, k: nat): (r: Option<nat>)
    ensures r.Some? <==> OccursAt(s, BeginTag, k) && EndLine(s, k + |BeginTag|).Some?
    ensures r.Some? ==> r.value == EndOf(s, EndLine(s, k + |BeginTag|).value)
    ensures r.Some? ==> k + |BeginTag| < r.value <= |s| && s[r.value - 1] == '\n'
  {
    if OccursAt(s, BeginTag, k) then
      match EndLine(s, k + |BeginTag|)
      case None => None
      case Some(j) => Some(EndOf(s, j))
    else None
  }

  /** The leftmost event block at or after `from`. */
  function BlockScan(s: string, from: nat): (r: Option<(nat, nat)>)
    decreases |s| - from
    ensures r.Some? ==> from <= r.value.0 && BlockAt(s, r.value.0) == Some(r.value.1)
    ensures forall k :: from <= k && (r.None? || k < r.value.0) ==> BlockAt(s, k).None?
  {
    if from + |BeginTag| > |s| then None
    else if BlockAt(s, from).Some? then Some((from, BlockAt(s, from).value))
    else BlockScan(s, from + 1)
  }

  /** The event blocks from `from` on, and the text around them: one more gap than blocks. */
  function Explode(s: string, from: nat): (r: (seq<string>, seq<string>))
    requires from <= |s|
    decreases |s| - from
    ensures |r.1| == |r.0| + 1
    ensures forall i :: 0 <= i < |r.0| ==> IsBlock(r.0[i])
  {
    match BlockScan(s, from)
    case None => ([], [s[from..]])
    case Some((k, e)) =>
      var rest := Explode(s, e);
      BlockShape(s, k, e);
      ([s[k..e]] + rest.0, [s[from..k]] + rest.1)
  }

  /** An event block: it starts with `BEGIN:VEVENT` and ends with a line end. */
  predicate IsBlock(b: string) {
    BeginTag <= b && b[|b| - 1] == '\n'
  }

  /** A block starts with `BEGIN:VEVENT` and ends with a line end. */
  lemma BlockShape(s: string, k: nat, e: nat)
    requires BlockAt(s, k) == Some(e)
    ensures k <= e <= |s| && IsBlock(s[k..e])
  {
    assert s[k..e][..|BeginTag|] == BeginTag;
  }

  /** An end line whose line feed lies inside a slice is an end line of the slice too. */
  lemma EndLineInSlice(s: string, a: nat, b: nat, i: nat, c: nat)
    requires a <= i <= c < b <= |s| && s[c] == '\n'
    ensures EndLineAt(s, i) ==> EndLineAt(s[a..b], i - a)
  {
    if EndLineAt(s, i) {
      var g := s[a..b];
      assert forall t :: 0 <= t < |g| ==> g[t] == s[a + t];
      assert c >= i + |EndTag|;
      if s[i + 10] != '\n' {
        assert c >= i + 11;
      }
      assert g[i - a..i - a + |EndTag|] == s[i..i + |EndTag|];
    }
  }

  /** A block found in a slice of the text is found at the same place in the whole text, with the same end. */
  lemma BlockAtSlice(s: string, a: nat, b: nat, j: nat)
    requires a <= b <= |s| && BlockAt(s[a..b], j).Some?
    ensures BlockAt(s, a + j) == Some(a + BlockAt(s[a..b], j).value)
  {
    var k, p, x, e := SliceBlockParts(s, a, b, j);
    BlockAtOf(s, k, p, x, e);
  }

  /** Where the parts of a block found in a slice lie in the whole text. */
  lemma SliceBlockParts(s: string, a: nat, b: nat, j: nat) returns (k: nat, p: nat, x: nat, e: nat)
    requires a <= b <= |s| && BlockAt(s[a..b], j).Some?
    ensures k == a + j && e == a + BlockAt(s[a..b], j).value
    ensures p == k + |BeginTag| && OccursAt(s, BeginTag, k) && EndLine(s, p) == Some(x)
    ensures EndLineAt(s, x) && EndOf(s, x) == e
  {
    var g := s[a..b];
    var pg := j + |BeginTag|;
    var xg := EndLine(g, pg).value;
    k, p, x, e := a + j, a + pg, a + xg, a + EndOf(g, xg);
    assert OccursAt(s, BeginTag, k) by {
      assert forall t :: 0 <= t < |g| ==> g[t] == s[a + t];
      assert s[a + j..a + pg] == g[j..pg];
    }
    EndLineSliceIs(s, a, b, pg, xg, p, x);
    EndLineShift(s, a, b, xg, x);
  }

  /** The end line a slice finds from `p` is the one the whole text finds from the same place. */
  lemma EndLineSliceIs(s: string, a: nat, b: nat, p: nat, x: nat, sp: nat, sx: nat)
    requires a <= b <= |s| && EndLine(s[a..b], p) == Some(x)
    requires sp == a + p && sx == a + x
    ensures EndLine(s, sp) == Some(sx)
  {
    EndLineSlice(s, a, b, p, x, sp, sx);
    EndLineIs(s, sp, sx);
  }

  /** `BlockAt` once the end line is known. */
  lemma BlockAtOf(s: string, k: nat, p: nat, x: nat, e: nat)
    requires p == k + |BeginTag|
    requires OccursAt(s, BeginTag, k)
    requires EndLine(s, p) == Some(x)
    requires EndLineAt(s, x)
    requires EndOf(s, x) == e
    ensures BlockAt(s, k) == Some(e)
  {
  }

  /** The end line a slice finds is the first end line of the whole text from the same place. */
  lemma EndLineSlice(s: string, a: nat, b: nat, p: nat, x: nat, sp: nat, sx: nat)
    requires a <= b <= |s| && EndLine(s[a..b], p) == Some(x)
    requires sp == a + p && sx == a + x
    ensures sp <= sx && LineStart(s, sp, sx) && EndLineAt(s, sx)
    ensures forall i :: sp <= i < sx && LineStart(s, sp, i) ==> !EndLineAt(s, i)
  {
    var g := s[a..b];
    EndLineShift(s, a, b, x, sx);
    assert sx == sp || s[sx - 1] == '\n' by {
      if x != p {
        assert g[x - 1] == s[sx - 1];
      }
    }
    forall i | sp <= i < sx && LineStart(s, sp, i)
      ensures !EndLineAt(s, i)
    {
      if i != sp {
        assert g[i - a - 1] == s[i - 1];
      }
      assert LineStart(g, p, i - a);
      EndLineInSlice(s, a, b, i, sx - 1);
    }
  }

  /** The first line start from `p` that holds an end line is the one `EndLine` finds. */
  lemma EndLineIs(s: string, p: nat, x: nat)
    requires p <= x && LineStart(s, p, x) && EndLineAt(s, x)
    requires forall i :: p <= i < x && LineStart(s, p, i) ==> !EndLineAt(s, i)
    ensures EndLine(s, p) == Some(x)
  {
  }

  /** An end line of a slice is an end line of the whole text, ending at the same place. */
  lemma EndLineShift(s: string, a: nat, b: nat, x: nat, sx: nat)
    requires a <= b <= |s| && EndLineAt(s[a..b], x) && sx == a + x
    ensures EndLineAt(s, sx) && EndOf(s, sx) == a + EndOf(s[a..b], x)
  {
    var g := s[a..b];
    assert forall t :: 0 <= t < |g| ==> g[t] == s[a + t];
    assert s[a + x..a + x + |EndTag|] == g[x..x + |EndTag|];
    if g[x + 10] == '\n' {
      assert s[a + x + 10] == '\n';
    } else {
      assert s[a + x + 10] == '\r' && s[a + x + 11] == '\n';
    }
  }

  /** No gap, read on its own, holds an event block: every block of the text was taken out. */
  lemma {:induction false} ExplodeGaps(s: string, from: nat)
    requires from <= |s|
    ensures forall i, j :: 0 <= i < |Explode(s, from).1| ==> BlockAt(Explode(s, from).1[i], j).None?
    decreases |s| - from
  {
    var r := Explode(s, from);
    match BlockScan(s, from)
    case None =>
      assert r == ([], [s[from..]]);
      assert s[from..] == s[from..|s|];
      forall j ensures BlockAt(s[from..|s|], j).None? {
        if BlockAt(s[from..|s|], j).Some? {
          BlockAtSlice(s, from, |s|, j);
        }
      }
    case Some((k, e)) =>
      ExplodeGaps(s, e);
      assert r.1 == [s[from..k]] + Explode(s, e).1;
      forall i, j | 0 <= i < |r.1|
        ensures BlockAt(r.1[i], j).None?
      {
        if i == 0 {
          if BlockAt(s[from..k], j).Some? {
            BlockAtSlice(s, from, k, j);
          }
        } else {
          assert r.1[i] == Explode(s, e).1[i - 1];
        }
      }
  }

  /** Gaps and blocks, alternating, starting and ending with a gap. */
  function Weave(gaps: seq<string>, blocks: seq<string>): string
    requires |gaps| == |blocks| + 1
  {
    if blocks == [] then gaps[0] else gaps[0] + blocks[0] + Weave(gaps[1..], blocks[1..])
  }

  /** The concatenation of a list of texts. */
  function Concat(parts: seq<string>): string {
    if parts == [] then [] else parts[0] + Concat(parts[1..])
  }

  /** `explodeICal`: the event blocks, and the text with every block removed. */
  function ExplodeICal(content: string): (r: (seq<string>, string)) {
    var x := Explode(content, 0);
    (x.0, Concat(x.1))
  }

  /** Blocks and gaps put back together give the text again. */
  lemma {:induction false} ExplodeWeave(s: string, from: nat)
    requires from <= |s|
    ensures Weave(Explode(s, from).1, Explode(s, from).0) == s[from..]
    decreases |s| - from
  {
    match BlockScan(s, from)
    case None =>
    case Some((k, e)) =>
      ExplodeWeave(s, e);
      var rest := Explode(s, e);
      assert Explode(s, from) == ([s[k..e]] + rest.0, [s[from..k]] + rest.1);
      assert ([s[from..k]] + rest.1)[1..] == rest.1;
      assert ([s[k..e]] + rest.0)[1..] == rest.0;
      assert s[from..] == s[from..k] + s[k..e] + s[e..];
  }

  /** Without a `BEGIN:VEVENT` from `from` on, there is no block from there. */
  lemma {:induction false} NoBlockScan(s: string, from: nat)
    requires forall k :: from <= k ==> !OccursAt(s, BeginTag, k)
    ensures BlockScan(s, from).None?
    decreases |s| - from
  {
    if from + |BeginTag| <= |s| {
      NoBlockScan(s, from + 1);
    }
  }

  /** A text without `BEGIN:VEVENT` has no events, and all of it is calendar information. */
  lemma NoBlocksWithoutBegin(content: string)
    requires !Contains(content, BeginTag)
    ensures ExplodeICal(content) == ([], content)
  {
    assert forall k :: 0 <= k ==> !OccursAt(content, BeginTag, k) by {
      forall k | 0 <= k ensures !OccursAt(content, BeginTag, k) {
        if k > |content| {
          assert k + |BeginTag| > |content|;
        }
      }
    }
    NoBlockScan(content, 0);
    assert Explode(content, 0) == ([], [content[0..]]);
    assert content[0..] == content;
    assert Concat([content]) == content + Concat([]);
    assert content + [] == content;
    assert ExplodeICal(content) == (Explode(content, 0).0, Concat(Explode(content, 0).1));
  }

  // ---- the calendar header (read from the text outside the event blocks)

  /** `parseICalName`. */
  function CalendarName(info: string): string {
    Field(info, "X-WR-CALNAME:")
  }

  /** `parseICalDesc`. */
  function CalendarDescription(info: string): string {
    Field(info, "X-WR-CALDESC:")
  }

  /** An `X-WR-CALNAME` line at the start of the header gives the calendar's name. */
  lemma CalendarNameRead(v: string, e: string, rest: string)
    requires 'X' !in v && '\n' !in v
    requires (e == "\n" || e == "\r\n") && (v == [] || !IsLineEnd(v[|v| - 1]))
    ensures CalendarName("X-WR-CALNAME:" + v + e + rest) == v
  {
    FieldRead("X-WR-CALNAME:", v, e, rest);
  }

  /** An `X-WR-CALDESC` line at the start of the header gives the calendar's description. */
  lemma CalendarDescriptionRead(v: string, e: string, rest: string)
    requires 'X' !in v && '\n' !in v
    requires (e == "\n" || e == "\r\n") && (v == [] || !IsLineEnd(v[|v| - 1]))
    ensures CalendarDescription("X-WR-CALDESC:" + v + e + rest) == v
  {
    FieldRead("X-WR-CALDESC:", v, e, rest);
  }

  /** `parseICalTimezone`: the `X-WR-TIMEZONE` zone when it loads, the local zone otherwise. */
  function CalendarTimezone(db: ZoneDb, local: Zone, info: string): (z: Zone)
    ensures LoadLocation(db, Field(info, "X-WR-TIMEZONE:")).Some? ==>
      z == LoadLocation(db, Field(info, "X-WR-TIMEZONE:")).value
    ensures LoadLocation(db, Field(info, "X-WR-TIMEZONE:")).None? ==> z == local
  {
    match LoadLocation(db, Field(info, "X-WR-TIMEZONE:"))
    case Some(z) => z
    case None => local
  }

  /** A calendar without a timezone line is in UTC: the empty name loads as UTC. */
  lemma NoTimezoneLineIsUtc(db: ZoneDb, local: Zone, info: string)
    requires !Contains(info, "X-WR-TIMEZONE:")
    ensures CalendarTimezone(db, local, info) == Utc
  {
    FieldAbsent(info, "X-WR-TIMEZONE:");
  }
}
