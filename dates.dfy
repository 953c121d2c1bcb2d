/**
 * Timestamp tokens of an event block: `DTSTART`/`DTEND` (`parseEventDate`,
 * `findWithStart`, `parseDatetime`, `parseDate`), `RECURRENCE-ID` and the
 * `EXDATE;TZID=` exclusion lists (`parseExcludedDates`).
 *
 * A token is `QUALIFIER:VALUE`; when the qualifier names a `TZID`, the name
 * after `=` is resolved, but the value itself is always read as UTC.
 */
module Dates {
  import opened Wrappers
  import opened Text
  import opened Civil
  import opened Timezone

  datatype DateError =
    | ZoneErr(zone: ZoneError)
    | BadStamp(text: string)               // `time.Parse` refused the value
    | MissingTzidValue(qualifier: string)  // a `TZID` qualifier without `=`: the Go code indexes past the split and panics

  /** What `parseDatetime` returns: the instant, the zone of a `TZID` qualifier, and an error. */
  datatype Stamp = Stamp(at: Instant, zone: Option<Zone>, err: Option<DateError>)

  const NoStamp: Stamp := Stamp(0, None, None)

  /** The piece of `s` from `from` up to the next `sep`, or to the end. */
  function PieceFrom(s: string, sep: char, from: nat): (r: string)
    requires from <= |s|
    ensures sep !in r
  {
    match CharIndex(s, sep, from)
    case None =>
      assert forall k :: 0 <= k < |s[from..]| ==> s[from..][k] == s[from + k];
      s[from..]
    case Some(j) =>
      assert forall k :: 0 <= k < |s[from..j]| ==> s[from..j][k] == s[from + k];
      s[from..j]
  }

  /** The piece of `s` after its first `sep`, up to the next one or to the end. */
  function SecondPiece(s: string, sep: char): (r: string)
    requires CharIndex(s, sep, 0).Some?
    ensures sep !in r
  {
    PieceFrom(s, sep, CharIndex(s, sep, 0).value + 1)
  }

  /** The pieces are those of `strings.Split`: the first is `Split(s, sep)[0]`, the second `Split(s, sep)[1]`. */
  lemma PiecesAreSplit(s: string, sep: char)
    ensures PieceFrom(s, sep, 0) == Split(s, sep)[0]
    ensures CharIndex(s, sep, 0).Some? ==> |Split(s, sep)| >= 2 && SecondPiece(s, sep) == Split(s, sep)[1]
  {
    SplitHead(s, sep);
    match CharIndex(s, sep, 0)
    case None =>
    case Some(i) =>
      assert Split(s, sep) == [s[..i]] + Split(s[i + 1..], sep);
      SplitHead(s[i + 1..], sep);
      PieceFromSuffix(s, sep, i + 1);
  }

  lemma SplitHead(s: string, sep: char)
    ensures Split(s, sep)[0] == PieceFrom(s, sep, 0)
  {
    assert s[0..] == s;
    match CharIndex(s, sep, 0)
    case None =>
    case Some(i) => assert s[..i] == s[0..i];
  }

  /** A piece read from `from` is the first piece of the suffix that starts there. */
  lemma PieceFromSuffix(s: string, sep: char, from: nat)
    requires from <= |s|
    ensures PieceFrom(s, sep, from) == PieceFrom(s[from..], sep, 0)
  {
    var t := s[from..];
    assert forall k :: from <= k < |s| ==> s[k] == t[k - from];
    assert t[0..] == t;
    match CharIndex(t, sep, 0)
    case None =>
      assert CharIndex(s, sep, from).None?;
    case Some(j) =>
      assert CharIndex(s, sep, from) == Some(from + j);
      assert t[0..j] == s[from..from + j];
  }

  /** The qualifier: the text before the first `:` of the trimmed token, or nothing when it has none. */
  function Qualifier(data: string): (q: string)
    ensures ':' !in q
  {
    var d := TrimSpace(data);
    if CharIndex(d, ':', 0).Some? then PieceFrom(d, ':', 0) else []
  }

  /** The value: the text between the first and the second `:` of the trimmed token, or all of it. */
  function Value(data: string): (v: string)
  {
    var d := TrimSpace(data);
    if CharIndex(d, ':', 0).Some? then SecondPiece(d, ':') else d
  }

  /** Qualifier and value are `parts[0]` and `parts[1]` of `strings.Split(data, ":")`. */
  lemma QualifierValueSplit(data: string)
    ensures var d := TrimSpace(data);
      ':' in d ==> |Split(d, ':')| >= 2 && Qualifier(data) == Split(d, ':')[0] && Value(data) == Split(d, ':')[1]
  {
    var d := TrimSpace(data);
    PiecesAreSplit(d, ':');
  }

  /** A time text with a `Z` appended when it has none, as handed to `time.Parse`. */
  function WithZ(t: string): string {
    if Contains(t, "Z") then t else t + "Z"
  }

  /** The value of a token, made ready for `time.Parse`. */
  function StampText(data: string): string {
    WithZ(Value(data))
  }

  /** The zone name of a `TZID=` qualifier: `strings.Split(q, "=")[1]`, absent when `q` has no `=`. */
  function TzidName(q: string): (r: Option<string>)
    ensures r.Some? <==> '=' in q
  {
    if CharIndex(q, '=', 0).Some? then Some(SecondPiece(q, '=')) else None
  }

  /** `parseDatetime`: the token trimmed and split into its qualifier and its time text. */
  function ParseDatetime(db: ZoneDb, data: string): Stamp {
    ReadToken(db, Qualifier(data), StampText(data))
  }

  /** What `parseDatetime` does with the qualifier `q` and the time text `text` of a token. */
  function ReadToken(db: ZoneDb, q: string, text: string): (r: Stamp)
    // A text `time.Parse` refuses yields the zero instant and nothing else.
    ensures DecodeStamp(text).None? <==> r.err == Some(BadStamp(text))
    ensures DecodeStamp(text).None? ==> r.at == 0 && r.zone.None?
    // Otherwise the instant is the text read as UTC: a TZID never shifts it.
    ensures DecodeStamp(text).Some? ==> r.at == DecodeStamp(text).value
    // A zone, or a zone error, comes only from a TZID qualifier, through `parseLocation`.
    ensures !Contains(q, "TZID") ==> r.zone.None? && (r.err.None? || r.err.value.BadStamp?)
    ensures r.err.Some? && r.err.value.ZoneErr? ==>
      TzidName(q).Some? && Some(r.err.value.zone) == ParseLocation(db, TzidName(q).value).err
    ensures r.zone.Some? ==> TzidName(q).Some? && r.zone == ParseLocation(db, TzidName(q).value).zone
    // A TZID qualifier without `=`: the Go code indexes past the end of the split.
    ensures r.err.Some? && r.err.value.MissingTzidValue? <==>
      DecodeStamp(text).Some? && Contains(q, "TZID") && TzidName(q).None?
  {
    match DecodeStamp(text)
    case None => Stamp(0, None, Some(BadStamp(text)))
    case Some(t) =>
      if Contains(q, "TZID") then
        match TzidName(q)
        case None => Stamp(t, None, Some(MissingTzidValue(q)))
        case Some(name) =>
          var loc := ParseLocation(db, name);
          Stamp(t, loc.zone, if loc.err.Some? then Some(ZoneErr(loc.err.value)) else None)
      else Stamp(t, None, None)
  }

  /** `parseDate`: a whole-day value gets a midnight time appended. */
  function ParseDate(db: ZoneDb, data: string): (r: Stamp)
    ensures r == ParseDatetime(db, data + "T000000")
  {
    ParseDatetime(db, data + "T000000")
  }

  /** `tag;TZID=name` names a `TZID`, and the name after its `=` is `name`. */
  lemma TzidQualifier(tag: string, name: string)
    requires '=' !in tag && '=' !in name
    ensures Contains(tag + ";TZID=" + name, "TZID")
    ensures TzidName(tag + ";TZID=" + name) == Some(name)
  {
    var q := tag + ";TZID=" + name;
    var i := |tag| + 5;
    assert q[|tag| + 1..|tag| + 5] == "TZID";
    assert OccursAt(q, "TZID", |tag| + 1);
    assert q[i] == '=';
    assert forall k :: 0 <= k < |tag| ==> q[k] == tag[k];
    assert CharIndex(q, '=', 0) == Some(i);
    assert q[i + 1..] == name;
    assert CharIndex(q, '=', i + 1).None? by {
      assert forall k :: i + 1 <= k < |q| ==> q[k] == name[k - i - 1];
    }
  }

  /** A well-formed stamp already ends in `Z`, so it is handed to `time.Parse` unchanged. */
  lemma StampKeepsZ(t: string)
    requires StampShape(t)
    ensures WithZ(t) == t
  {
    assert t[15..16] == "Z";
    assert OccursAt(t, "Z", 15);
  }

  /**
   * A `TZID` qualifier yields a zone but leaves the instant as the UTC
   * reading of the wall-clock fields: `DTSTART;TZID=Europe/Madrid:...T100000Z`
   * is 10:00 UTC, with the Madrid zone returned beside it.
   */
  lemma TzidNotApplied(db: ZoneDb, tag: string, name: string, st: string)
    requires tag != [] && !IsSpace(tag[0]) && ':' !in tag && '=' !in tag
    requires ':' !in name && '=' !in name
    requires StampShape(st) && StampInRange(st)
    ensures var r := ParseDatetime(db, tag + ";TZID=" + name + ":" + st);
      r.at == DecodeStamp(st).value && r.zone == ParseLocation(db, name).zone
      && (r.err.None? <==> ParseLocation(db, name).err.None?)
  {
    var q := tag + ";TZID=" + name;
    assert q[0] == tag[0];
    assert ':' !in q by {
      assert forall k :: 0 <= k < |q| ==> q[k] in tag || q[k] in ";TZID=" || q[k] in name;
    }
    assert ':' !in st by {
      assert forall k :: 0 <= k < |st| ==> k == 8 || k == 15 || IsDigit(st[k]);
    }
    TokenParts(q, st);
    StampKeepsZ(st);
    TzidQualifier(tag, name);
  }

  /** `(DTSTART|DTEND).+\n`: every date line of the block, in order. */
  function DateLines(block: string): seq<string> {
    FindAll(block, 0, ["DTSTART", "DTEND"], '\n', 1)
  }

  /** `findWithStart`: the index of the first line at or after `from` that starts with `start`. */
  function FindWithStart(start: string, list: seq<string>, from: nat): (r: Option<nat>)
    decreases |list| - from
    ensures r.Some? ==> from <= r.value < |list| && start <= list[r.value]
    ensures forall j :: from <= j < |list| && (r.None? || j < r.value) ==> !(start <= list[j])
  {
    if from >= |list| then None
    else if start <= list[from] then Some(from)
    else FindWithStart(start, list, from + 1)
  }

  const WholeDayTags: seq<string> := ["DTSTART;VALUE=DATE:", "DTEND;VALUE=DATE:"]

  /** The line `parseEventDate` reads for `start`. */
  function DateLine(start: string, block: string): string {
    var lines := DateLines(block);
    match FindWithStart(start, lines, 0)
    case None => []
    case Some(i) => lines[i]
  }

  /** The `DTSTART;VALUE=DATE:` or `DTEND;VALUE=DATE:` match within the date line, or "" when it says no such thing. */
  function WholeDayText(start: string, block: string): string {
    FindString(DateLine(start, block), WholeDayTags, '\n', 0)
  }

  /** `parseEventDate`: the first `start` line, read as a whole day when it says `VALUE=DATE`. */
  function ParseEventDate(db: ZoneDb, start: string, block: string): (r: Stamp)
    // No such line: the zero instant, no zone, no error.
    ensures DateLine(start, block) == [] ==> r == NoStamp
    // A whole-day line never carries a zone; it is the matched text,
    // trimmed, read as a date at midnight.
    ensures WholeDayText(start, block) != [] ==> r.zone.None? && r == ParseDate(db, TrimSpace(WholeDayText(start, block)))
    // Any other line is read as a timestamp token.
    ensures WholeDayText(start, block) == [] && DateLine(start, block) != [] ==> r == ParseDatetime(db, DateLine(start, block))
  {
    var t := DateLine(start, block);
    var w := WholeDayText(start, block);
    if w != [] then
      WholeDayQualifier(w);
      ParseDate(db, TrimSpace(w))
    else if t == [] then NoStamp
    else ParseDatetime(db, t)
  }

  /**
   * A token `tag:rest` that starts and ends with a visible character has
   * `tag` as its qualifier, and `rest` as its value when `rest` holds no `:`.
   */
  lemma TokenParts(tag: string, rest: string)
    requires tag != [] && !IsSpace(tag[0]) && ':' !in tag
    requires rest != [] && !IsSpace(rest[|rest| - 1])
    ensures Qualifier(tag + ":" + rest) == tag
    ensures ':' !in rest ==> Value(tag + ":" + rest) == rest
  {
    var d := tag + ":" + rest;
    assert d[0] == tag[0] && d[|d| - 1] == rest[|rest| - 1];
    TrimSpaceFixed(d);
    FirstColon(tag, rest);
  }

  lemma FirstColon(tag: string, rest: string)
    requires ':' !in tag
    ensures var d := tag + ":" + rest;
      CharIndex(d, ':', 0) == Some(|tag|) && PieceFrom(d, ':', 0) == tag
      && (':' !in rest ==> SecondPiece(d, ':') == rest)
  {
    var d := tag + ":" + rest;
    assert d[|tag|] == ':';
    assert forall k :: 0 <= k < |tag| ==> d[k] == tag[k];
    assert d[..|tag|] == tag;
    if ':' !in rest {
      assert d[|tag| + 1..] == rest;
      assert forall k :: |tag| + 1 <= k < |d| ==> d[k] == rest[k - |tag| - 1];
    }
  }

  lemma WholeDayTagShape(t: string)
    requires t in WholeDayTags
    ensures |t| > 1 && t[0] == 'D' && t[|t| - 1] == ':'
    ensures ':' !in t[..|t| - 1] && 'I' !in t[..|t| - 1]
  {
    if t == "DTSTART;VALUE=DATE:" {
      assert t[..|t| - 1] == "DTSTART;VALUE=DATE";
    } else {
      assert t[..|t| - 1] == "DTEND;VALUE=DATE";
    }
  }

  /** Trimming keeps a prefix that starts and ends with a visible character. */
  lemma TrimKeepsPrefix(w: string, t: string)
    requires t <= w && t != [] && !IsSpace(t[0]) && !IsSpace(t[|t| - 1])
    ensures t <= TrimSpace(w)
  {
    var right := TrimRightSpace(w);
    assert t <= right by {
      assert !IsSpace(w[|t| - 1]);
    }
    assert TrimLeftSpace(right) == right by {
      assert right[0] == t[0];
    }
  }

  lemma PrefixParts(t: string, a: string, b: string)
    requires t <= a
    ensures a + b == t + (a + b)[|t|..]
  {
    assert (a + b)[..|t|] == t;
  }

  /** The qualifier of a whole-day line is its tag and `;VALUE=DATE`, which names no `TZID`. */
  lemma WholeDayQualifier(w: string)
    requires exists t :: t in WholeDayTags && t <= w
    ensures !Contains(Qualifier(TrimSpace(w) + "T000000"), "TZID")
  {
    var t :| t in WholeDayTags && t <= w;
    WholeDayTagShape(t);
    TrimKeepsPrefix(w, t);
    TagQualifier(t, TrimSpace(w));
    MissingCharNotContained(t[..|t| - 1], "TZID", 2);
  }

  /** A whole-day tag at the start of a trimmed line is, without its colon, the qualifier. */
  lemma TagQualifier(t: string, v: string)
    requires |t| > 1 && t[0] == 'D' && t[|t| - 1] == ':' && ':' !in t[..|t| - 1] && t <= v
    ensures Qualifier(v + "T000000") == t[..|t| - 1]
  {
    var tag := t[..|t| - 1];
    assert tag + ":" == t;
    assert !IsSpace(tag[0]) && !IsSpace("T000000"[6]);
    PrefixedQualifier(tag, v, "T000000");
  }

  /** A text that starts with `tag:`, extended by a suffix ending in a visible character, has `tag` as its qualifier. */
  lemma PrefixedQualifier(tag: string, a: string, b: string)
    requires tag != [] && !IsSpace(tag[0]) && ':' !in tag && tag + ":" <= a
    requires b != [] && !IsSpace(b[|b| - 1])
    ensures Qualifier(a + b) == tag
  {
    var t := tag + ":";
    PrefixParts(t, a, b);
    var rest := (a + b)[|t|..];
    assert rest[|rest| - 1] == b[|b| - 1];
    TokenParts(tag, rest);
  }

  /** An eight-digit `YYYYMMDD` text whose month and day name a real date. */
  predicate DateInRange(d: string) {
    |d| == 8 && AllDigits(d)
    && 1 <= Two(d, 4) <= 12 && 1 <= Two(d, 6) <= DaysIn(Two(d, 0) * 100 + Two(d, 2), Two(d, 4))
  }

  /** The first day of the date `d` names, at midnight UTC. */
  function Midnight(d: string): Instant
    requires DateInRange(d)
  {
    DaysFromCivil(Two(d, 0) * 100 + Two(d, 2), Two(d, 4), Two(d, 6)) * DaySeconds
  }

  /** A whole-day line of digits is matched, line feed and all, by the whole-day pattern. */
  lemma WholeDayMatch(tag: string, d: string)
    requires tag in WholeDayTags && AllDigits(d)
    ensures FindString(tag + d + "\n", WholeDayTags, '\n', 0) == tag + d + "\n"
  {
    var t := tag + d + "\n";
    WholeDayMatchAt(tag, d);
    FindStringAt(t, WholeDayTags, '\n', 0, 0);
    assert t[0..|t|] == t;
  }

  /** The whole-day pattern matches a whole-day line from its start to its line feed. */
  lemma WholeDayMatchAt(tag: string, d: string)
    requires tag in WholeDayTags && AllDigits(d)
    ensures var t := tag + d + "\n"; MatchAt(t, 0, WholeDayTags, '\n', 0) == Some(|t| - 1)
  {
    var t := tag + d + "\n";
    var e := |t| - 1;
    assert StopAt(t, |tag|, '\n') == Some(e) by {
      assert forall k :: |tag| <= k < e ==> t[k] == d[k - |tag|];
      StopAtFirst(t, |tag|, '\n', e);
    }
    assert OccursAt(t, tag, 0) by {
      assert t[..|tag|] == tag;
    }
    if tag == WholeDayTags[1] {
      assert !OccursAt(t, WholeDayTags[0], 0) by {
        assert t[2] == 'E';
      }
      assert MatchAt(t, 0, WholeDayTags[1..], '\n', 0) == Some(e);
    }
  }

  /** `parseDate` of `TAG;VALUE=DATE:YYYYMMDD` is midnight UTC of that date, with no zone and no error. */
  lemma WholeDayToken(db: ZoneDb, tag: string, d: string)
    requires tag in WholeDayTags && DateInRange(d)
    ensures ParseDate(db, tag + d) == Stamp(Midnight(d), None, None)
  {
    var x := tag + d + "T000000";
    WholeDayParts(tag, d);
    MidnightStamp(d);
    assert ParseDatetime(db, x) == ReadToken(db, Qualifier(x), d + "T000000Z");
  }

  /** The qualifier of a whole-day token names no `TZID`, and its time text is the date at midnight. */
  lemma WholeDayParts(tag: string, d: string)
    requires tag in WholeDayTags && |d| == 8 && AllDigits(d)
    ensures !Contains(Qualifier(tag + d + "T000000"), "TZID")
    ensures StampText(tag + d + "T000000") == d + "T000000Z"
  {
    WholeDayTagShape(tag);
    var q := tag[..|tag| - 1];
    var rest := d + "T000000";
    TagSplit(tag, rest);
    ConcatAssoc(tag, d, "T000000");
    MidnightText(d);
    QualifiedParts(q, rest);
    ConcatAssoc(d, "T000000", "Z");
    assert "T000000" + "Z" == "T000000Z";
  }

  lemma ConcatAssoc(a: string, b: string, c: string)
    ensures a + b + c == a + (b + c)
  {
  }

  lemma TagSplit(tag: string, rest: string)
    requires tag != [] && tag[|tag| - 1] == ':'
    ensures tag + rest == tag[..|tag| - 1] + ":" + rest
  {
    assert tag == tag[..|tag| - 1] + ":";
  }

  /** A date at midnight as text: no `:`, no `Z`, ending in a digit. */
  lemma MidnightText(d: string)
    requires |d| == 8 && AllDigits(d)
    ensures var rest := d + "T000000";
      IsDigit(rest[|rest| - 1]) && ':' !in rest && 'Z' !in rest
  {
    var rest := d + "T000000";
    assert forall k :: 0 <= k < |rest| ==> k == 8 || IsDigit(rest[k]);
  }

  /** A token `Q:REST` with no `I` in `Q` and neither `:` nor `Z` in `REST`: no `TZID`, and `REST` gains a `Z`. */
  lemma QualifiedParts(q: string, rest: string)
    requires q != [] && q[0] == 'D' && ':' !in q && 'I' !in q
    requires rest != [] && IsDigit(rest[|rest| - 1]) && ':' !in rest && 'Z' !in rest
    ensures !Contains(Qualifier(q + ":" + rest), "TZID")
    ensures StampText(q + ":" + rest) == rest + "Z"
  {
    TokenParts(q, rest);
    MissingCharNotContained(q, "TZID", 2);
    MissingCharNotContained(rest, "Z", 0);
  }

  /** `time.Parse` reads a date at midnight as the first second of that day. */
  lemma MidnightStamp(d: string)
    requires DateInRange(d)
    ensures DecodeStamp(d + "T000000Z") == Some(Midnight(d))
  {
    var st := d + "T000000Z";
    assert forall k :: 0 <= k < 8 ==> st[k] == d[k];
    assert StampShape(st);
    assert Two(st, 0) == Two(d, 0) && Two(st, 2) == Two(d, 2) && Two(st, 4) == Two(d, 4) && Two(st, 6) == Two(d, 6);
    assert Two(st, 9) == 0 && Two(st, 11) == 0 && Two(st, 13) == 0;
  }

  /**
   * A `start` line that reads `TAG;VALUE=DATE:YYYYMMDD` gives midnight UTC
   * of that date, with no zone and no error.
   */
  lemma WholeDayDate(db: ZoneDb, start: string, block: string, tag: string, d: string)
    requires tag in WholeDayTags && DateInRange(d)
    requires DateLine(start, block) == tag + d + "\n"
    ensures ParseEventDate(db, start, block) == Stamp(Midnight(d), None, None)
  {
    WholeDayMatch(tag, d);
    WholeDayTrim(tag, d);
    WholeDayToken(db, tag, d);
  }

  lemma WholeDayTrim(tag: string, d: string)
    requires tag in WholeDayTags && |d| == 8 && AllDigits(d)
    ensures TrimSpace(tag + d + "\n") == tag + d
  {
    var x := tag + d;
    WholeDayTagShape(tag);
    assert x[0] == 'D' && x[|x| - 1] == d[7];
    TrimSpaceDropsTrailing(x, '\n');
    TrimSpaceFixed(x);
  }

  /** 22 January 2016 is day 735984 after 1 January of year 1. */
  lemma WholeDayExample(db: ZoneDb)
    ensures ParseDate(db, "DTSTART;VALUE=DATE:20160122") == Stamp(735984 * DaySeconds, None, None)
  {
    var d := "20160122";
    assert Two(d, 0) == 20 && Two(d, 2) == 16 && Two(d, 4) == 1 && Two(d, 6) == 22;
    assert DaysFromCivil(2016, 1, 22) == 735984;
    var x := "DTSTART;VALUE=DATE:20160122";
    assert x[..19] == "DTSTART;VALUE=DATE:" && x[19..] == d;
    assert x == x[..19] + x[19..];
    WholeDayToken(db, x[..19], d);
  }

  // --- RECURRENCE-ID -------------------------------------------------------

  const RecurTag: string := "RECURRENCE-ID"

  /**
   * `RECURRENCE-ID(;TZID=.*?){0,1}:.*?\n` at `k`: either `;TZID=` with a `:`
   * later on the line, or a `:` straight after the tag; the match runs to
   * the line feed, whose index is returned.
   */
  function RecurrenceAt(s: string, k: nat): (r: Option<nat>)
    ensures r.Some? ==> OccursAt(s, RecurTag, k) && k + |RecurTag| < r.value < |s| && s[r.value] == '\n'
    ensures r.Some? ==> forall j :: k <= j < r.value ==> s[j] != '\n'
  {
    if !OccursAt(s, RecurTag, k) then None
    else
      assert forall j :: k <= j < k + 13 ==> s[j] == RecurTag[j - k];
      match StopAt(s, k + 13, '\n')
      case None => None
      case Some(e) =>
        var c := CharIndex(s, ':', k + 13);
        if OccursAt(s, ";TZID=", k + 13) && c.Some? && c.value < e then Some(e)
        else if k + 13 < e && s[k + 13] == ':' then Some(e)
        else None
  }

  /** The leftmost match of the recurrence-id pattern at or after `from`: its start and its line feed. */
  function FirstRecurrence(s: string, from: nat): (r: Option<(nat, nat)>)
    decreases |s| + 1 - from
    ensures r.Some? ==> from <= r.value.0 && RecurrenceAt(s, r.value.0) == Some(r.value.1)
    ensures forall k :: from <= k && (r.None? || k < r.value.0) ==> RecurrenceAt(s, k).None?
  {
    if from > |s| then
      assert forall k :: from <= k ==> !OccursAt(s, RecurTag, k);
      None
    else match RecurrenceAt(s, from)
      case Some(e) => Some((from, e))
      case None => FirstRecurrence(s, from + 1)
  }

  /** The text of the first recurrence-id line, its line feed included; empty when there is none. */
  function RecurrenceLine(block: string): (line: string)
    ensures line == [] <==> FirstRecurrence(block, 0).None?
    ensures line != [] ==> RecurTag <= line && line[|line| - 1] == '\n' && '\n' !in line[..|line| - 1]
    // It is the leftmost match, from its tag to its line feed.
    ensures line != [] ==> line == block[FirstRecurrence(block, 0).value.0..FirstRecurrence(block, 0).value.1 + 1]
  {
    match FirstRecurrence(block, 0)
    case None => []
    case Some((i, e)) =>
      RecurrenceLineShape(block, i, e);
      block[i..e + 1]
  }

  /** A recurrence-id match is its tag, then no line feed up to the one that ends it. */
  lemma RecurrenceLineShape(s: string, k: nat, e: nat)
    requires RecurrenceAt(s, k) == Some(e)
    ensures var line := s[k..e + 1];
      RecurTag <= line && line[|line| - 1] == '\n' && '\n' !in line[..|line| - 1]
  {
    var line := s[k..e + 1];
    assert line[..13] == s[k..k + 13];
    forall j | 0 <= j < |line| - 1 ensures line[j] != '\n' {
      assert line[j] == s[k + j];
    }
  }

  /** `parseEventRecurrenceID`: the recurrence-id line read as a timestamp; no line is the zero stamp. */
  function ParseRecurrenceId(db: ZoneDb, block: string): (r: Stamp)
    ensures RecurrenceLine(block) == [] ==> r == NoStamp
    ensures RecurrenceLine(block) != [] ==> r == ParseDatetime(db, RecurrenceLine(block))
  {
    var line := RecurrenceLine(block);
    if line == [] then NoStamp else ParseDatetime(db, line)
  }

  /** The line feed that ends a matched line has no bearing on how the token reads. */
  lemma LineFeedIgnored(db: ZoneDb, data: string)
    ensures ParseDatetime(db, data + "\n") == ParseDatetime(db, data)
  {
    TokenLineFeed(data);
  }

  lemma TokenLineFeed(data: string)
    ensures Qualifier(data + "\n") == Qualifier(data) && StampText(data + "\n") == StampText(data)
  {
    TrimSpaceDropsTrailing(data, '\n');
    SameTrimSameToken(data + "\n", data);
  }

  /** Qualifier and value depend on the token only through its trimmed text. */
  lemma SameTrimSameToken(a: string, b: string)
    requires TrimSpace(a) == TrimSpace(b)
    ensures Qualifier(a) == Qualifier(b) && Value(a) == Value(b)
  {
  }

  // --- EXDATE --------------------------------------------------------------

  const ExTag: string := "EXDATE;TZID="

  /** The groups of one `EXDATE;TZID=(.*):(.*)\n` match. */
  datatype ExMatch = ExMatch(zone: string, value: string)

  /** The last index in `[lo, hi)` holding a `:`. */
  function LastColon(s: string, lo: nat, hi: nat): (r: Option<nat>)
    requires hi <= |s|
    decreases hi
    ensures r.Some? ==> lo <= r.value < hi && s[r.value] == ':'
    ensures forall k :: lo <= k < hi && (r.None? || r.value < k) ==> s[k] != ':'
  {
    if hi <= lo then None
    else if s[hi - 1] == ':' then Some(hi - 1)
    else LastColon(s, lo, hi - 1)
  }

  /**
   * The pattern at `k`: greedy groups put the zone up to the last `:` of
   * the line and the value from there to the line feed, whose index is returned.
   */
  function ExDateAt(s: string, k: nat): (r: Option<(ExMatch, nat)>)
    ensures r.Some? ==> OccursAt(s, ExTag, k) && k + |ExTag| <= r.value.1 < |s| && s[r.value.1] == '\n'
    ensures r.Some? ==> ':' !in r.value.0.value && '\n' !in r.value.0.value && '\n' !in r.value.0.zone
    // The match ends at the first line feed after the tag; the zone runs up
    // to the last `:` before it and the value from there to the line feed.
    ensures r.Some? ==> StopAt(s, k + |ExTag|, '\n') == Some(r.value.1)
    ensures r.Some? ==> var c := LastColon(s, k + |ExTag|, r.value.1);
      c.Some? && r.value.0 == ExMatch(s[k + |ExTag|..c.value], s[c.value + 1..r.value.1])
    // There is no match without the tag, a line feed, and a `:` between them.
    ensures r.None? <==>
      !OccursAt(s, ExTag, k) || StopAt(s, k + |ExTag|, '\n').None?
      || LastColon(s, k + |ExTag|, StopAt(s, k + |ExTag|, '\n').value).None?
  {
    if !OccursAt(s, ExTag, k) then None
    else match StopAt(s, k + 12, '\n')
      case None => None
      case Some(e) =>
        match LastColon(s, k + 12, e)
        case None => None
        case Some(c) =>
          var m := ExMatch(s[k + 12..c], s[c + 1..e]);
          assert forall j :: 0 <= j < |m.value| ==> m.value[j] == s[c + 1 + j];
          assert forall j :: 0 <= j < |m.zone| ==> m.zone[j] == s[k + 12 + j];
          Some((m, e))
  }

  /** `FindAllStringSubmatch(s, -1)` for the `EXDATE` pattern from `from` on. */
  function ExDateMatches(s: string, from: nat): (r: seq<ExMatch>)
    decreases |s| + 1 - from
    ensures forall j :: 0 <= j < |r| ==> ':' !in r[j].value
  {
    if from > |s| then []
    else match ExDateAt(s, from)
      case Some((m, e)) => [m] + ExDateMatches(s, e + 1)
      case None => ExDateMatches(s, from + 1)
  }

  /**
   * One comma-separated piece of an `EXDATE` value: trimmed, given a `Z`,
   * parsed, and read as a wall-clock time of `zone`; a piece that does not
   * parse is skipped.
   */
  function ExInstant(zone: Zone, piece: string): (r: seq<Instant>)
    ensures |r| <= 1
  {
    match DecodeStamp(WithZ(TrimSpace(piece)))
    case None => []
    case Some(t) => [t - zone.offset]
  }

  /** The instants of a list of pieces, in order. */
  function ExInstants(zone: Zone, pieces: seq<string>): (r: seq<Instant>)
    decreases |pieces|
    ensures |r| <= |pieces|
  {
    if pieces == [] then []
    else ExInstants(zone, pieces[..|pieces| - 1]) + ExInstant(zone, pieces[|pieces| - 1])
  }

  /** A piece yields `t` exactly when it parses to the wall-clock reading of `t` in `zone`. */
  lemma ExInstantOf(zone: Zone, piece: string, t: Instant)
    ensures t in ExInstant(zone, piece) <==> DecodeStamp(WithZ(TrimSpace(piece))) == Some(t + zone.offset)
  {
  }

  /**
   * An instant is excluded exactly when some piece yields it, that is, when
   * some piece parses to the instant's wall-clock reading in `zone`.
   */
  lemma ExInstantsMembers(zone: Zone, pieces: seq<string>, t: Instant)
    ensures t in ExInstants(zone, pieces) <==> exists j :: 0 <= j < |pieces| && t in ExInstant(zone, pieces[j])
  {
    var xs := seq(|pieces|, j requires 0 <= j < |pieces| => ExInstant(zone, pieces[j]));
    ExInstantsJoined(zone, pieces, xs);
    JoinedMembers(xs, t);
    assert forall j :: 0 <= j < |pieces| ==> xs[j] == ExInstant(zone, pieces[j]);
  }

  /** The instant lists of the pieces, one after the other. */
  function Joined(xs: seq<seq<Instant>>): seq<Instant>
    decreases |xs|
  {
    if xs == [] then [] else Joined(xs[..|xs| - 1]) + xs[|xs| - 1]
  }

  /** `ExInstants` joins the instant lists of its pieces. */
  lemma {:induction false} ExInstantsJoined(zone: Zone, pieces: seq<string>, xs: seq<seq<Instant>>)
    requires |xs| == |pieces| && forall j :: 0 <= j < |pieces| ==> xs[j] == ExInstant(zone, pieces[j])
    ensures ExInstants(zone, pieces) == Joined(xs)
    decreases |pieces|
  {
    if pieces != [] {
      var n := |pieces| - 1;
      ExInstantsJoined(zone, pieces[..n], xs[..n]);
    }
  }

  /** An instant is in the joined list exactly when it is in one of the lists. */
  lemma {:induction false} JoinedMembers(xs: seq<seq<Instant>>, t: Instant)
    ensures t in Joined(xs) <==> exists j :: 0 <= j < |xs| && t in xs[j]
    decreases |xs|
  {
    if xs != [] {
      var n := |xs| - 1;
      JoinedMembers(xs[..n], t);
      InConcat(t, Joined(xs[..n]), xs[n]);
      if t in Joined(xs[..n]) {
        var j :| 0 <= j < n && t in xs[..n][j];
        assert xs[j] == xs[..n][j];
      }
      forall j | 0 <= j < n && t in xs[j] ensures t in Joined(xs[..n]) {
        assert xs[..n][j] == xs[j];
      }
    }
  }

  lemma InConcat(t: Instant, a: seq<Instant>, b: seq<Instant>)
    ensures t in a + b <==> t in a || t in b
  {
  }

  /** Prepends to a successful result; an error stays as it is. */
  function Prepend(d: seq<Instant>, r: Result<seq<Instant>, ZoneError>): Result<seq<Instant>, ZoneError> {
    match r
    case Ok(x) => Ok(d + x)
    case Err(e) => Err(e)
  }

  /**
   * What `parseExcludedDates` computes from its matches: the first match
   * whose zone name `parseLocation` reports any error for ends everything
   * with that error, advisory ones included.
   */
  function ExDates(db: ZoneDb, ms: seq<ExMatch>): Result<seq<Instant>, ZoneError>
    decreases |ms|
  {
    if ms == [] then Ok([])
    else
      var loc := ParseLocation(db, ms[0].zone);
      if loc.err.Some? then Err(loc.err.value)
      else Prepend(ExInstants(loc.zone.value, Split(ms[0].value, ',')), ExDates(db, ms[1..]))
  }

  /** The exclusion list fails exactly when some `TZID` of it draws an error from `parseLocation`. */
  lemma {:induction false} ExDatesFailIff(db: ZoneDb, ms: seq<ExMatch>)
    ensures ExDates(db, ms).Err? <==> exists j :: 0 <= j < |ms| && ParseLocation(db, ms[j].zone).err.Some?
    ensures ExDates(db, ms).Err? ==> exists j :: 0 <= j < |ms| && ParseLocation(db, ms[j].zone).err == Some(ExDates(db, ms).error)
    decreases |ms|
  {
    if ms != [] {
      ExDatesFailIff(db, ms[1..]);
      if ParseLocation(db, ms[0].zone).err.None? {
        forall j | 1 <= j < |ms| ensures ms[j] == ms[1..][j - 1] {}
        if exists j :: 0 <= j < |ms| && ParseLocation(db, ms[j].zone).err.Some? {
          var j :| 0 <= j < |ms| && ParseLocation(db, ms[j].zone).err.Some?;
          assert ParseLocation(db, ms[1..][j - 1].zone).err.Some?;
        }
      }
    }
  }

  /** The dates of the `EXDATE` line `m`, read in its zone, hold `t`. */
  predicate LineHolds(db: ZoneDb, m: ExMatch, t: Instant) {
    var loc := ParseLocation(db, m.zone);
    loc.zone.Some? && t in ExInstants(loc.zone.value, Split(m.value, ','))
  }

  /** A successful list is the first line's dates followed by the rest's. */
  lemma ExDatesHead(db: ZoneDb, ms: seq<ExMatch>)
    requires ms != [] && ExDates(db, ms).Ok?
    ensures ExDates(db, ms[1..]).Ok?
    ensures ParseLocation(db, ms[0].zone).zone.Some?
    ensures ExDates(db, ms).value ==
      ExInstants(ParseLocation(db, ms[0].zone).zone.value, Split(ms[0].value, ',')) + ExDates(db, ms[1..]).value
  {
  }

  /** Some line holds `t` exactly when the first one or one of the rest does. */
  lemma LinesHold(db: ZoneDb, ms: seq<ExMatch>, t: Instant)
    requires ms != []
    ensures (exists j :: 0 <= j < |ms| && LineHolds(db, ms[j], t)) <==>
      LineHolds(db, ms[0], t) || exists j :: 0 <= j < |ms[1..]| && LineHolds(db, ms[1..][j], t)
  {
    if j :| 0 <= j < |ms| && LineHolds(db, ms[j], t) {
      if j > 0 {
        assert ms[1..][j - 1] == ms[j];
      }
    }
    if j :| 0 <= j < |ms[1..]| && LineHolds(db, ms[1..][j], t) {
      assert ms[j + 1] == ms[1..][j];
    }
  }

  /**
   * When the exclusion list succeeds, an instant is excluded exactly when
   * the dates of one of its lines, read in that line's zone, hold it.
   */
  lemma {:induction false} ExDatesMembers(db: ZoneDb, ms: seq<ExMatch>, t: Instant)
    requires ExDates(db, ms).Ok?
    ensures t in ExDates(db, ms).value <==> exists j :: 0 <= j < |ms| && LineHolds(db, ms[j], t)
    decreases |ms|
  {
    if ms != [] {
      ExDatesHead(db, ms);
      ExDatesMembers(db, ms[1..], t);
      InConcat(t, ExInstants(ParseLocation(db, ms[0].zone).zone.value, Split(ms[0].value, ',')), ExDates(db, ms[1..]).value);
      LinesHold(db, ms, t);
    }
  }

  lemma ExInstantsSnoc(zone: Zone, pieces: seq<string>, j: nat)
    requires j < |pieces|
    ensures ExInstants(zone, pieces[..j + 1]) == ExInstants(zone, pieces[..j]) + ExInstant(zone, pieces[j])
  {
    assert pieces[..j + 1][..j] == pieces[..j];
  }

  lemma ExDatesStep(db: ZoneDb, ms: seq<ExMatch>, i: nat, d: seq<Instant>)
    requires i < |ms|
    ensures var loc := ParseLocation(db, ms[i].zone);
      loc.err.None? ==>
        Prepend(d, ExDates(db, ms[i..]))
        == Prepend(d + ExInstants(loc.zone.value, Split(ms[i].value, ',')), ExDates(db, ms[i + 1..]))
    ensures var loc := ParseLocation(db, ms[i].zone);
      loc.err.Some? ==> ExDates(db, ms[i..]) == Err(loc.err.value)
  {
    assert ms[i..][0] == ms[i] && ms[i..][1..] == ms[i + 1..];
    var loc := ParseLocation(db, ms[i].zone);
    if loc.err.None? {
      var x := ExInstants(loc.zone.value, Split(ms[i].value, ','));
      assert ExDates(db, ms[i..]) == Prepend(x, ExDates(db, ms[i + 1..]));
      PrependTwice(d, x, ExDates(db, ms[i + 1..]));
    }
  }

  lemma PrependTwice(d: seq<Instant>, x: seq<Instant>, r: Result<seq<Instant>, ZoneError>)
    ensures Prepend(d, Prepend(x, r)) == Prepend(d + x, r)
  {
    if r.Ok? {
      assert d + (x + r.value) == (d + x) + r.value;
    }
  }

  lemma PrependNothing(r: Result<seq<Instant>, ZoneError>)
    ensures Prepend([], r) == r
  {
    if r.Ok? {
      assert [] + r.value == r.value;
    }
  }

  /** The comma-separated pieces of one `EXDATE` value, read in order in `zone`. */
  method ReadExValue(zone: Zone, value: string) returns (dates: seq<Instant>)
    ensures dates == ExInstants(zone, Split(value, ','))
  {
    var pieces := Split(value, ',');
    dates := [];
    var j := 0;
    while j < |pieces|
      invariant 0 <= j <= |pieces|
      invariant dates == ExInstants(zone, pieces[..j])
    {
      ExInstantsSnoc(zone, pieces, j);
      dates := dates + ExInstant(zone, pieces[j]);
      j := j + 1;
    }
    assert pieces[..j] == pieces;
  }

  /** `parseExcludedDates`: collects the exclusion instants of a block, failing on the first zone error. */
  method ParseExcludedDates(db: ZoneDb, block: string) returns (dates: seq<Instant>, err: Option<ZoneError>)
    ensures err.None? <==> ExDates(db, ExDateMatches(block, 0)).Ok?
    ensures err.None? ==> dates == ExDates(db, ExDateMatches(block, 0)).value
    ensures err.Some? ==> dates == [] && err.value == ExDates(db, ExDateMatches(block, 0)).error
  {
    var ms := ExDateMatches(block, 0);
    dates := [];
    var i := 0;
    assert ms[i..] == ms;
    PrependNothing(ExDates(db, ms));
    while i < |ms|
      invariant 0 <= i <= |ms|
      invariant Prepend(dates, ExDates(db, ms[i..])) == ExDates(db, ms)
    {
      var loc := ParseLocation(db, ms[i].zone);
      ExDatesStep(db, ms, i, dates);
      if loc.err.Some? {
        return [], loc.err;
      }
      var x := ReadExValue(loc.zone.value, ms[i].value);
      dates := dates + x;
      i := i + 1;
    }
    assert ms[i..] == [];
    return dates, None;
  }
}
