/**
 * The pieces of Go's `strings`, `strconv` and `regexp` packages that the
 * calendar reader relies on, over `string` (a sequence of chars).
 *
 * Every regular expression of the reader is one of a few shapes; each shape
 * is modelled here as the scan it performs, with Go's leftmost-first
 * semantics: the leftmost start position wins, alternatives are tried in
 * the order written, and `.` never matches a line feed.
 */
module Text {
  import opened Wrappers

  /** RE2's `\s`: tab, line feed, form feed, carriage return and space. */
  predicate IsRegexSpace(c: char) {
    c == ' ' || ('\t' <= c <= '\r' && c != '\U{000B}')
  }

  /** `unicode.IsSpace`, the set `strings.TrimSpace` removes. */
  predicate IsSpace(c: char) {
    if c <= ' ' then '\t' <= c <= '\r' || c == ' '
    else '\U{0085}' <= c && IsWideSpace(c)
  }

  /** The white space of `unicode.IsSpace` beyond ASCII. */
  predicate IsWideSpace(c: char) {
    c == '\U{0085}' || c == '\U{00A0}' || c == '\U{1680}' || ('\U{2000}' <= c <= '\U{200A}')
    || c == '\U{2028}' || c == '\U{2029}' || c == '\U{202F}' || c == '\U{205F}' || c == '\U{3000}'
  }

  /** `\d` in RE2: an ASCII digit. */
  predicate IsDigit(c: char) { '0' <= c <= '9' }

  predicate AllDigits(s: string) { forall k :: 0 <= k < |s| ==> IsDigit(s[k]) }

  /** `sub` occurs in `s` starting at index `k`. */
  predicate OccursAt(s: string, sub: string, k: nat) {
    k + |sub| <= |s| && s[k..k + |sub|] == sub
  }

  /** The first index at or after `from` where `sub` occurs. */
  function IndexOf(s: string, sub: string, from: nat): (r: Option<nat>)
    decreases |s| - from
    ensures r.Some? ==> from <= r.value && OccursAt(s, sub, r.value)
    ensures forall k :: from <= k && (r.None? || k < r.value) ==> !OccursAt(s, sub, k)
  {
    if from + |sub| > |s| then None
    else if OccursAt(s, sub, from) then Some(from)
    else IndexOf(s, sub, from + 1)
  }

  /** `strings.Contains`. */
  function Contains(s: string, sub: string): (b: bool)
    ensures b <==> exists k :: 0 <= k <= |s| && OccursAt(s, sub, k)
  {
    var r := IndexOf(s, sub, 0);
    assert r.Some? ==> r.value <= |s|;
    r.Some?
  }

  /** `strings.Contains` of a one-character string is membership. */
  lemma ContainsChar(s: string, c: char)
    ensures Contains(s, [c]) <==> c in s
  {
    if c in s {
      var k :| 0 <= k < |s| && s[k] == c;
      assert s[k..k + 1] == [c];
      assert OccursAt(s, [c], k);
    }
    if Contains(s, [c]) {
      var k :| 0 <= k <= |s| && OccursAt(s, [c], k);
      assert s[k..k + 1][0] == s[k];
    }
  }

  /** A text contains its own ending. */
  lemma ContainsSuffix(a: string, b: string)
    ensures Contains(a + b, b)
  {
    assert (a + b)[|a|..|a| + |b|] == b;
    assert OccursAt(a + b, b, |a|);
  }

  /** A text that lacks one of the characters of `sub` does not contain `sub`. */
  lemma MissingCharNotContained(s: string, sub: string, i: nat)
    requires i < |sub| && sub[i] !in s
    ensures !Contains(s, sub)
  {
  }

  /** Removes leading white space. */
  function TrimLeftSpace(s: string): (r: string)
    ensures |r| <= |s| && r == s[|s| - |r|..]
    ensures forall k :: 0 <= k < |s| - |r| ==> IsSpace(s[k])
    ensures r == [] || !IsSpace(r[0])
  {
    if |s| > 0 && IsSpace(s[0]) then TrimLeftSpace(s[1..]) else s
  }

  /** Removes trailing white space. */
  function TrimRightSpace(s: string): (r: string)
    ensures |r| <= |s| && r == s[..|r|]
    ensures forall k :: |r| <= k < |s| ==> IsSpace(s[k])
    ensures r == [] || !IsSpace(r[|r| - 1])
  {
    if |s| > 0 && IsSpace(s[|s| - 1]) then TrimRightSpace(s[..|s| - 1]) else s
  }

  /** `strings.TrimSpace`: the slice of `s` between its leading and trailing white space. */
  function TrimSpace(s: string): (r: string)
    ensures r == [] || (!IsSpace(r[0]) && !IsSpace(r[|r| - 1]))
  {
    TrimLeftSpace(TrimRightSpace(s))
  }

  /** Trimming only removes white space, from the two ends: the result is a slice of `s` with white space around it. */
  lemma TrimSpaceSlice(s: string)
    ensures exists i: nat :: (OccursAt(s, TrimSpace(s), i)
      && (forall k :: 0 <= k < i ==> IsSpace(s[k]))
      && (forall k :: i + |TrimSpace(s)| <= k < |s| ==> IsSpace(s[k])))
  {
    var t := TrimRightSpace(s);
    var r := TrimLeftSpace(t);
    var i := |t| - |r|;
    assert r == s[i..|t|] by {
      assert t == s[..|t|] && r == t[i..];
    }
    forall k | 0 <= k < i ensures IsSpace(s[k]) {
      assert s[k] == t[k];
    }
    assert TrimSpace(s) == r;
    assert forall k :: i + |r| <= k < |s| ==> IsSpace(s[k]);
    assert OccursAt(s, r, i);
  }

  /** A text that neither starts nor ends with white space is its own trimming. */
  lemma TrimSpaceFixed(s: string)
    requires s != [] && !IsSpace(s[0]) && !IsSpace(s[|s| - 1])
    ensures TrimSpace(s) == s
  {
    assert TrimRightSpace(s) == s;
  }

  /** Trailing white space, a line feed included, does not reach the trimmed value. */
  lemma {:induction false} TrimSpaceDropsTrailing(s: string, c: char)
    requires IsSpace(c)
    ensures TrimSpace(s + [c]) == TrimSpace(s)
  {
    assert (s + [c])[..|s|] == s;
  }

  /** The first index at or after `from` holding `c`. */
  function CharIndex(s: string, c: char, from: nat): (r: Option<nat>)
    decreases |s| - from
    ensures r.Some? ==> from <= r.value < |s| && s[r.value] == c
    ensures forall k :: from <= k < |s| && (r.None? || k < r.value) ==> s[k] != c
  {
    if from >= |s| then None
    else if s[from] == c then Some(from)
    else CharIndex(s, c, from + 1)
  }

  /** Joins pieces with a separator: the inverse of `Split`. */
  function Join(parts: seq<string>, sep: char): string
    requires |parts| >= 1
  {
    if |parts| == 1 then parts[0] else parts[0] + [sep] + Join(parts[1..], sep)
  }

  /** `strings.Split` with a one-character separator. */
  function Split(s: string, sep: char): (r: seq<string>)
    decreases |s|
    ensures |r| >= 1
    ensures forall i :: 0 <= i < |r| ==> sep !in r[i]
    ensures Join(r, sep) == s
    ensures sep in s <==> |r| >= 2
  {
    match CharIndex(s, sep, 0)
    case None => [s]
    case Some(i) =>
      var rest := Split(s[i + 1..], sep);
      assert s == s[..i] + [sep] + s[i + 1..];
      [s[..i]] + rest
  }

  /** Splitting a joined list gives the list back, when no piece holds the separator. */
  lemma {:induction false} SplitJoin(parts: seq<string>, sep: char)
    requires |parts| >= 1
    requires forall i :: 0 <= i < |parts| ==> sep !in parts[i]
    ensures Split(Join(parts, sep), sep) == parts
  {
    var s := Join(parts, sep);
    if |parts| == 1 {
      assert CharIndex(s, sep, 0).None?;
    } else {
      var p := parts[0];
      assert s == p + [sep] + Join(parts[1..], sep);
      assert s[|p|] == sep;
      assert forall k :: 0 <= k < |p| ==> s[k] == p[k];
      assert CharIndex(s, sep, 0) == Some(|p|);
      assert s[|p| + 1..] == Join(parts[1..], sep);
      assert s[..|p|] == p;
      SplitJoin(parts[1..], sep);
    }
  }

  /** The first piece is what precedes the first separator. */
  lemma SplitFirst(q: string, sep: char, rest: string)
    requires sep !in q
    ensures Split(q + [sep] + rest, sep) == [q] + Split(rest, sep)
  {
    var s := q + [sep] + rest;
    assert forall k :: 0 <= k < |q| ==> s[k] == q[k] && s[k] != sep;
    assert s[|q|] == sep;
    assert CharIndex(s, sep, 0) == Some(|q|);
    assert s[..|q|] == q && s[|q| + 1..] == rest;
  }

  /** `strings.Replace(s, pat, "", 1)`: removes the first occurrence of `pat`. */
  function RemoveFirst(s: string, pat: string): (r: string)
    ensures !Contains(s, pat) ==> r == s
    ensures Contains(s, pat) ==> |r| == |s| - |pat|
  {
    match IndexOf(s, pat, 0)
    case None => s
    case Some(i) => s[..i] + s[i + |pat|..]
  }

  /** Length of the first non-empty literal among `cuts` that starts `s`, or 0 when none does. */
  function CutAt(s: string, cuts: seq<string>): (n: nat)
    ensures n <= |s|
    ensures n > 0 ==> exists c :: c in cuts && |c| == n && c <= s
    ensures n == 0 ==> forall c :: c in cuts && c != [] ==> !(c <= s)
  {
    if cuts == [] then 0
    else if cuts[0] != [] && cuts[0] <= s then |cuts[0]|
    else
      assert forall c :: c in cuts ==> c == cuts[0] || c in cuts[1..];
      CutAt(s, cuts[1..])
  }

  /** `regexp.ReplaceAllString(s, "")` for an alternation of literals `(c1|c2|...)`. */
  function RemoveAll(s: string, cuts: seq<string>): (r: string)
    decreases |s|
    ensures |r| <= |s|
  {
    if |s| == 0 then []
    else
      var n := CutAt(s, cuts);
      if n > 0 then RemoveAll(s[n..], cuts)
      else [s[0]] + RemoveAll(s[1..], cuts)
  }

  /** A cut that the alternation picks at the very start of the text is dropped. */
  lemma RemoveAllLeadingCut(c: string, s: string, cuts: seq<string>)
    requires c != [] && CutAt(c + s, cuts) == |c|
    ensures RemoveAll(c + s, cuts) == RemoveAll(s, cuts)
  {
    assert (c + s)[|c|..] == s;
  }

  /** No character of `a` starts a cut. */
  predicate NoCutStart(a: string, cuts: seq<string>) {
    forall k, c :: 0 <= k < |a| && c in cuts && c != [] ==> a[k] != c[0]
  }

  lemma NoCutAtPlain(s: string, cuts: seq<string>)
    requires s != [] && forall c :: c in cuts && c != [] ==> s[0] != c[0]
    ensures CutAt(s, cuts) == 0
  {
  }

  /** Where no cut starts, the first character is kept. */
  lemma RemoveAllKeepsHead(s: string, cuts: seq<string>)
    requires s != [] && CutAt(s, cuts) == 0
    ensures RemoveAll(s, cuts) == [s[0]] + RemoveAll(s[1..], cuts)
  {
  }

  lemma NoCutStartTail(a: string, cuts: seq<string>)
    requires a != [] && NoCutStart(a, cuts)
    ensures NoCutStart(a[1..], cuts)
  {
    forall k, c | 0 <= k < |a[1..]| && c in cuts && c != [] ensures a[1..][k] != c[0] {
      assert a[1..][k] == a[k + 1];
    }
  }

  lemma ConsConcat(a: string, b: string)
    requires a != []
    ensures [a[0]] + (a[1..] + b) == a + b
  {
    assert [a[0]] + a[1..] == a;
  }

  /** Text in which no cut can start passes through unchanged, whatever follows it. */
  lemma {:induction false} RemoveAllKeepsPlain(a: string, b: string, cuts: seq<string>)
    requires NoCutStart(a, cuts)
    ensures RemoveAll(a + b, cuts) == a + RemoveAll(b, cuts)
    decreases |a|
  {
    if a == [] {
      assert a + b == b;
    } else {
      var s := a + b;
      assert s[0] == a[0] && s[1..] == a[1..] + b;
      NoCutAtPlain(s, cuts);
      RemoveAllKeepsHead(s, cuts);
      NoCutStartTail(a, cuts);
      RemoveAllKeepsPlain(a[1..], b, cuts);
      ConsConcat(a, RemoveAll(b, cuts));
    }
  }

  /** Text in which no cut occurs passes through unchanged, whatever follows it. */
  lemma {:induction false} RemoveAllKeeps(a: string, b: string, cuts: seq<string>)
    requires forall k, c :: 0 <= k < |a| && c in cuts && c != [] ==> !OccursAt(a + b, c, k)
    ensures RemoveAll(a + b, cuts) == a + RemoveAll(b, cuts)
    decreases |a|
  {
    if a == [] {
      assert a + b == b;
    } else {
      var s := a + b;
      assert s[1..] == a[1..] + b;
      NoCutFirst(s, cuts);
      RemoveAllKeepsHead(s, cuts);
      NoCutShift(a, b, cuts);
      RemoveAllKeeps(a[1..], b, cuts);
      ConsConcat(a, RemoveAll(b, cuts));
    }
  }

  lemma NoCutFirst(s: string, cuts: seq<string>)
    requires s != [] && forall c :: c in cuts && c != [] ==> !OccursAt(s, c, 0)
    ensures forall c :: c in cuts && c != [] ==> !(c <= s)
  {
    forall c | c in cuts && c != [] ensures !(c <= s) {
      assert !OccursAt(s, c, 0);
    }
  }

  /** No cut occurring in the first part stays so once its first character is dropped. */
  lemma NoCutShift(a: string, b: string, cuts: seq<string>)
    requires a != []
    requires forall k, c :: 0 <= k < |a| && c in cuts && c != [] ==> !OccursAt(a + b, c, k)
    ensures forall k, c :: 0 <= k < |a[1..]| && c in cuts && c != [] ==> !OccursAt(a[1..] + b, c, k)
  {
    var s := a + b;
    assert s[1..] == a[1..] + b;
    forall k, c | 0 <= k < |a[1..]| && c in cuts && c != [] ensures !OccursAt(a[1..] + b, c, k) {
      assert !OccursAt(s, c, k + 1);
      var t := s[1..];
      if k + |c| <= |t| {
        var u, v := t[k..k + |c|], s[k + 1..k + 1 + |c|];
        forall i | 0 <= i < |c| ensures u[i] == v[i] {
          assert u[i] == t[k + i] == s[k + 1 + i];
        }
        assert u == v;
      }
    }
  }

  /** A carriage return or a line feed. */
  predicate IsLineEnd(c: char) { c == '\r' || c == '\n' }

  /** `strings.TrimRight(s, "\r\n")`: drops trailing carriage returns and line feeds. */
  function TrimLineEnd(s: string): (r: string)
    ensures r <= s
    ensures r == [] || !IsLineEnd(r[|r| - 1])
    ensures forall k :: |r| <= k < |s| ==> IsLineEnd(s[k])
  {
    if s != [] && IsLineEnd(s[|s| - 1]) then TrimLineEnd(s[..|s| - 1]) else s
  }

  /** A text in which no cut starts is left as it is. */
  lemma PlainKept(a: string, cuts: seq<string>)
    requires NoCutStart(a, cuts)
    ensures RemoveAll(a, cuts) == a
  {
    RemoveAllKeepsPlain(a, [], cuts);
    assert a + [] == a;
  }

  /** Trailing line ends after a text that does not end in one are dropped. */
  lemma {:induction false} TrimLineEndOf(v: string, e: string)
    requires v == [] || !IsLineEnd(v[|v| - 1])
    requires forall k :: 0 <= k < |e| ==> IsLineEnd(e[k])
    ensures TrimLineEnd(v + e) == v
    decreases |e|
  {
    if e == [] {
      assert v + e == v;
    } else {
      assert (v + e)[..|v + e| - 1] == v + e[..|e| - 1];
      TrimLineEndOf(v, e[..|e| - 1]);
    }
  }

  /**
   * The field trimming the reader applies to every match: every match of
   * the alternation `cuts` is removed, then the trailing line terminator.
   */
  function TrimField(field: string, cuts: seq<string>): (r: string)
    ensures |r| <= |field|
    ensures r <= RemoveAll(field, cuts)
    ensures r == [] || !IsLineEnd(r[|r| - 1])
    ensures forall k :: |r| <= k < |RemoveAll(field, cuts)| ==> IsLineEnd(RemoveAll(field, cuts)[k])
  {
    TrimLineEnd(RemoveAll(field, cuts))
  }

  /** The first index at or after `from` that holds `term` or a line feed. */
  function StopAt(s: string, from: nat, term: char): (r: Option<nat>)
    decreases |s| - from
    ensures r.Some? ==> from <= r.value < |s| && (s[r.value] == term || s[r.value] == '\n')
    ensures forall k :: from <= k < |s| && (r.None? || k < r.value) ==> s[k] != term && s[k] != '\n'
  {
    if from >= |s| then None
    else if s[from] == term || s[from] == '\n' then Some(from)
    else StopAt(s, from + 1, term)
  }

  /**
   * The end index (inclusive) of a match of `(t1|t2|...).*?TERM` starting
   * at `i` (`minGap` 0), or of `(t1|t2|...).+\n` (`minGap` 1, `term` a
   * line feed): the first alternative that starts at `i` and is followed,
   * on the same line and at least `minGap` characters later, by `term`.
   */
  function MatchAt(s: string, i: nat, tags: seq<string>, term: char, minGap: nat): (r: Option<nat>)
    decreases |tags|
    ensures r.Some? ==> i <= r.value < |s| && s[r.value] == term
    ensures r.Some? ==> exists t :: t in tags && OccursAt(s, t, i) && i + |t| + minGap <= r.value
  {
    if tags == [] then None
    else
      var t := tags[0];
      var e := if OccursAt(s, t, i) then StopAt(s, i + |t|, term) else None;
      if e.Some? && s[e.value] == term && e.value >= i + |t| + minGap then e
      else MatchAt(s, i, tags[1..], term, minGap)
  }

  /** The leftmost match at or after `from`, as (start, inclusive end). */
  function Scan(s: string, from: nat, tags: seq<string>, term: char, minGap: nat): (r: Option<(nat, nat)>)
    decreases |s| + 1 - from
    ensures r.Some? ==> from <= r.value.0 <= r.value.1 < |s| && s[r.value.1] == term
    ensures r.Some? ==> MatchAt(s, r.value.0, tags, term, minGap) == Some(r.value.1)
    ensures forall k :: from <= k <= |s| && (r.None? || k < r.value.0) ==> MatchAt(s, k, tags, term, minGap).None?
  {
    if from > |s| then None
    else
      var m := MatchAt(s, from, tags, term, minGap);
      if m.Some? then Some((from, m.value)) else Scan(s, from + 1, tags, term, minGap)
  }

  /** `regexp.FindString`: the text of the leftmost match, or "" when there is none. */
  function FindString(s: string, tags: seq<string>, term: char, minGap: nat): (r: string)
    ensures r != [] ==> r[|r| - 1] == term && exists t :: t in tags && t <= r
    ensures r == [] <==> Scan(s, 0, tags, term, minGap).None?
    ensures r != [] ==> r == s[Scan(s, 0, tags, term, minGap).value.0..Scan(s, 0, tags, term, minGap).value.1 + 1]
    ensures r == [] ==> forall k :: 0 <= k <= |s| ==> MatchAt(s, k, tags, term, minGap).None?
  {
    match Scan(s, 0, tags, term, minGap)
    case None => []
    case Some((i, j)) =>
      var t :| t in tags && OccursAt(s, t, i) && i + |t| + minGap <= j;
      assert s[i..j + 1][..|t|] == t;
      s[i..j + 1]
  }

  /** A match with none to its left is the one `FindString` returns. */
  lemma FindStringAt(s: string, tags: seq<string>, term: char, minGap: nat, i: nat)
    requires i <= |s| && MatchAt(s, i, tags, term, minGap).Some?
    requires forall k :: 0 <= k < i ==> MatchAt(s, k, tags, term, minGap).None?
    ensures FindString(s, tags, term, minGap) == s[i..MatchAt(s, i, tags, term, minGap).value + 1]
  {
    var r := Scan(s, 0, tags, term, minGap);
    assert r.Some?;
    assert MatchAt(s, r.value.0, tags, term, minGap).Some?;
    assert r.value.0 == i;
  }

  /** `StopAt` finds the first terminator or line feed. */
  lemma StopAtFirst(s: string, from: nat, term: char, e: nat)
    requires from <= e < |s| && (s[e] == term || s[e] == '\n')
    requires forall k :: from <= k < e ==> s[k] != term && s[k] != '\n'
    ensures StopAt(s, from, term) == Some(e)
  {
  }

  /** A single-tag pattern that matches at the very start is the match `FindString` returns. */
  lemma FindStringAtStart(s: string, tag: string, term: char, e: nat)
    requires OccursAt(s, tag, 0) && StopAt(s, |tag|, term) == Some(e) && s[e] == term
    ensures FindString(s, [tag], term, 0) == s[..e + 1]
  {
    assert MatchAt(s, 0, [tag], term, 0) == Some(e);
    assert Scan(s, 0, [tag], term, 0) == Some((0, e));
  }

  /** A tag that does not occur is not found. */
  lemma FindStringNeedsTag(s: string, tag: string, term: char, minGap: nat)
    requires !Contains(s, tag)
    ensures FindString(s, [tag], term, minGap) == []
  {
  }

  /** `regexp.FindAllString(s, -1)` from `from` on: the leftmost non-overlapping matches in order. */
  function FindAll(s: string, from: nat, tags: seq<string>, term: char, minGap: nat): (r: seq<string>)
    decreases |s| + 1 - from
    ensures r == [] <==> Scan(s, from, tags, term, minGap).None?
    ensures r != [] ==> r[0] == s[Scan(s, from, tags, term, minGap).value.0..Scan(s, from, tags, term, minGap).value.1 + 1]
    ensures forall x :: x in r ==> |x| > 0 && x[|x| - 1] == term
  {
    match Scan(s, from, tags, term, minGap)
    case None => []
    case Some((i, j)) =>
      var rest := FindAll(s, j + 1, tags, term, minGap);
      var m := s[i..j + 1];
      assert m[|m| - 1] == term;
      ConsMembers(m, rest);
      [m] + rest
  }

  lemma ConsMembers(m: string, rest: seq<string>)
    ensures forall x :: x in [m] + rest <==> x == m || x in rest
  {
  }

  /** The longest prefix of `s` made of digits. */
  function LeadingDigits(s: string): (r: string)
    ensures r <= s && AllDigits(r)
    ensures |r| < |s| ==> !IsDigit(s[|r|])
    ensures AllDigits(s) ==> r == s
  {
    if |s| > 0 && IsDigit(s[0]) then [s[0]] + LeadingDigits(s[1..]) else []
  }

  /** The digits are all of a digit run that the next character ends. */
  lemma {:induction false} LeadingDigitsOf(p: string, q: string)
    requires AllDigits(p) && (q == [] || !IsDigit(q[0]))
    ensures LeadingDigits(p + q) == p
    decreases |p|
  {
    if p == [] {
      assert p + q == q;
    } else {
      assert (p + q)[1..] == p[1..] + q;
      LeadingDigitsOf(p[1..], q);
    }
  }

  /** Without the terminator in the text, a `.*?TERM` pattern finds nothing. */
  lemma FindStringNeedsTerm(s: string, tags: seq<string>, term: char, minGap: nat)
    requires term !in s
    ensures FindString(s, tags, term, minGap) == []
  {
  }

  /** The decimal value of a digit string. */
  function DigitsValue(s: string): (n: nat)
    requires AllDigits(s)
  {
    if s == [] then 0 else DigitsValue(s[..|s| - 1]) * 10 + (s[|s| - 1] as int - '0' as int)
  }

  const MaxInt64: int := 0x7fff_ffff_ffff_ffff

  const MaxUint64: int := 0xffff_ffff_ffff_ffff

  /** The text after a leading `+` or `-`, or the whole text when it has none. */
  function Unsigned(s: string): (r: string)
    ensures s != [] && (s[0] == '-' || s[0] == '+') ==> r == s[1..]
    ensures s == [] || (s[0] != '-' && s[0] != '+') ==> r == s
  {
    if s != [] && (s[0] == '-' || s[0] == '+') then s[1..] else s
  }

  /**
   * `strconv.Atoi` with its error dropped (the reader always ignores it):
   * an optional sign and at least one digit, saturated to 64 bits; 0 for
   * anything else. As in `strconv.ParseUint`, the digits are read from the
   * left, and once the digits read exceed 64 unsigned bits the reading
   * stops with the saturated value, before any later character is looked
   * at, so `99999999999999999999x` saturates instead of giving 0.
   */
  function Atoi(s: string): (r: int)
    ensures -MaxInt64 - 1 <= r <= MaxInt64
    ensures s == [] ==> r == 0
    ensures s != [] && DigitsValue(LeadingDigits(Unsigned(s))) > MaxUint64 ==>
      r == (if s[0] == '-' then -MaxInt64 - 1 else MaxInt64)
    ensures s != [] && !AllDigits(Unsigned(s)) && DigitsValue(LeadingDigits(Unsigned(s))) <= MaxUint64 ==> r == 0
    ensures s != [] && AllDigits(s) && DigitsValue(s) <= MaxInt64 ==> r == DigitsValue(s)
    ensures s != [] && AllDigits(s) && DigitsValue(s) > MaxInt64 ==> r == MaxInt64
    ensures s == "+" || s == "-" ==> r == 0
    ensures |s| > 1 && s[0] == '+' && AllDigits(s[1..]) ==>
      r == (if DigitsValue(s[1..]) > MaxInt64 then MaxInt64 else DigitsValue(s[1..]))
    ensures |s| > 1 && s[0] == '-' && AllDigits(s[1..]) ==>
      r == (if DigitsValue(s[1..]) > MaxInt64 + 1 then -MaxInt64 - 1 else 0 - DigitsValue(s[1..]))
  {
    if s == [] then 0
    else
      var body := Unsigned(s);
      var run := LeadingDigits(body);
      if DigitsValue(run) > MaxUint64 then (if s[0] == '-' then -MaxInt64 - 1 else MaxInt64)
      else if body == [] || |run| < |body| then 0
      else
        assert run == body;
        var v: int := DigitsValue(body);
        if s[0] == '-' then (if v > MaxInt64 + 1 then -MaxInt64 - 1 else -v)
        else if v > MaxInt64 then MaxInt64
        else v
  }

  /**
   * Digits whose value overflows 64 unsigned bits saturate whatever follows
   * them: the reading stops before the first non-digit is reached.
   */
  lemma AtoiOverflowStops(d: string, rest: string)
    requires AllDigits(d) && DigitsValue(d) > MaxUint64 && (rest == [] || !IsDigit(rest[0]))
    ensures Atoi(d + rest) == MaxInt64
    ensures Atoi("-" + d + rest) == -MaxInt64 - 1
  {
    UnsignedPlain(d, rest);
    UnsignedNegative(d, rest);
  }

  /** Digits and a text that does not go on with a digit: the unsigned run is the digits. */
  lemma UnsignedPlain(d: string, rest: string)
    requires d != [] && AllDigits(d) && (rest == [] || !IsDigit(rest[0]))
    ensures d + rest != [] && (d + rest)[0] != '-' && LeadingDigits(Unsigned(d + rest)) == d
  {
    assert IsDigit((d + rest)[0]);
    LeadingDigitsOf(d, rest);
  }

  /** The same after a minus sign. */
  lemma UnsignedNegative(d: string, rest: string)
    requires d != [] && AllDigits(d) && (rest == [] || !IsDigit(rest[0]))
    ensures ("-" + d + rest)[0] == '-' && LeadingDigits(Unsigned("-" + d + rest)) == d
  {
    assert ("-" + d + rest)[1..] == d + rest;
    LeadingDigitsOf(d, rest);
  }

  /** Digits never parse to a negative number. */
  lemma AtoiDigitsNonNegative(s: string)
    requires AllDigits(s)
    ensures Atoi(s) >= 0
  {
  }

  /** The digit character for 0..9. */
  function DigitChar(d: int): (c: char)
    requires 0 <= d <= 9
    ensures IsDigit(c) && c as int - '0' as int == d
  {
    ('0' as int + d) as char
  }

  /** `Format("1")` of a month: its number in decimal, without padding. */
  function MonthText(m: int): (r: string)
    requires 1 <= m <= 12
    ensures 1 <= |r| <= 2 && AllDigits(r) && DigitsValue(r) == m
  {
    if m < 10 then [DigitChar(m)]
    else
      var r := ['1', DigitChar(m - 10)];
      assert r[..1] == ['1'] && ['1'][..0] == [];
      assert DigitsValue(['1']) == 1;
      r
  }
}
