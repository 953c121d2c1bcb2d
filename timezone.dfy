/**
 * Resolution of a `TZID` name to a zone (`parseLocation`): the name as a
 * zone of the database, then as a key of the table of Windows and legacy
 * names, then that table again after every white-space-and-digit pair has
 * been removed, and UTC when all of that fails.
 *
 * The zone database is a parameter: a map from zone names to zones, read
 * the way `time.LoadLocation` reads the system database.
 */
module Timezone {
  import opened Wrappers
  import opened Text

  /** A location, reduced to its name and its offset from UTC in seconds. */
  datatype Zone = Zone(name: string, offset: int)

  const Utc: Zone := Zone("UTC", 0)

  type ZoneDb = map<string, Zone>

  /** `time.LoadLocation`: the empty name and "UTC" are UTC; any other name is looked up. */
  function LoadLocation(db: ZoneDb, name: string): (r: Option<Zone>)
    ensures name == "" || name == "UTC" ==> r == Some(Utc)
    ensures r.Some? <==> name == "" || name == "UTC" || name in db
  {
    if name == "" || name == "UTC" then Some(Utc)
    else if name in db then Some(db[name])
    else None
  }

  /** Some entries of the table of non-standard zone names, each with its zone database name. */
  const NonStandard: map<string, string> := map[
    "Pacific Standard Time" := "America/Los_Angeles",
    "Eastern Standard Time" := "America/New_York",
    "E. South America Standard Time" := "America/Sao_Paulo",
    "W. Europe Standard Time" := "Europe/Berlin",
    "Romance Standard Time" := "Europe/Paris",
    "UTC" := "Etc/GMT",
    "Russia Time Zone 3" := "Europe/Samara",
    "Mexico Standard Time 2" := "America/Chihuahua",
    "E. South America Standard Time 1" := "America/Sao_Paulo",
    "Azerbaijan Standard Time " := "America/Buenos_Aires"
  ]

  /** The errors `parseLocation` reports. */
  datatype ZoneError =
    | Unmapped(location: string)                           // timezoneLocationError: fell back to UTC
    | Compatibility(original: string, compatible: string)  // found only after the suffix was stripped
    | LoadFailed(name: string)                             // a table entry the database does not hold

  /** A white-space character followed by a digit starts at `k`. */
  predicate PairAt(s: string, k: nat) {
    k + 1 < |s| && IsRegexSpace(s[k]) && IsDigit(s[k + 1])
  }

  predicate HasPair(s: string) {
    exists k :: 0 <= k < |s| && PairAt(s, k)
  }

  /**
   * `ReplaceAllString(s, "")` with the pattern `\s[0-9]`: one left-to-right
   * pass that drops each pair it finds and resumes after it.
   */
  function StripSuffixes(s: string): (r: string)
    decreases |s|
    ensures |r| <= |s|
  {
    if |s| < 2 then s
    else if PairAt(s, 0) then StripSuffixes(s[2..])
    else [s[0]] + StripSuffixes(s[1..])
  }

  /** `a` can be obtained from `b` by deleting characters. */
  predicate Subsequence(a: string, b: string)
    decreases |b|
  {
    a == [] || (b != [] && ((a[0] == b[0] && Subsequence(a[1..], b[1..])) || Subsequence(a, b[1..])))
  }

  lemma {:induction false} SubsequenceDrop(a: string, b: string, n: nat)
    requires n <= |b| && Subsequence(a, b[n..])
    ensures Subsequence(a, b)
    decreases n
  {
    if n > 0 {
      assert b[1..][n - 1..] == b[n..];
      SubsequenceDrop(a, b[1..], n - 1);
    }
  }

  /** Stripping only deletes characters: the result is a subsequence of the name. */
  lemma {:induction false} StripIsSubsequence(s: string)
    ensures Subsequence(StripSuffixes(s), s)
    decreases |s|
  {
    var r := StripSuffixes(s);
    if |s| < 2 {
      SubsequenceSelf(s);
    } else if PairAt(s, 0) {
      StripIsSubsequence(s[2..]);
      SubsequenceDrop(r, s, 2);
    } else {
      StripIsSubsequence(s[1..]);
      assert r[1..] == StripSuffixes(s[1..]);
    }
  }

  lemma {:induction false} SubsequenceSelf(s: string)
    ensures Subsequence(s, s)
    decreases |s|
  {
    if s != [] {
      SubsequenceSelf(s[1..]);
    }
  }

  /** A name is left as it is exactly when it holds no white-space-and-digit pair. */
  lemma {:induction false} StripUnchangedIff(s: string)
    ensures StripSuffixes(s) == s <==> !HasPair(s)
    decreases |s|
  {
    if |s| < 2 {
    } else if PairAt(s, 0) {
      assert |StripSuffixes(s)| < |s|;
    } else {
      StripUnchangedIff(s[1..]);
      if HasPair(s) {
        var k :| 0 <= k < |s| && PairAt(s, k);
        assert PairAt(s[1..], k - 1);
      }
      if HasPair(s[1..]) {
        var k :| 0 <= k < |s[1..]| && PairAt(s[1..], k);
        assert PairAt(s, k + 1);
      }
    }
  }

  /** A name without pairs followed by one pair loses exactly that pair. */
  lemma {:induction false} StripTrailingPair(n: string, sp: char, d: char)
    requires !HasPair(n) && IsRegexSpace(sp) && IsDigit(d)
    ensures StripSuffixes(n + [sp, d]) == n
    decreases |n|
  {
    var s := n + [sp, d];
    if n == [] {
      assert PairAt(s, 0) && s[2..] == [];
    } else {
      assert !PairAt(n, 0);
      assert !PairAt(s, 0);
      assert s[1..] == n[1..] + [sp, d];
      if HasPair(n[1..]) {
        var k :| 0 <= k < |n[1..]| && PairAt(n[1..], k);
        assert PairAt(n, k + 1);
      }
      StripTrailingPair(n[1..], sp, d);
    }
  }

  /** One pass is not enough: what a pass leaves can form a new pair. */
  lemma StripNotIdempotent()
    ensures StripSuffixes("a  12") == "a 2"
    ensures StripSuffixes("a 2") == "a"
  {
    assert PairAt("a  12", 2);
    assert "a  12"[1..] == "  12" && "  12"[1..] == " 12" && " 12"[2..] == "2";
    assert "a 2"[1..] == " 2" && " 2"[2..] == [];
  }

  /** What `parseLocation` returns: a zone (none only on `LoadFailed`) and an optional error. */
  datatype Located = Located(zone: Option<Zone>, err: Option<ZoneError>)

  /** The name loads directly, or it is a table key whose mapped name loads. */
  predicate ResolvesCleanly(db: ZoneDb, location: string) {
    LoadLocation(db, location).Some?
    || (location in NonStandard && LoadLocation(db, NonStandard[location]).Some?)
  }

  /** Only the stripped name is a table key. */
  predicate NeedsStripping(db: ZoneDb, location: string) {
    LoadLocation(db, location).None? && location !in NonStandard
    && StripSuffixes(location) in NonStandard
  }

  /** `parseLocation`. */
  function ParseLocation(db: ZoneDb, location: string): (r: Located)
    ensures r.err.None? <==> ResolvesCleanly(db, location)
    ensures r.err.None? ==> r.zone.Some?
    ensures LoadLocation(db, location).Some? ==> r == Located(LoadLocation(db, location), None)
    ensures r.err.Some? && r.err.value.Compatibility? <==>
      NeedsStripping(db, location) && LoadLocation(db, NonStandard[StripSuffixes(location)]).Some?
    ensures r.err.Some? && r.err.value.Compatibility? ==>
      r.err.value == Compatibility(location, StripSuffixes(location))
      && r.zone == LoadLocation(db, NonStandard[StripSuffixes(location)])
    ensures r.err.Some? && r.err.value.LoadFailed? <==>
      NeedsStripping(db, location) && LoadLocation(db, NonStandard[StripSuffixes(location)]).None?
    ensures r.zone.None? <==> r.err.Some? && r.err.value.LoadFailed?
    ensures r.err.Some? && r.err.value.Unmapped? ==> r.zone == Some(Utc) && r.err.value.location == location
  {
    var direct := LoadLocation(db, location);
    if direct.Some? then Located(direct, None)
    else if location in NonStandard then
      var mapped := LoadLocation(db, NonStandard[location]);
      if mapped.Some? then Located(mapped, None)
      else Located(Some(Utc), Some(Unmapped(location)))
    else
      var trimmed := StripSuffixes(location);
      if trimmed in NonStandard then
        var mapped := LoadLocation(db, NonStandard[trimmed]);
        if mapped.None? then Located(None, Some(LoadFailed(NonStandard[trimmed])))
        else Located(mapped, Some(Compatibility(location, trimmed)))
      else Located(Some(Utc), Some(Unmapped(location)))
  }

  /** Every outcome is one of the three the reader distinguishes, or the raw load failure. */
  lemma ResolutionIsTotal(db: ZoneDb, location: string)
    ensures var r := ParseLocation(db, location);
      (r.err.None? && r.zone.Some?)
      || (r.err.Some? && r.err.value.Compatibility? && r.zone.Some?)
      || (r.err.Some? && r.err.value.Unmapped? && r.zone == Some(Utc))
      || (r.err.Some? && r.err.value.LoadFailed? && r.zone.None?)
  {
  }

  /** A Windows name resolves through the table without an error. */
  lemma PacificResolves(db: ZoneDb)
    requires "America/Los_Angeles" in db && "Pacific Standard Time" !in db
    ensures ParseLocation(db, "Pacific Standard Time") == Located(Some(db["America/Los_Angeles"]), None)
  {
  }

  /**
   * A table name followed by a space and a digit (a disambiguator such as
   * "E. South America Standard Time 2") resolves in compatibility mode.
   */
  lemma SuffixedNameIsCompatible(db: ZoneDb, n: string, sp: char, d: char)
    requires !HasPair(n) && IsRegexSpace(sp) && IsDigit(d)
    requires n in NonStandard && n + [sp, d] !in NonStandard
    requires NonStandard[n] in db && n + [sp, d] !in db
    ensures ParseLocation(db, n + [sp, d])
      == Located(Some(db[NonStandard[n]]), Some(Compatibility(n + [sp, d], n)))
  {
    var name := n + [sp, d];
    StripTrailingPair(n, sp, d);
    assert name != "UTC" by {
      assert name[|name| - 1] == d;
    }
    assert LoadLocation(db, name).None?;
  }

  /** An unknown name falls back to UTC and is reported as unmapped. */
  lemma UnknownNameFallsBackToUtc(db: ZoneDb, location: string)
    requires location !in db && location != "" && location != "UTC"
    requires location !in NonStandard && StripSuffixes(location) !in NonStandard
    ensures ParseLocation(db, location) == Located(Some(Utc), Some(Unmapped(location)))
  {
  }
}
