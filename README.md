# go-ics event parsing, modelled in Dafny

This project models the core of `parse.go` from the Go library go-ics. That code is a loose, pattern-driven reader of iCalendar (RFC 5545) documents. It:

- splits a document into its `BEGIN:VEVENT` blocks and the header text around them;
- reads the calendar's name, description and default zone from the header;
- turns every block into an `Event`, with its timestamps, zones, exclusion dates, recurrence id, attendees and organizer;
- expands events that carry a recurrence rule into numbered occurrences, filing each one as live, excluded or dropped;
- finally sorts the events by start and subtracts the excluded occurrences.

The model follows the branches and error cases of the Go code. The few places where it cannot, such as a Go panic, are listed under "## Left out". The modules are:

- `Text` covers the string primitives the Go code relies on: `strings.TrimSpace`, `strings.Split`, `strings.Contains`, `strconv.Atoi`. It also has the few regular-expression shapes that occur, each modelled as the scan it performs: first match of `TAG.*?TERM`, remove every literal alternative, trim line ends.
- `Civil` counts instants in seconds from 0001-01-01 00:00:00 UTC, which is Go's zero time. It has a proleptic Gregorian calendar with its inverse, `AddDate`, weekday and month. It also has a decoder for the fixed `YYYYMMDDTHHMMSSZ` layout that `time.Parse` is given.
- `Timezone` holds `parseLocation` with its three outcomes: no error, a compatibility error, and an unmapped name that falls back to UTC. It also has the raw load failure, the suffix stripping `\s[0-9]`, and part of the Windows-name table. The zone database is a map parameter standing for `time.LoadLocation`.
- `Dates` covers `parseDatetime`, `parseDate`, `parseEventDate`, `findWithStart`, `parseEventRecurrenceID` and `parseExcludedDates`.
- `Rule` covers `parseUntil`, `parseInterval` and `parseCount`. It also has the `FREQ`, `BYMONTH` and `BYDAY` substrings, the month and day filters, and the step table.
- `Fields` covers the single-field extractors, attendee and organizer parsing with the Go code's partial unfolding, `explodeICal`, and the calendar header.
- `Events` has the event record and the per-event body of `parseEvents`. That body decides which errors are traced and which are fatal, and applies the zone fallback, the default end and the whole-day flag.
- `Expansion` is the recurrence loop. Its specification is the functions `CommitOne`, `RoundOf`, `Next` and `Expand`. The class `Expander` holds the loop variables `current`, `count` and `freqDate` as fields, and its methods are proved against those functions.
- `Post` covers `diff`, `eventIsDuplicated` and the sort by start.
- `Calendars` covers `ParseICalContent` and `parseEvents` as a `Calendar` class whose events and diagnostics the methods update.

Five behaviours of the code are easy to miss, and the model keeps each of them:

- A `TZID` never shifts the parsed instant. `parseDatetime` (`parse.go` lines 594-605) reads the stamp as UTC and only returns the zone beside it. The repository's test `TestParseEventDate` (`parse_test.go` lines 120-135) expects the Madrid wall-clock time instead.
- Zone resolution is not total. When a stripped name is in the table but its zone fails to load, `parseLocation` returns no zone and the raw error (`parse.go` lines 619-622). `parseEvents` treats that error as fatal.
- The final sort is `sort.Sort` (`parse.go` line 503), which is not stable. Only sortedness and permutation are claimed, not the order of ties.
- On a fatal error `parseEvents` returns at once (`parse.go` lines 365, 376, 410 and 415). The events already appended at line 427 stay in the calendar.
- An unknown `FREQ` matches no case of the step table (`parse.go` lines 439-448), so the step is zero. Without `UNTIL` or `BYDAY` the loop at line 453 then never stops (`Expansion.ZeroStepNeverStops`), so the repeat cap does not bound every run.

## Model

| member | source | states |
|---|---|---|
| Timezone.LoadLocation | parse.go:609 | `""` and `"UTC"` load as UTC; a name loads exactly when it is one of those or is in the zone database |
| Timezone.ParseLocation | parse.go:608-641 | no error exactly when the name loads or is a table key whose zone loads, and then its zone; compatibility error exactly when only the stripped name is a key and its zone loads, carrying original and stripped names and that zone; raw load failure, with no zone, exactly when that zone does not load; otherwise UTC with an unmapped error naming the original |
| Timezone.ResolutionIsTotal | parse.go:608-641 | every name ends in one of four outcomes: clean with a zone, compatibility with a zone, unmapped with UTC, or load failure with no zone |
| Timezone.PacificResolves | parse.go:102 | "Pacific Standard Time" resolves to the database's America/Los_Angeles with no error |
| Timezone.SuffixedNameIsCompatible | parse.go:615-627 | a table name followed by one whitespace and digit resolves to the table zone with a compatibility error carrying both names |
| Timezone.UnknownNameFallsBackToUtc | parse.go:630-635 | a name known nowhere, even after stripping, gives UTC and an unmapped error with that name |
| Timezone.StripIsSubsequence | parse.go:615 | the stripped name is a subsequence of the original |
| Timezone.StripUnchangedIff | parse.go:31 | stripping leaves a name unchanged exactly when it has no whitespace followed by a digit |
| Timezone.StripTrailingPair | parse.go:615 | a pair-free name followed by one whitespace and a digit strips back to the name |
| Timezone.StripNotIdempotent | parse.go:615 | stripping is a single pass: "a  12" becomes "a 2", which strips again to "a" |
| Text.Contains | parse.go:584 | true exactly when the pattern occurs at some index |
| Text.TrimSpace | parse.go:581 | the result neither starts nor ends with white space |
| Text.TrimSpaceSlice | parse.go:581 | the trimmed text is the original with only white space removed before and after |
| Text.Split | parse.go:585 | the pieces contain no separator, joined by it give back the text, and number two or more exactly when the separator occurs |
| Text.SplitJoin | parse.go:585 | splitting the join of separator-free pieces gives back the pieces |
| Text.RemoveAllKeepsPlain | parse.go:510 | removing cuts leaves a prefix that starts no cut unchanged |
| Text.RemoveAllKeeps | parse.go:510 | text in which no cut starts passes through removal unchanged, whatever follows it |
| Text.TrimLineEndOf | parse.go:510 | trimming a run of line-end characters gives back the text before them |
| Text.FindString | parse.go:510 | a non-empty result is the leftmost match, from its start through its terminator, and starts with one of the tags; the result is empty exactly when no index starts a match |
| Text.Scan | parse.go:510 | the match found is a match, and no index before it starts one; none found means none starts at or after `from` |
| Text.FindStringAt | parse.go:510 | a match with no match to its left is exactly what `FindString` returns |
| Text.FindAll | parse.go:556 | empty exactly when no match is left; the first is the leftmost match; every match ends with the terminator |
| Text.TrimField | parse.go:510 | the trimmed field is the field with every cut removed, minus exactly its trailing carriage returns and line feeds: a prefix of it that does not end in one, followed in it only by such characters |
| Text.FindStringAtStart | parse.go:510 | a text opening with the tag matches up to and including the first terminator |
| Text.Atoi | parse.go:530 | after an optional sign, the leading digits are read from the left: when they overflow 64 unsigned bits the result saturates at the largest 64-bit integer, or after `-` at the smallest, whatever follows them; otherwise an empty text, a lone sign or any non-digit gives 0; all digits give their value, negated after `-`, saturated at the 64-bit bounds |
| Text.AtoiOverflowStops | parse.go:530 | digits beyond 64 unsigned bits followed by a non-digit, as in `99999999999999999999x`, read as the largest 64-bit integer, and after `-` as the smallest |
| Civil.CivilFromDaysInverse | parse.go:491 | the calendar date of a day number converts back to that day number |
| Civil.DaysFromCivilInverse | parse.go:491 | a valid date converts to a day number and back to the same date |
| Civil.CivilFromDaysValid | parse.go:491 | every day number names a day its month has |
| Civil.RunOn | parse.go:491 | the date `time.Date` makes is always valid, and is the given date when the month has that day |
| Civil.DateOfDay | parse.go:491 | an instant on the day `DaysFromCivil(y, m, d)` is on `RunOn(y, m, d)`: the day itself, or the day it runs on to |
| Civil.MonthRollover | parse.go:491 | a day past the end of a month counts as that many days into the next month, December running into January |
| Civil.FebruaryRollover | parse.go:491 | a day past the end of February counts as that many days into March, in leap and common years |
| Civil.AddMonthsDate | parse.go:491 | `AddDate` by years and months keeps the time of day and lands on `MonthsLater` of the date: the month carried into the year, a missing day run on |
| Civil.MonthsLaterSameDay | parse.go:491 | a day up to the 28th stays that day of the target month |
| Civil.YearsLater | parse.go:491 | whole years later a date keeps its month and day, except that 29 February in a common year runs on to 1 March |
| Civil.JanuaryEndMonthLater | parse.go:491 | a month after 31 January is 2 March in a leap year and 3 March otherwise |
| Civil.AddDateKeepsClock | parse.go:491 | `AddDate` keeps the time of day |
| Civil.AddDaysShift | parse.go:482 | adding n days moves an instant by exactly n times 86400 seconds |
| Civil.Sub | parse.go:426 | `end.Sub(start)` lies within the largest `time.Duration` either way; it is the difference when that fits, and otherwise the nearer bound |
| Civil.NextDayWeekday | parse.go:478-482 | the next day's weekday is the following weekday, modulo 7 |
| Civil.EndOfDayBounds | parse.go:389 | 23:59:59 of an instant's day is on the same day, at that clock, and not before the instant |
| Civil.DecodeStamp | parse.go:594 | a text decodes exactly when it has the `YYYYMMDDTHHMMSSZ` shape with every field in range |
| Civil.DecodeStampFields | parse.go:594 | a decoded instant's day and time of day are the ones the digits spell |
| Dates.PiecesAreSplit | parse.go:585-587 | qualifier and value are the first and second pieces of `strings.Split` on `:` |
| Dates.QualifierValueSplit | parse.go:581-588 | on the trimmed data containing `:`, the qualifier and value are the split's parts 0 and 1 |
| Dates.TzidName | parse.go:600 | a zone name is read exactly when the qualifier contains `=` |
| Dates.ReadToken | parse.go:590-605 | a stamp `time.Parse` refuses gives the zero instant, no zone and a parse error; otherwise the instant is the stamp read as UTC; a zone or zone error comes only from a `TZID` qualifier through `parseLocation`; a `TZID` without `=` is an error |
| Dates.TzidQualifier | parse.go:599-600 | a `;TZID=name` qualifier mentions `TZID` and names exactly `name` |
| Dates.StampKeepsZ | parse.go:590-592 | a stamp already ending in `Z` is not given another one |
| Dates.TzidNotApplied | parse.go:594-605 | for `TAG;TZID=name:stamp` the instant is the stamp as UTC, the zone is the resolved one, and there is an error exactly when resolution reports one |
| Dates.FindWithStart | parse.go:570-578 | the index found is the first line with the prefix; none means no line has it |
| Dates.ParseEventDate | parse.go:555-568 | no line gives the zero instant with no zone or error; a whole-day line is the trimmed whole-day match read by `parseDate`, never with a zone; any other line is read by `parseDatetime` |
| Dates.WholeDayToken | parse.go:643-645 | `parseDate` of `TAG;VALUE=DATE:YYYYMMDD` is midnight UTC of that date, with no zone and no error |
| Dates.WholeDayDate | parse.go:555-560 | a `DTSTART` or `DTEND` line `TAG;VALUE=DATE:YYYYMMDD` gives midnight UTC of that date, with no zone and no error |
| Dates.WholeDayExample | parse_test.go:192-201 | `DTSTART;VALUE=DATE:20160122` reads as midnight UTC of 22 January 2016, with no zone and no error |
| Dates.WholeDayQualifier | parse.go:558-560 | a whole-day line with `T000000` appended has a qualifier without `TZID`, so `parseDate` gives no zone |
| Dates.RecurrenceLine | parse.go:547 | empty exactly when no `RECURRENCE-ID` match exists; otherwise it is the leftmost match, from its tag through its first line feed |
| Dates.FirstRecurrence | parse.go:46 | the match found is a match and no index before it starts one; none found means none is left |
| Dates.ParseRecurrenceId | parse.go:546-553 | no line gives the zero stamp; otherwise the line is read by `parseDatetime` |
| Dates.LineFeedIgnored | parse.go:581 | a trailing line feed does not change what `parseDatetime` reads |
| Dates.SameTrimSameToken | parse.go:581-588 | data equal after trimming give the same qualifier and value |
| Dates.ExDateAt | parse.go:54 | a match starts with `EXDATE;TZID=` and ends at the first line feed after it; the zone runs up to the last `:` before that line feed and the value from after it; there is no match exactly when the tag, the line feed or such a `:` is missing |
| Dates.LastColon | parse.go:54 | the index found holds a `:` and no later index in the range does; none found means the range holds no `:` |
| Dates.ExDatesFailIff | parse.go:655-663 | the exclusions fail exactly when some line's zone fails to resolve cleanly, and the error is that zone's |
| Dates.ReadExValue | parse.go:665-685 | the loop over the comma-separated pieces gives exactly `ExInstants` of them, in order |
| Dates.ExInstantOf | parse.go:667-682 | a piece yields an instant exactly when the piece, trimmed and given a `Z`, decodes to that instant's wall-clock reading in the line's zone |
| Dates.ExInstantsMembers | parse.go:665-685 | an instant is among the piece instants exactly when some piece yields it |
| Dates.JoinedMembers | parse.go:665-684 | an instant is in the pieces' joined date lists exactly when it is in the list of one piece |
| Dates.ExDatesMembers | parse.go:655-686 | when the exclusion list succeeds, an instant is in it exactly when it is among the dates of one `EXDATE` line, read in that line's zone |
| Dates.ParseExcludedDates | parse.go:651-689 | no error exactly when every line's zone resolves cleanly, and then the dates of all lines in order; on error no dates and the error of a line whose zone fails |
| Rule.TaggedDigitsRead | parse.go:770 | the digits right after the tag are what the rule field reads |
| Rule.ParseInterval | parse.go:769-777 | always at least 1; 1 when `INTERVAL` is absent, empty or zero; otherwise its value, saturated at the largest 64-bit integer |
| Rule.ParseCount | parse.go:779-787 | `maxRepeats` when `COUNT` is absent, empty or zero; otherwise its value, saturated; at least 1 when `maxRepeats` is |
| Rule.IntervalRead | parse.go:769-777 | `INTERVAL=n` followed by a non-digit reads as n |
| Rule.CountRead | parse.go:779-787 | `COUNT=n` followed by a non-digit reads as n |
| Rule.CountZeroIsUnbounded | parse.go:782-784 | `COUNT=0` reads as `maxRepeats` |
| Rule.UntilAt | parse.go:66 | a match is `UNTIL=`, a run of digits, a `T`, a run of digits and a `Z`, the runs being as long as the digits go |
| Rule.UntilAtExact | parse.go:66 | conversely, text of that shape at an index is the match there, ending after its `Z` |
| Rule.DigitsEnd | parse.go:66 | a run of digits `(\d)*` ends at the first index that is not a digit |
| Rule.UntilScan | parse.go:66 | the match found is a match and no index before it starts one; none found means none is left |
| Rule.ParseUntil | parse.go:759-767 | no `UNTIL` or an undecodable one gives the zero instant; otherwise the decoded stamp |
| Rule.UntilReadsBack | parse.go:759-767 | `UNTIL=stamp` at the head of a rule reads back as that stamp's instant |
| Rule.FreqRead | parse.go:433 | `FREQ=f;` reads as f |
| Rule.ByMonthRead | parse.go:434 | `BYMONTH=m;` reads as m |
| Rule.NoSemicolonNoFields | parse.go:69-70 | without any `;` both `FREQ` and `BYMONTH` read empty |
| Rule.ByDayKeepsRest | parse.go:435 | `BYDAY=d;rest` reads as d followed by rest, every `;` removed |
| Rule.WeekStartSelected | parse.go:71 | `BYDAY=d;WKST=w` selects the week-start day w as well |
| Rule.MonthFilterIsLoose | parse.go:475 | in January the filters "11" and "12" both match, since "1" is a substring |
| Rule.DailyAdvance | parse.go:440-441 | a `DAILY` step moves the cursor by the interval in days |
| Rule.WeeklyIgnoresInterval | parse.go:442-443 | a `WEEKLY` step is always 7 days |
| Rule.MonthlyAdvance | parse.go:444-445 | a `MONTHLY` step keeps the time of day and moves the date `interval` months on, carried into the year; a day up to the 28th stays the same day |
| Rule.YearlyAdvance | parse.go:446-447 | a `YEARLY` step keeps the time of day, month and day, `interval` years on; only 29 February in a common target year runs on to 1 March |
| Rule.MonthEndRunsOn | parse.go:491 | 31 January plus one `MONTHLY` step is 2 March in a leap year and 3 March otherwise, as `time.Date` normalises |
| Rule.OtherFrequencyStalls | parse.go:439-448 | any other frequency leaves the cursor where it is |
| Rule.AdvanceKeepsClock | parse.go:491 | every step keeps the time of day |
| Fields.FieldRead | parse.go:509-511 | a block whose first `TAG` line is `TAG value` then a line end reads as that value |
| Fields.FieldAbsent | parse.go:509-511 | a block without the tag reads as empty |
| Fields.EventIdKeepsTag | parse.go:521-523 | the id strips `DSTAMP:`, not `UID:`, so `UID:v` reads as `UID:v` |
| Fields.StampOrZero | parse.go:534-538 | a decodable creation or modification stamp gives its instant, any other the zero instant |
| Fields.SequenceRead | parse.go:529-532 | a `SEQUENCE` line at the start of the block is read by `strconv.Atoi` |
| Fields.CreatedRead | parse.go:534-538 | a `CREATED` line at the start of the block gives its stamp, or the zero instant |
| Fields.ModifiedRead | parse.go:540-544 | a `LAST-MODIFIED` line at the start of the block gives its stamp, or the zero instant |
| Fields.FirstFoldJoined | parse.go:703 | the first carriage return and the first line feed plus space are removed, joining one continuation |
| Fields.FoldedAll | parse.go:697 | empty exactly when no match is left; the first is the leftmost match; every match starts with the tag and ends with a line feed |
| Fields.FoldedAt | parse.go:56-57 | a match exactly when the tag, then `:` or `;`, then a line feed follow; it runs through that line feed and every continuation line after it |
| Fields.ContinuedTo | parse.go:56-57 | only whole lines that start with white space are taken, and the text after them does not start another such line |
| Fields.FoldedScan | parse.go:56-57 | the match found is a match and no index before it starts one; none found means none is left |
| Fields.FoldedFirst | parse.go:713 | the first folded property is empty exactly when there is none, and otherwise the first of all of them |
| Fields.KeptAttendees | parse.go:699-707 | every kept attendee has a mail or a name, and there are no more than matches |
| Fields.KeptAttendeesComplete | parse.go:704-705 | every match that parses to an attendee with a mail or name is kept |
| Fields.KeptAttendeesSound | parse.go:699-707 | every kept attendee is the parse of some match |
| Fields.ParseEventAttendees | parse.go:695-710 | the loop keeps exactly the attendees `KeptAttendees` gives, in order |
| Fields.ParseOrganizer | parse.go:712-723 | no match gives the empty attendee; an organizer never has role, status or type |
| Fields.OrganizerRead | parse.go:712-723 | an unfolded first line `ORGANIZER;CN=name:mailto:address` ended by `\r\n` gives that address and name and nothing else |
| Fields.OrganizerMail | parse.go:735-737 | the mail of an organizer line is the address after its `mailto:` |
| Fields.OrganizerName | parse.go:751-753 | the name of an organizer line is the text between `CN=` and the next `:` |
| Fields.BlockAt | parse.go:30 | a block starts exactly where `BEGIN:VEVENT` occurs and a later line start holds `END:VEVENT`; it ends after the first such line and its line end |
| Fields.EndLine | parse.go:30 | the line found holds `END:VEVENT` at a line start, and no line start before it does |
| Fields.BlockScan | parse.go:30 | the block found is a block and no index before it starts one; none found means none is left |
| Fields.Explode | parse.go:302-303 | there is one more gap than blocks, and every block starts with `BEGIN:VEVENT` and ends with a line feed |
| Fields.ExplodeGaps | parse.go:302-303 | no gap, read on its own, holds a block: every block of the text was taken out |
| Fields.BlockAtSlice | parse.go:302-303 | a block found in a slice of the text is found at the same place in the whole text, with the same end |
| Fields.ExplodeWeave | parse.go:301-305 | interleaving the gaps and blocks gives back the document |
| Fields.NoBlocksWithoutBegin | parse.go:301-305 | a document without `BEGIN:VEVENT` has no blocks, and its header is the whole document |
| Fields.CalendarNameRead | parse.go:307-309 | an `X-WR-CALNAME` line at the start of the header gives the calendar's name |
| Fields.CalendarDescriptionRead | parse.go:311-313 | an `X-WR-CALDESC` line at the start of the header gives the calendar's description |
| Fields.CalendarTimezone | parse.go:320-328 | the `X-WR-TIMEZONE` name's zone when it loads, else the local zone |
| Fields.NoTimezoneLineIsUtc | parse.go:320-328 | a header without `X-WR-TIMEZONE` gives UTC, because the empty name loads as UTC |
| Events.StampDiagnostics | parse.go:358-367 | a timestamp traces one diagnostic exactly when its error is an unmapped or compatibility zone |
| Events.ZoneOr | parse.go:380-386 | a timestamp without a zone takes the calendar's |
| Events.EndOr | parse.go:388-390 | a set end is kept; a zero end becomes 23:59:59 of the start day, not before the start |
| Events.Decide | parse.go:358-416 | the block fails exactly when `DTSTART` or `DTEND` has a non-zone error or a failed load, an exclusion zone fails, or the recurrence id has any error; at most two diagnostics |
| Events.ReadEventBlock | parse.go:355-425 | the per-block statements give exactly the reading `ReadEvent` specifies |
| Events.FinishEvent | parse.go:408-425 | past both timestamps, the statements give the reading `ReadEvent` specifies |
| Events.TraceStamps | parse.go:358-378 | a fatal `DTSTART` error ends the block with no diagnostics; otherwise a fatal `DTEND` error ends it with the start's diagnostic; with neither, both tolerated diagnostics are traced in order |
| Events.ZoneFallsBack | parse.go:380-386 | each end's zone is its own when it has one, else the calendar's |
| Events.MissingEndIsEndOfDay | parse.go:388-397 | without an end the event ends at 23:59:59 of its start day, not before its start, and is not whole-day |
| Events.NoEndLine | parse.go:563-565 | a block without a `DTEND` line has a zero end |
| Events.WholeDayIffMidnight | parse.go:397 | whole-day exactly when both ends fall at midnight; the start and any set end are kept |
| Events.DiagnosticsOfEnds | parse.go:358-378 | a read event traces the start's diagnostic, then the end's |
| Events.ZoneErrorFatalOnlyOnLoadFailure | parse.go:360-366 | a zone error is fatal exactly when it is a load failure |
| Expansion.PlanOf | parse.go:426-432 | the loop reads the event, its exclusions, its duration as `end.Sub(start)` saturates it, and count and until decoded from its rule |
| Expansion.Expand | parse.go:453-499 | a finished run ends in a state where the exit test holds |
| Expansion.ExpandStep | parse.go:491-498 | the loop exits after a round exactly when the exit test holds, and otherwise runs on |
| Expansion.CommitBookkeeping | parse.go:455-472 | a commit adds one to `current` and takes one from `count` whatever happens; an excluded instant goes to the excluded list only; any other goes live exactly when `until` is zero or not before it, and otherwise nowhere |
| Expansion.OccurrenceShape | parse.go:458-461 | an occurrence starts at the committed day, is numbered with the new `current`, lasts the saturated base duration, which is the base length whenever it fits, and is otherwise the base |
| Expansion.CommitSound | parse.go:455-472 | a commit away from the base start keeps the expansion invariant: lists only grow, appended occurrences are well formed and rising in number, no more appended than committed |
| Expansion.NextSound | parse.go:475-491 | every round keeps that invariant |
| Expansion.ExpandSound | parse.go:453-499 | a finished run keeps it: every live occurrence is unexcluded, within `until` and not at the base start; every excluded one is at an exclusion |
| Expansion.ScanCommits | parse.go:477-483 | the seven-day scan commits at most 7 times and keeps `current + count` and the cursor |
| Expansion.RoundCommits | parse.go:475-491 | a round commits at most 7 times, at most once without `BYDAY` |
| Expansion.ExpandCap | parse.go:492-494 | a run that starts within the cap ends with at most `maxRepeats + 7` commits |
| Expansion.ExpandCapWithoutByDay | parse.go:484-494 | without `BYDAY` at most `maxRepeats + 1` commits, and `count` never goes below zero |
| Expansion.CommitsWithoutByDay | parse.go:484-494 | without `BYDAY`, from the start, commits are at most the rule's count and at most `maxRepeats + 1` |
| Expansion.PastUntilUsesSlot | parse.go:470-472 | an occurrence after `until` is dropped but still uses a slot |
| Expansion.ZeroStepNeverStops | parse.go:437-499 | with a zero step and no `BYDAY`, a run from the base start that has not stopped never stops |
| Expansion.Expander.constructor | parse.go:450-451 | `current` is 0, the cursor is the start, `count` comes from the rule |
| Expansion.Expander.Commit | parse.go:455-473 | the closure's statements give the state `CommitOne` specifies |
| Expansion.Expander.Round | parse.go:475-489 | the month filter and the scan or single commit give the state `RoundOf` specifies, with the cursor unmoved |
| Expansion.Expander.Turn | parse.go:475-491 | a round and the cursor step give the state `Next` specifies |
| Expansion.Expander.ScanDays | parse.go:477-483 | the seven-day loop gives the state `ScanWeek` specifies |
| Expansion.Expander.Run | parse.go:453-499 | the loop finishes within the fuel exactly when `Expand` does, and then in its final state |
| Post.Diff | parse.go:339-351 | the nested loops give exactly the elements `Keep` keeps, in order |
| Post.KeepMembers | parse.go:339-351 | a value is kept exactly when it is in the first list and equal to nothing in the second |
| Post.KeepAppend | parse.go:342-349 | filtering a concatenation filters each part in turn, so order is kept |
| Post.KeepNothing | parse.go:339-351 | subtracting nothing gives the list back |
| Post.FindDuplicate | parse.go:330-337 | found exactly when some event is equal; then the index of the first equal one; otherwise index 0 |
| Post.SortBySorted | parse.go:503 | the sort orders the events by start |
| Post.SortByPermutes | parse.go:503 | the sort keeps every event as often as it occurs |
| Post.KeepSorted | parse.go:504 | subtracting from a sorted list keeps it sorted, and keeps only its own elements |
| Calendars.AbsorbGrows | parse.go:355-427 | a turn appends its diagnostics; a read event is appended before its occurrences; a failure leaves the events and ends the loop with that failure |
| Calendars.GrowOccurrences | parse.go:427-499 | everything appended after the event is a copy of it moved off its start and off every exclusion, lasting `end.Sub(start)` of the event; every excluded occurrence is at an exclusion and keeps the event's id |
| Calendars.AbsorbWithoutRepeats | parse.go:427-429 | with `maxRepeats <= 0` a read event is appended and nothing else changes |
| Calendars.GatherGrows | parse.go:355-501 | the loop only appends to the events, the excluded list and the diagnostics |
| Calendars.GatherComplete | parse.go:355-416 | a complete loop read every block without failure |
| Calendars.GatherFailed | parse.go:355-416 | a failed loop stopped at a block with that failure, and every earlier block read without failure |
| Calendars.GatherWithoutRepeats | parse.go:427-429 | with `maxRepeats <= 0` and no failure, the events are exactly the read events in block order, nothing excluded |
| Calendars.GatherDiagnostics | parse.go:358-378 | a complete loop traces every block's diagnostics, in block order |
| Calendars.GatherKeepsEvents | parse.go:427 | after a complete loop every block's event is among the events |
| Calendars.FinalAvoidsExcluded | parse.go:503-504 | every final event comes from the reconciled sorted list and is equal to no excluded occurrence |
| Calendars.FinalSorted | parse.go:503-504 | when reconciliation keeps the sorted list, the final events are sorted by start and all come from the loop |
| Calendars.FinalAfterFailure | parse.go:409-416 | after a failure the calendar keeps the events appended so far, unsorted |
| Calendars.NoEventsWithoutBegin | parse.go:278-305 | a document without `BEGIN:VEVENT` is all header and the loop leaves everything empty |
| Calendars.Calendar.constructor | parse.go:279-285 | the header fields are set, with no events and no diagnostics |
| Calendars.Calendar.Take | parse.go:358-429 | one loop turn leaves the state `Absorb` specifies and keeps the header |
| Calendars.Calendar.Turn | parse.go:355-500 | one iteration of the loop takes `Gather` one block further and keeps the header |
| Calendars.Calendar.GrowEvent | parse.go:427-500 | appending the event and running the `Expander` leaves the state `Grow` specifies |
| Calendars.Calendar.ReadAt | parse.go:355-425 | reads a block with the calendar's zone as `Readings` specifies |
| Calendars.Calendar.Settle | parse.go:503-504 | the events become the sorted, reconciled list minus the excluded ones; diagnostics and header unchanged |
| Calendars.Calendar.ParseEvents | parse.go:353-507 | status, diagnostics and events are those of the `Gather` loop over the blocks and its `Final` list; header unchanged |
| Calendars.ParseICalContent | parse.go:278-299 | the header fields come from the text outside the blocks, the zone from `X-WR-TIMEZONE` or the local zone, and the events, diagnostics and status from `parseEvents` on the blocks |

## Left out

- `ParseCalendar` and `getICal` (file and network reading, the raw-document writer) are input and output, so they are not modelled. `ParseICalContent` takes the document text.
- The real zone database and daylight saving are left out. A zone is a name with a fixed offset, `time.LoadLocation` is a map parameter, and `time.Local` is the parameter `local`.
- `convertDatesToUTC` is left out. `.UTC()` changes only the presentation zone of an instant, and instants here are absolute.
- `parseICalVersion` is left out, because `strconv.ParseFloat` is floating point.
- `TraceErrFunc` is left out. Diagnostics are collected in order instead. Its boolean result is ignored by the Go code, and the calendar URL in its messages is not kept.
- `Event.Equals`, `ExcludeRecurrences` and `Event.Clone` are defined outside `parse.go`. Equality is the parameter `eq`, reconciliation is the parameter `reconcile`, and a clone is the record with three fields replaced.
- `trimField` is defined outside `parse.go`. It is modelled as removing every occurrence of its literal alternatives, then trimming trailing carriage returns and line feeds.
- `parseDayNameToIcsName` is defined outside `parse.go`. It is modelled as the two-letter code table MO to SU.
- `time.Parse` with the `icsFormat` layout is modelled by a fixed-width `YYYYMMDDTHHMMSSZ` decoder. Go's acceptance of other widths is not modelled; such stamps are refused, with the consequences given on the Civil.DecodeStamp line below.
- Most of the Windows zone table is left out. It is data; ten entries are kept.
- Expansion.Expand: the Go loop has no bound, so the model runs it for at most `fuel` rounds. A run that has not stopped by then ends the parse with the model-only status `Unfinished`.
- Post.SortBy: Go's `sort.Sort` is modelled by an insertion sort. Only sortedness and permutation are claimed, since the Go sort's order of equal starts is unspecified.
- Calendars.FinalSorted: the final list is claimed sorted only when `reconcile` keeps the sorted list as it is, since `ExcludeRecurrences` is not part of this model.
- Civil.DecodeStamp: `time.Parse`'s acceptance of fractional seconds (`...T100000.5Z`) is not modelled. Such stamps are refused, so DTSTART, DTEND and RECURRENCE-ID fail fatally, CREATED and UNTIL read as the zero time, and EXDATE skips the piece. Instants are whole seconds throughout, so the nanoseconds `parseExcludedDates` keeps are always 0 here.
- Expansion.PlanOf: the duration is saturated in whole seconds. Go's bounds are 9223372036.854775807 s and -9223372036.854775808 s; the model saturates at 9223372036 s and -9223372036 s, so the fraction beyond the last whole second is dropped at either end. This only matters for events more than about 292 years long.
- Civil.AddDate: Go's `time.Date` works on 64-bit integers and wraps around when the day count overflows, for example with `INTERVAL=9223372036854775807` and `FREQ=DAILY`. The model adds exactly, so for such a rule the cursor and the `UNTIL` exit test can differ from Go's.
- Dates.ReadToken: in Go, a `TZID` qualifier without `=` (`DTSTART;TZID:...`) makes `strings.Split(dataTz, "=")[1]` index past the end, which panics. The model returns the error `MissingTzidValue` instead, which `parseEvents` treats as fatal, so the calendar keeps the events read so far where the Go program would crash.
- Timezone.LoadLocation: Go's `time.LoadLocation("Local")` returns `time.Local`. The model loads "Local" only when the zone database holds it, and otherwise falls back to UTC with an unmapped-zone diagnostic.
