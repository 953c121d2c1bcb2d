/**
 * Instants and the civil-calendar arithmetic of Go's `time` package, for
 * the one location every instant of the reader lives in: `time.Parse` of a
 * layout ending in a literal `Z` yields UTC, so start, end, cursor and
 * `UNTIL` are all UTC wall clocks.
 *
 * An instant is a whole number of seconds since 0001-01-01T00:00:00 UTC,
 * so Go's zero `time.Time` is the instant 0.
 */
module Civil {
  import opened Wrappers
  import opened Text

  type Instant = int

  const DaySeconds: int := 86400

  /** `time.Time.IsZero`. */
  predicate IsZero(t: Instant) { t == 0 }

  datatype Date = Date(year: int, month: int, day: int)

  predicate IsLeap(y: int) { y % 4 == 0 && (y % 100 != 0 || y % 400 == 0) }

  function DaysIn(y: int, m: int): int
    requires 1 <= m <= 12
  {
    if m == 2 then (if IsLeap(y) then 29 else 28)
    else if m == 4 || m == 6 || m == 9 || m == 11 then 30
    else 31
  }

  /**
   * Days from 0001-01-01 to the given proleptic Gregorian date. The day is
   * not range-checked: a day past the end of the month runs on into the
   * next, as `time.Date` normalises it.
   */
  function DaysFromCivil(y: int, m: int, d: int): int
    requires 1 <= m <= 12
  {
    // Years start on 1 March, so that the leap day is the last day of a year.
    var y' := if m <= 2 then y - 1 else y;
    var yoe := y' % 400;
    var mp := if m > 2 then m - 3 else m + 9;
    (y' / 400) * 146097 + yoe * 365 + yoe / 4 - yoe / 100 + (153 * mp + 2) / 5 + d - 1 - 306
  }

  /** The day has no bearing on the start of its month: `DaysFromCivil` is linear in it. */
  lemma DaysFromCivilLinear(y: int, m: int, d: int, n: int)
    requires 1 <= m <= 12
    ensures DaysFromCivil(y, m, d + n) == DaysFromCivil(y, m, d) + n
  {
  }

  /** Splits a day of a 400-year era into the year of the era and the day of that year. */
  function YearOfEra(doe: int): (r: (int, int))
    requires 0 <= doe < 146097
    ensures 0 <= r.0 < 400 && 0 <= r.1 <= 365
    ensures r.0 * 365 + r.0 / 4 - r.0 / 100 + r.1 == doe
    ensures r.1 == 365 ==> (r.0 + 1) % 4 == 0 && ((r.0 + 1) % 100 != 0 || r.0 == 399)
  {
    var c := if doe / 36524 == 4 then 3 else doe / 36524;
    assert 0 <= c <= 3;
    var r1 := doe - 36524 * c;
    var q := r1 / 1461;
    assert 0 <= q <= 24;
    var r2 := r1 - 1461 * q;
    var a := if r2 / 365 == 4 then 3 else r2 / 365;
    assert 0 <= a <= 3;
    var yoe := 100 * c + 4 * q + a;
    assert yoe / 4 == 25 * c + q;
    assert yoe / 100 == c;
    (yoe, r2 - 365 * a)
  }

  /** The month (March-based, 0..11) of a day of a March-based year. */
  lemma MonthOfYear(doy: int)
    requires 0 <= doy <= 365
    ensures var mp := (5 * doy + 2) / 153;
      0 <= mp <= 11 && 0 <= doy - (153 * mp + 2) / 5 <= 30
  {
  }

  /** The civil date of a day number. */
  function CivilFromDays(n: int): (r: Date)
    ensures 1 <= r.month <= 12 && 1 <= r.day <= 31
  {
    var z := n + 306;
    var e := YearOfEra(z % 146097);
    MonthOfYear(e.1);
    var mp := (5 * e.1 + 2) / 153;
    var m := if mp < 10 then mp + 3 else mp - 9;
    var y := (z / 146097) * 400 + e.0;
    Date(if m <= 2 then y + 1 else y, m, e.1 - (153 * mp + 2) / 5 + 1)
  }

  lemma YearSplit(era: int, yoe: int)
    requires 0 <= yoe < 400
    ensures (era * 400 + yoe) % 400 == yoe && (era * 400 + yoe) / 400 == era
  {
  }

  /** `DaysFromCivil` for a year already split into its 400-year era and the year of that era. */
  lemma DaysFromCivilSplit(y: int, m: int, d: int, era: int, yoe: int)
    requires 1 <= m <= 12 && 0 <= yoe < 400
    requires (if m <= 2 then y - 1 else y) == era * 400 + yoe
    ensures DaysFromCivil(y, m, d)
      == era * 146097 + yoe * 365 + yoe / 4 - yoe / 100 + (153 * (if m > 2 then m - 3 else m + 9) + 2) / 5 + d - 1 - 306
  {
    YearSplit(era, yoe);
  }

  /** The month and day `CivilFromDays` picks for a day of a March-based year lead back to that day. */
  lemma MarchDayInverse(doy: int)
    requires 0 <= doy <= 365
    ensures var mp := (5 * doy + 2) / 153;
      var m := if mp < 10 then mp + 3 else mp - 9;
      (153 * (if m > 2 then m - 3 else m + 9) + 2) / 5 + (doy - (153 * mp + 2) / 5 + 1) - 1 == doy
  {
    MonthOfYear(doy);
  }

  /** The fields of `CivilFromDays(n)` in terms of the era, the year of the era and the day of the year. */
  lemma CivilFromDaysFields(n: int)
    ensures var z := n + 306;
      var e := YearOfEra(z % 146097);
      var mp := (5 * e.1 + 2) / 153;
      var r := CivilFromDays(n);
      r.month == (if mp < 10 then mp + 3 else mp - 9)
      && r.day == e.1 - (153 * mp + 2) / 5 + 1
      && (if r.month <= 2 then r.year - 1 else r.year) == (z / 146097) * 400 + e.0
  {
  }

  /** `CivilFromDays` names a date that `DaysFromCivil` takes back to the same day. */
  lemma {:induction false} CivilFromDaysInverse(n: int)
    ensures var r := CivilFromDays(n); DaysFromCivil(r.year, r.month, r.day) == n
  {
    var z := n + 306;
    var era := z / 146097;
    var doe := z % 146097;
    var e := YearOfEra(doe);
    var yoe, doy := e.0, e.1;
    assert yoe * 365 + yoe / 4 - yoe / 100 + doy == doe;
    MarchDayInverse(doy);
    CivilFromDaysFields(n);
    var r := CivilFromDays(n);
    DaysFromCivilSplit(r.year, r.month, r.day, era, yoe);
  }

  /** A date whose day is a day of its month. */
  predicate ValidDate(y: int, m: int, d: int) {
    1 <= m <= 12 && 1 <= d <= DaysIn(y, m)
  }

  /** `CivilFromDays` takes the day number of a date back to that date. */
  lemma {:induction false} DaysFromCivilInverse(y: int, m: int, d: int)
    requires ValidDate(y, m, d)
    ensures CivilFromDays(DaysFromCivil(y, m, d)) == Date(y, m, d)
  {
    var y' := if m <= 2 then y - 1 else y;
    var era, yoe := y' / 400, y' % 400;
    var mp := if m > 2 then m - 3 else m + 9;
    var doy := (153 * mp + 2) / 5 + d - 1;
    MarchDay(y, m, d, era, yoe);
    var doe := yoe * 365 + yoe / 4 - yoe / 100 + doy;
    var n := DaysFromCivil(y, m, d);
    assert n + 306 == era * 146097 + doe by {
      DaysFromCivilSplit(y, m, d, era, yoe);
    }
    assert (n + 306) / 146097 == era && YearOfEra((n + 306) % 146097) == (yoe, doy) by {
      YearOfEraOf(yoe, doy);
      EraSplit(era, doe);
    }
    assert y' == era * 400 + yoe;
    CivilFromDaysOf(n, era, yoe, doy, mp, m);
  }

  /** `CivilFromDays` once the era, the year of the era, the day of the year and its month are known. */
  lemma CivilFromDaysOf(n: int, era: int, yoe: int, doy: int, mp: int, m: int)
    requires (n + 306) / 146097 == era && YearOfEra((n + 306) % 146097) == (yoe, doy)
    requires (5 * doy + 2) / 153 == mp && m == (if mp < 10 then mp + 3 else mp - 9)
    ensures CivilFromDays(n) == Date(if m <= 2 then era * 400 + yoe + 1 else era * 400 + yoe, m, doy - (153 * mp + 2) / 5 + 1)
  {
    CivilFromDaysFields(n);
  }

  /** The day of the March-based year a date falls on, and its month back from it. */
  lemma MarchDay(y: int, m: int, d: int, era: int, yoe: int)
    requires ValidDate(y, m, d)
    requires (if m <= 2 then y - 1 else y) == era * 400 + yoe && 0 <= yoe < 400
    ensures var mp := if m > 2 then m - 3 else m + 9;
      var doy := (153 * mp + 2) / 5 + d - 1;
      0 <= doy <= 365 && (5 * doy + 2) / 153 == mp
      && (doy == 365 ==> (yoe + 1) % 4 == 0 && ((yoe + 1) % 100 != 0 || yoe == 399))
  {
    if m == 2 && d == 29 {
      LeapOfEra(era, yoe);
    }
  }

  /** Whether the year after `era * 400 + yoe` is a leap year depends on `yoe` alone. */
  lemma LeapOfEra(era: int, yoe: int)
    requires 0 <= yoe < 400
    ensures IsLeap(era * 400 + yoe + 1) <==> (yoe + 1) % 4 == 0 && ((yoe + 1) % 100 != 0 || yoe == 399)
  {
    var y := era * 400 + yoe + 1;
    ModBlock(era * 100, 4, yoe + 1);
    ModBlock(era * 4, 100, yoe + 1);
    ModBlock(era, 400, yoe + 1);
    assert y == (era * 100) * 4 + (yoe + 1) && y == (era * 4) * 100 + (yoe + 1);
  }

  /** `YearOfEra` splits a day of an era back into the year and the day it was made of. */
  lemma YearOfEraOf(yoe: int, doy: int)
    requires 0 <= yoe < 400 && 0 <= doy <= 365
    requires doy == 365 ==> (yoe + 1) % 4 == 0 && ((yoe + 1) % 100 != 0 || yoe == 399)
    ensures 0 <= yoe * 365 + yoe / 4 - yoe / 100 + doy < 146097
    ensures YearOfEra(yoe * 365 + yoe / 4 - yoe / 100 + doy) == (yoe, doy)
  {
    var c, q, a := EraDigits(yoe, doy);
    YearOfEraAt(c, q, a, doy, yoe * 365 + yoe / 4 - yoe / 100 + doy);
  }

  /** `YearOfEra` of a day given as centuries, four-year cycles, years and a day of the year. */
  lemma YearOfEraAt(c: int, q: int, a: int, doy: int, doe: int)
    requires 0 <= c < 4 && 0 <= q < 25 && 0 <= a < 4 && 0 <= doy <= 365
    requires doy == 365 ==> a == 3 && (q != 24 || c == 3)
    requires doe == 36524 * c + (1461 * q + 365 * a + doy)
    ensures 0 <= doe < 146097 && YearOfEra(doe) == (100 * c + 4 * q + a, doy)
  {
    CenturyOf(c, q, a, doy);
    DivBlock(q, 1461, 365 * a + doy);
    assert (doe - 36524 * c) / 1461 == q;
    YearOfCycle(a, doy);
    YearOfEraSteps(doe, c, q, 365 * a + doy, a);
  }

  /** `YearOfEra` spelt out through its century, four-year cycle and year. */
  lemma YearOfEraSteps(doe: int, c: int, q: int, r2: int, a: int)
    requires 0 <= doe < 146097
    requires c == (if doe / 36524 == 4 then 3 else doe / 36524)
    requires q == (doe - 36524 * c) / 1461 && r2 == doe - 36524 * c - 1461 * q
    requires a == (if r2 / 365 == 4 then 3 else r2 / 365)
    ensures YearOfEra(doe) == (100 * c + 4 * q + a, r2 - 365 * a)
  {
  }

  /** A year of an era as centuries, four-year cycles and years, its leap day only in a leap year. */
  lemma EraDigits(yoe: int, doy: int) returns (c: int, q: int, a: int)
    requires 0 <= yoe < 400 && 0 <= doy <= 365
    requires doy == 365 ==> (yoe + 1) % 4 == 0 && ((yoe + 1) % 100 != 0 || yoe == 399)
    ensures 0 <= c < 4 && 0 <= q < 25 && 0 <= a < 4 && (doy == 365 ==> a == 3 && (q != 24 || c == 3))
    ensures yoe == 100 * c + 4 * q + a
    ensures yoe * 365 + yoe / 4 - yoe / 100 + doy == 36524 * c + (1461 * q + 365 * a + doy)
  {
    c, q, a := yoe / 100, (yoe % 100) / 4, yoe % 4;
    assert yoe / 4 == 25 * c + q;
  }

  /** The century `YearOfEra` picks, the last day of an era counted in the fourth. */
  lemma CenturyOf(c: int, q: int, a: int, doy: int)
    requires 0 <= c < 4 && 0 <= q < 25 && 0 <= a < 4 && 0 <= doy <= 365
    requires doy == 365 ==> a == 3 && (q != 24 || c == 3)
    ensures var doe := 36524 * c + (1461 * q + 365 * a + doy);
      (if doe / 36524 == 4 then 3 else doe / 36524) == c
  {
    var r1 := 1461 * q + 365 * a + doy;
    if r1 < 36524 {
      DivBlock(c, 36524, r1);
    }
  }

  /** The year of a four-year cycle `YearOfEra` picks, the leap day counted in the fourth. */
  lemma YearOfCycle(a: int, doy: int)
    requires 0 <= a < 4 && 0 <= doy <= 365
    requires doy == 365 ==> a == 3
    ensures var r2 := 365 * a + doy;
      (if r2 / 365 == 4 then 3 else r2 / 365) == a
  {
    if doy < 365 {
      DivBlock(a, 365, doy);
    }
  }

  /** Division by a block size undoes whole blocks plus a remainder. */
  lemma DivBlock(k: int, b: int, r: int)
    requires 0 <= r < b
    ensures (k * b + r) / b == k
  {
    var q, rem := (k * b + r) / b, (k * b + r) % b;
    assert (k - q) * b == rem - r;
    MulSign(k - q, b);
  }

  lemma MulSign(x: int, b: int)
    requires b > 0
    ensures x >= 1 ==> x * b >= b
    ensures x <= -1 ==> x * b <= -b
  {
  }

  /** Whole blocks leave a remainder unchanged. */
  lemma ModBlock(k: int, b: int, r: int)
    requires b > 0
    ensures (k * b + r) % b == r % b
  {
    var q := r / b;
    DivBlock(k + q, b, r % b);
    assert k * b + r == (k + q) * b + r % b;
  }

  /** A day of an era after whole eras splits back into the two. */
  lemma EraSplit(era: int, doe: int)
    requires 0 <= doe < 146097
    ensures (era * 146097 + doe) / 146097 == era && (era * 146097 + doe) % 146097 == doe
  {
  }

  /** `CivilFromDays` names a day its month has. */
  lemma {:induction false} CivilFromDaysValid(n: int)
    ensures var r := CivilFromDays(n); ValidDate(r.year, r.month, r.day)
  {
    var z := n + 306;
    var era := z / 146097;
    var e := YearOfEra(z % 146097);
    var yoe, doy := e.0, e.1;
    var mp := (5 * doy + 2) / 153;
    MonthOfYear(doy);
    CivilFromDaysFields(n);
    var r := CivilFromDays(n);
    MonthLength(doy);
    if r.month == 2 {
      assert r.year == era * 400 + yoe + 1;
      LeapOfEra(era, yoe);
    }
  }

  /** The day of a March-based month is within that month's length; February has a 29th only on day 365. */
  lemma MonthLength(doy: int)
    requires 0 <= doy <= 365
    ensures var mp := (5 * doy + 2) / 153;
      var m := if mp < 10 then mp + 3 else mp - 9;
      var day := doy - (153 * mp + 2) / 5 + 1;
      1 <= day && (m != 2 ==> day <= DaysIn(1, m)) && (m == 2 ==> day <= 28 || doy == 365)
  {
    MonthOfYear(doy);
  }

  /** The day an instant falls on. */
  function DayNumber(t: Instant): int { t / DaySeconds }

  /** Seconds since midnight: `t.Hour()*3600 + t.Minute()*60 + t.Second()`. */
  function Clock(t: Instant): (r: int)
    ensures 0 <= r < DaySeconds && t == DayNumber(t) * DaySeconds + r
  {
    t % DaySeconds
  }

  function DateOf(t: Instant): Date { CivilFromDays(DayNumber(t)) }

  /** `t.Month()`, 1..12. */
  function Month(t: Instant): (m: int)
    ensures 1 <= m <= 12
  {
    DateOf(t).month
  }

  /** `t.Weekday()` counted from Monday: 0 is Monday, 6 is Sunday (0001-01-01 was a Monday). */
  function Weekday(t: Instant): (w: int)
    ensures 0 <= w < 7
  {
    DayNumber(t) % 7
  }

  /** `time.Date(y, m, d, hh, mm, ss, 0, time.UTC)` for a month in range. */
  function FromCivil(y: int, m: int, d: int, hh: int, mm: int, ss: int): Instant
    requires 1 <= m <= 12
  {
    DaysFromCivil(y, m, d) * DaySeconds + hh * 3600 + mm * 60 + ss
  }

  /**
   * `t.AddDate(years, months, days)`: add to the civil fields, then let
   * `time.Date` normalise; a month out of 1..12 carries into the year and
   * a day past the month's end runs into the next month.
   */
  function AddDate(t: Instant, years: int, months: int, days: int): Instant {
    var dt := DateOf(t);
    var m0 := dt.month - 1 + months;
    DaysFromCivil(dt.year + years + m0 / 12, m0 % 12 + 1, dt.day + days) * DaySeconds + Clock(t)
  }

  /** `AddDate` keeps the time of day. */
  lemma AddDateKeepsClock(t: Instant, years: int, months: int, days: int)
    ensures Clock(AddDate(t, years, months, days)) == Clock(t)
  {
    var dt := DateOf(t);
    var m0 := dt.month - 1 + months;
    var n := DaysFromCivil(dt.year + years + m0 / 12, m0 % 12 + 1, dt.day + days);
    assert AddDate(t, years, months, days) == n * DaySeconds + Clock(t);
    ClockOfDay(n, Clock(t));
  }

  lemma ClockOfDay(n: int, c: int)
    requires 0 <= c < DaySeconds
    ensures Clock(n * DaySeconds + c) == c
  {
  }

  /** Adding only days moves an instant by whole days: `AddDate(0, 0, n)` is `n * 24h` later. */
  lemma {:induction false} AddDaysShift(t: Instant, n: int)
    ensures AddDate(t, 0, 0, n) == t + n * DaySeconds
  {
    var dt := DateOf(t);
    var day := DayNumber(t);
    AddDateOnlyDays(t, n);
    CivilFromDaysInverse(day);
    DaysFromCivilLinear(dt.year, dt.month, dt.day, n);
    var c := Clock(t);
    assert DaysFromCivil(dt.year, dt.month, dt.day + n) == day + n;
    assert t == day * 86400 + c;
  }

  /** With no years and no months, `AddDate` leaves the month where it is. */
  lemma AddDateOnlyDays(t: Instant, n: int)
    ensures var dt := DateOf(t);
      AddDate(t, 0, 0, n) == DaysFromCivil(dt.year, dt.month, dt.day + n) * 86400 + Clock(t)
  {
    var dt := DateOf(t);
    var m0 := dt.month - 1;
    assert m0 / 12 == 0 && m0 % 12 + 1 == dt.month;
  }

  /**
   * `AddDate` by whole years and months keeps the time of day and lands on
   * the same day of the target month, or, when that month is too short,
   * runs on past its end into the following month, as `time.Date`
   * normalises the day.
   */
  lemma {:induction false} AddMonthsDate(t: Instant, years: int, months: int)
    ensures Clock(AddDate(t, years, months, 0)) == Clock(t)
    ensures DateOf(AddDate(t, years, months, 0)) == MonthsLater(DateOf(t), years, months)
  {
    var dt, c := DateOf(t), Clock(t);
    var m0 := dt.month - 1 + months;
    var ty, tm := dt.year + years + m0 / 12, m0 % 12 + 1;
    var n := DaysFromCivil(ty, tm, dt.day);
    var r := AddDate(t, years, months, 0);
    assert r == n * DaySeconds + c by {
      AddDateIs(t, years, months, 0, dt, ty, tm);
    }
    assert MonthsLater(dt, years, months) == RunOn(ty, tm, dt.day) by {
      MonthsLaterIs(dt, years, months, ty, tm);
    }
    DateAt(n, c, ty, tm, dt.day);
  }

  /** `MonthsLater` as the target year and month, the day run on. */
  lemma MonthsLaterIs(dt: Date, years: int, months: int, ty: int, tm: int)
    requires 1 <= dt.month <= 12 && 1 <= dt.day <= 31
    requires ty == dt.year + years + (dt.month - 1 + months) / 12 && tm == (dt.month - 1 + months) % 12 + 1
    ensures MonthsLater(dt, years, months) == RunOn(ty, tm, dt.day)
  {
  }

  /** The instant at second `c` of the day `DaysFromCivil(y, m, d)` is on the date that day runs on to. */
  lemma DateAt(n: int, c: int, y: int, m: int, d: int)
    requires 0 <= c < DaySeconds && 1 <= m <= 12 && 1 <= d <= 31
    requires n == DaysFromCivil(y, m, d)
    ensures Clock(n * DaySeconds + c) == c && DateOf(n * DaySeconds + c) == RunOn(y, m, d)
  {
    DayOfDay(n, c);
    ClockOfDay(n, c);
    DateOfDay(n * DaySeconds + c, y, m, d);
  }

  /** `AddDate` as the day number of the target date plus the time of day. */
  lemma AddDateIs(t: Instant, years: int, months: int, days: int, dt: Date, ty: int, tm: int)
    requires dt == DateOf(t)
    requires ty == dt.year + years + (dt.month - 1 + months) / 12 && tm == (dt.month - 1 + months) % 12 + 1
    ensures AddDate(t, years, months, days) == DaysFromCivil(ty, tm, dt.day + days) * DaySeconds + Clock(t)
  {
  }

  /** The date `years` years and `months` months after `dt`, the month carried into the year and the day run on. */
  function MonthsLater(dt: Date, years: int, months: int): Date
    requires 1 <= dt.month <= 12 && 1 <= dt.day <= 31
  {
    var m0 := dt.month - 1 + months;
    RunOn(dt.year + years + m0 / 12, m0 % 12 + 1, dt.day)
  }

  /** A day every month has stays the same day of the month `MonthsLater`. */
  lemma MonthsLaterSameDay(dt: Date, years: int, months: int)
    requires 1 <= dt.month <= 12 && 1 <= dt.day <= 31
    ensures var m0 := dt.month - 1 + months;
      dt.day <= 28 ==> MonthsLater(dt, years, months) == Date(dt.year + years + m0 / 12, m0 % 12 + 1, dt.day)
  {
    var m0 := dt.month - 1 + months;
    assert DaysIn(dt.year + years + m0 / 12, m0 % 12 + 1) >= 28;
  }

  /** Whole years later a date keeps its month and day, except that 29 February runs on to 1 March. */
  lemma YearsLater(dt: Date, years: int)
    requires ValidDate(dt.year, dt.month, dt.day)
    ensures var y := dt.year + years;
      (dt.day <= DaysIn(y, dt.month) ==> MonthsLater(dt, years, 0) == Date(y, dt.month, dt.day))
      && (dt.day > DaysIn(y, dt.month) ==> MonthsLater(dt, years, 0) == Date(y, 3, 1))
      && (dt.month != 2 || dt.day != 29 ==> MonthsLater(dt, years, 0) == Date(y, dt.month, dt.day))
  {
    assert (dt.month - 1) / 12 == 0 && (dt.month - 1) % 12 + 1 == dt.month;
  }

  /** A month after 31 January, 31 February runs on into March. */
  lemma JanuaryEndMonthLater(y: int)
    ensures MonthsLater(Date(y, 1, 31), 0, 1) == Date(y, 3, if IsLeap(y) then 2 else 3)
  {
    assert MonthsLater(Date(y, 1, 31), 0, 1) == RunOn(y, 2, 31);
  }

  /**
   * The date `time.Date` makes of a day of the month up to 31: that day
   * when the month has it, otherwise the day it runs on to in the next
   * month.
   */
  function RunOn(y: int, m: int, d: int): (r: Date)
    requires 1 <= m <= 12 && 1 <= d <= 31
    ensures ValidDate(r.year, r.month, r.day)
    ensures d <= DaysIn(y, m) ==> r == Date(y, m, d)
  {
    if d <= DaysIn(y, m) then Date(y, m, d)
    else Date(if m == 12 then y + 1 else y, if m == 12 then 1 else m + 1, d - DaysIn(y, m))
  }

  /**
   * The date of the day `DaysFromCivil` gives a day of the month up to 31:
   * that day, or the day it runs on to in the next month.
   */
  lemma DateOfDay(r: Instant, y: int, m: int, d: int)
    requires 1 <= m <= 12 && 1 <= d <= 31
    requires DayNumber(r) == DaysFromCivil(y, m, d)
    ensures DateOf(r) == RunOn(y, m, d)
  {
    if d <= DaysIn(y, m) {
      DaysFromCivilInverse(y, m, d);
    } else {
      var e := d - DaysIn(y, m);
      var ny, nm := if m == 12 then y + 1 else y, if m == 12 then 1 else m + 1;
      MonthRollover(y, m, e);
      assert d == DaysIn(y, m) + e;
      assert RunOn(y, m, d) == Date(ny, nm, e);
      assert DayNumber(r) == DaysFromCivil(ny, nm, e);
      DaysFromCivilInverse(ny, nm, e);
      assert DateOf(r) == CivilFromDays(DaysFromCivil(ny, nm, e));
    }
  }

  lemma DayOfDay(n: int, c: int)
    requires 0 <= c < DaySeconds
    ensures DayNumber(n * DaySeconds + c) == n
  {
  }

  /** Outside February, a month's first day in its March-based year is the one before plus the month's length. */
  lemma MonthStart(y: int, m: int)
    requires 1 <= m <= 12 && m != 2
    ensures var mp := if m > 2 then m - 3 else m + 9;
      (153 * (mp + 1) + 2) / 5 == (153 * mp + 2) / 5 + DaysIn(y, m)
  {
    if m == 1 {
    } else if m == 3 {
    } else if m == 4 {
    } else if m == 5 {
    } else if m == 6 {
    } else if m == 7 {
    } else if m == 8 {
    } else if m == 9 {
    } else if m == 10 {
    } else if m == 11 {
    } else {
    }
  }

  /** A year of an era is 365 days long, one more when it ends in a leap day. */
  lemma YearLength(yoe: int)
    requires 0 <= yoe
    ensures (yoe + 1) * 365 + (yoe + 1) / 4 - (yoe + 1) / 100
      == yoe * 365 + yoe / 4 - yoe / 100 + 365 + (if (yoe + 1) % 4 == 0 then 1 else 0) - (if (yoe + 1) % 100 == 0 then 1 else 0)
  {
    QuotientStep(yoe, 4);
    QuotientStep(yoe, 100);
  }

  /** The quotient by `k` goes up by one exactly at a multiple of `k`. */
  lemma QuotientStep(x: int, k: int)
    requires 0 <= x && 0 < k
    ensures (x + 1) / k == x / k + (if (x + 1) % k == 0 then 1 else 0)
  {
    var q, r := x / k, x % k;
    assert x == q * k + r && 0 <= r < k;
    if r + 1 == k {
      assert x + 1 == (q + 1) * k + 0;
      DivBlock(q + 1, k, 0);
      ModBlock(q + 1, k, 0);
    } else {
      DivBlock(q, k, r + 1);
      ModBlock(q, k, r + 1);
    }
  }

  /** A day past the end of a month is a day of the month after it. */
  lemma MonthRollover(y: int, m: int, d: int)
    requires 1 <= m <= 12
    ensures DaysFromCivil(y, m, DaysIn(y, m) + d)
      == DaysFromCivil(if m == 12 then y + 1 else y, if m == 12 then 1 else m + 1, d)
  {
    if m != 2 {
      var y' := if m <= 2 then y - 1 else y;
      var ny, nm := if m == 12 then y + 1 else y, if m == 12 then 1 else m + 1;
      var era, yoe := y' / 400, y' % 400;
      var mp := if m > 2 then m - 3 else m + 9;
      assert (if nm <= 2 then ny - 1 else ny) == y';
      assert (if nm > 2 then nm - 3 else nm + 9) == mp + 1;
      DaysFromCivilSplit(y, m, DaysIn(y, m) + d, era, yoe);
      DaysFromCivilSplit(ny, nm, d, era, yoe);
      MonthStart(y, m);
      var base := era * 146097 + yoe * 365 + yoe / 4 - yoe / 100;
      assert DaysFromCivil(y, m, DaysIn(y, m) + d) == base + (153 * mp + 2) / 5 + DaysIn(y, m) + d - 1 - 306;
      assert DaysFromCivil(ny, nm, d) == base + (153 * (mp + 1) + 2) / 5 + d - 1 - 306;
    } else {
      FebruaryRollover(y, d);
    }
  }

  /** A day past the end of February is a day of March, leap year or not. */
  lemma FebruaryRollover(y: int, d: int)
    ensures DaysFromCivil(y, 2, DaysIn(y, 2) + d) == DaysFromCivil(y, 3, d)
  {
    var era, yoe := (y - 1) / 400, (y - 1) % 400;
    var leap := if IsLeap(y) then 1 else 0;
    FebruaryEnd(y, d, era, yoe, leap);
    MarchStart(y, d, era, yoe, leap);
  }

  /** The days to a day past the end of February, counted from the start of its March-based year. */
  lemma FebruaryEnd(y: int, d: int, era: int, yoe: int, leap: int)
    requires era == (y - 1) / 400 && yoe == (y - 1) % 400 && leap == (if IsLeap(y) then 1 else 0)
    ensures DaysFromCivil(y, 2, DaysIn(y, 2) + d) == era * 146097 + yoe * 365 + yoe / 4 - yoe / 100 + 337 + 28 + leap + d - 1 - 306
  {
    DaysFromCivilSplit(y, 2, DaysIn(y, 2) + d, era, yoe);
  }

  /** The days to a day of March, counted from the start of the March-based year before it. */
  lemma MarchStart(y: int, d: int, era: int, yoe: int, leap: int)
    requires era == (y - 1) / 400 && yoe == (y - 1) % 400 && leap == (if IsLeap(y) then 1 else 0)
    ensures DaysFromCivil(y, 3, d) == era * 146097 + yoe * 365 + yoe / 4 - yoe / 100 + 365 + leap + d - 1 - 306
  {
    assert y == era * 400 + yoe + 1;
    LeapOfEra(era, yoe);
    if yoe < 399 {
      DaysFromCivilSplit(y, 3, d, era, yoe + 1);
      NextYearStart(yoe, leap);
    } else {
      DaysFromCivilSplit(y, 3, d, era + 1, 0);
    }
  }

  /** Within an era, the next year starts 365 days later, one more after a leap day. */
  lemma NextYearStart(yoe: int, leap: int)
    requires 0 <= yoe < 399
    requires leap == if (yoe + 1) % 4 == 0 && (yoe + 1) % 100 != 0 then 1 else 0
    ensures (yoe + 1) * 365 + (yoe + 1) / 4 - (yoe + 1) / 100 == yoe * 365 + yoe / 4 - yoe / 100 + 365 + leap
  {
    YearLength(yoe);
    CenturyIsLeapCycle(yoe + 1);
  }

  /** A multiple of 100 is a multiple of 4. */
  lemma CenturyIsLeapCycle(x: int)
    ensures x % 100 == 0 ==> x % 4 == 0
  {
    if x % 100 == 0 {
      ModBlock(25 * (x / 100), 4, 0);
      assert x == (25 * (x / 100)) * 4 + 0;
    }
  }


  /** The weekday moves on by one with each day. */
  lemma NextDayWeekday(t: Instant)
    ensures Weekday(AddDate(t, 0, 0, 1)) == (Weekday(t) + 1) % 7
  {
    AddDaysShift(t, 1);
    var d := DayNumber(t);
    NextDay(t);
    WeekStep(d);
  }

  lemma NextDay(t: Instant)
    ensures DayNumber(t + DaySeconds) == DayNumber(t) + 1
  {
    var d := DayNumber(t);
    assert t + DaySeconds == (d + 1) * DaySeconds + Clock(t);
  }

  lemma WeekStep(d: int)
    ensures (d + 1) % 7 == (d % 7 + 1) % 7
  {
  }

  /** The largest `time.Duration`, 2^63 - 1 nanoseconds, in whole seconds. */
  const MaxDuration: int := 9223372036

  /**
   * `end.Sub(start)` in whole seconds: the difference, saturated at the
   * largest and the smallest `time.Duration` when it does not fit. Those
   * bounds are 2^63 - 1 and -2^63 nanoseconds; whole seconds keep
   * 9223372036 of them on either side and drop the fraction.
   */
  function Sub(end: Instant, start: Instant): (d: int)
    ensures -MaxDuration <= d <= MaxDuration
    ensures -MaxDuration <= end - start <= MaxDuration ==> d == end - start
    ensures end - start > MaxDuration ==> d == MaxDuration
    ensures end - start < -MaxDuration ==> d == -MaxDuration
  {
    if end - start > MaxDuration then MaxDuration
    else if end - start < -MaxDuration then -MaxDuration
    else end - start
  }

  /** 23:59:59 on the day of `t`, as `time.Date(t.Year(), t.Month(), t.Day(), 23, 59, 59, 0, loc)`. */
  function EndOfDay(t: Instant): Instant {
    var dt := DateOf(t);
    FromCivil(dt.year, dt.month, dt.day, 23, 59, 59)
  }

  /** The end of the day is on the same day, at 23:59:59, and never before `t`. */
  lemma {:induction false} EndOfDayBounds(t: Instant)
    ensures DayNumber(EndOfDay(t)) == DayNumber(t)
    ensures Clock(EndOfDay(t)) == DaySeconds - 1
    ensures t <= EndOfDay(t)
  {
    CivilFromDaysInverse(DayNumber(t));
    assert EndOfDay(t) == DayNumber(t) * DaySeconds + 86399;
  }

  /** The value of a digit character. */
  function Digit(c: char): int { c as int - '0' as int }

  /** The value of the two digits at `i`. */
  function Two(s: string, i: nat): int
    requires i + 2 <= |s|
  {
    Digit(s[i]) * 10 + Digit(s[i + 1])
  }

  /** The text is `YYYYMMDDTHHMMSSZ` character by character. */
  predicate StampShape(s: string) {
    |s| == 16 && s[8] == 'T' && s[15] == 'Z'
    && forall k :: 0 <= k < 16 && k != 8 && k != 15 ==> IsDigit(s[k])
  }

  /** The fields of a well-shaped stamp name a real date and time of day. */
  predicate StampInRange(s: string)
    requires StampShape(s)
  {
    var year := Two(s, 0) * 100 + Two(s, 2);
    1 <= Two(s, 4) <= 12 && 1 <= Two(s, 6) <= DaysIn(year, Two(s, 4))
    && Two(s, 9) < 24 && Two(s, 11) < 60 && Two(s, 13) < 60
  }

  /**
   * `time.Parse` with the reader's timestamp layout `20060102T150405Z`:
   * fixed-width digits, a literal `T` and a literal `Z`, every field range
   * checked; the instant is read as UTC.
   */
  function DecodeStamp(s: string): (r: Option<Instant>)
    ensures r.Some? <==> StampShape(s) && StampInRange(s)
  {
    if StampShape(s) && StampInRange(s) then
      Some(DaysFromCivil(Two(s, 0) * 100 + Two(s, 2), Two(s, 4), Two(s, 6)) * DaySeconds
           + Two(s, 9) * 3600 + Two(s, 11) * 60 + Two(s, 13))
    else None
  }

  /** A decoded stamp falls on the day its date fields name, at the time its time fields name. */
  lemma DecodeStampFields(s: string)
    requires DecodeStamp(s).Some?
    ensures Clock(DecodeStamp(s).value) == Two(s, 9) * 3600 + Two(s, 11) * 60 + Two(s, 13)
    ensures DayNumber(DecodeStamp(s).value) == DaysFromCivil(Two(s, 0) * 100 + Two(s, 2), Two(s, 4), Two(s, 6))
  {
    var secs := Two(s, 9) * 3600 + Two(s, 11) * 60 + Two(s, 13);
    var days := DaysFromCivil(Two(s, 0) * 100 + Two(s, 2), Two(s, 4), Two(s, 6));
    assert 0 <= secs < DaySeconds;
    assert (days * DaySeconds + secs) / DaySeconds == days;
  }
}
