/** The proleptic Gregorian calendar, POSIX seconds since the Epoch (section 4.16 of POSIX.1-2017
    Base Definitions), and the ISO 8601 date and time-of-day texts the pipeline builds and parses. */
module Calendar {
  import opened Wrappers
  import opened Text

  datatype Date = Date(year: int, month: int, day: int)

  /** A date and a second of that day, the value of a `datetime` cell. */
  datatype DateTime = DateTime(date: Date, second: int)

  const SecondsPerDay: int := 86400

  predicate IsLeapYear(y: int)
  {
    y % 4 == 0 && (y % 100 != 0 || y % 400 == 0)
  }

  function DaysInYear(y: int): int
  {
    if IsLeapYear(y) then 366 else 365
  }

  function DaysInMonth(y: int, m: int): int
    requires 1 <= m <= 12
  {
    if m == 2 then (if IsLeapYear(y) then 29 else 28)
    else if m == 4 || m == 6 || m == 9 || m == 11 then 30
    else 31
  }

  predicate IsValidDate(d: Date)
  {
    1 <= d.month <= 12 && 1 <= d.day <= DaysInMonth(d.year, d.month)
  }

  predicate IsValidDateTime(t: DateTime)
  {
    IsValidDate(t.date) && 0 <= t.second < SecondsPerDay
  }

  /** Days from 1 January of year `y` back (or forward) to 1 January 1970. */
  function DaysBeforeYear(y: int): int
    decreases if y < 1970 then 1970 - y else y - 1970
  {
    if y == 1970 then 0
    else if y > 1970 then DaysBeforeYear(y - 1) + DaysInYear(y - 1)
    else DaysBeforeYear(y + 1) - DaysInYear(y)
  }

  /** Days of year `y` before the first of month `m` (POSIX `tm_yday` of that first). */
  function DaysBeforeMonth(y: int, m: int): int
    requires 1 <= m <= 12
  {
    [0, 31, 59, 90, 120, 151, 181, 212, 243, 273, 304, 334][m - 1]
      + (if m > 2 && IsLeapYear(y) then 1 else 0)
  }

  /** Days since 1970-01-01 (negative before it). */
  function EpochDay(d: Date): int
    requires IsValidDate(d)
  {
    DaysBeforeYear(d.year) + DaysBeforeMonth(d.year, d.month) + d.day - 1
  }

  /** The calendar day before `d`: `pd.to_datetime(date) - pd.Timedelta(1, unit='day')`. */
  function PreviousDay(d: Date): (p: Date)
    requires IsValidDate(d)
    ensures IsValidDate(p)
    ensures EpochDay(p) == EpochDay(d) - 1
  {
    if d.day > 1 then Date(d.year, d.month, d.day - 1)
    else if d.month > 1 then Date(d.year, d.month - 1, DaysInMonth(d.year, d.month - 1))
    else
      assert DaysBeforeYear(d.year) == DaysBeforeYear(d.year - 1) + DaysInYear(d.year - 1);
      Date(d.year - 1, 12, 31)
  }

  /** `pd.Timestamp.timestamp` of a naive timestamp: seconds since the Epoch, taken as UTC. */
  function UnixTimestamp(t: DateTime): int
    requires IsValidDate(t.date)
  {
    EpochDay(t.date) * SecondsPerDay + t.second
  }

  // ---- the POSIX reference definition ----

  /** Seconds since the Epoch as POSIX defines them from the fields of a `struct tm`
      (integer division; all dividends are non-negative from 1970 on). */
  function PosixSeconds(tmSec: int, tmMin: int, tmHour: int, tmYday: int, tmYear: int): int
  {
    tmSec + tmMin * 60 + tmHour * 3600 + tmYday * 86400
      + (tmYear - 70) * 31536000 + ((tmYear - 69) / 4) * 86400
      - ((tmYear - 1) / 100) * 86400 + ((tmYear + 299) / 400) * 86400
  }

  /** The day part of the POSIX formula, as a function of the calendar year. */
  function PosixDaysBeforeYear(y: int): int
  {
    (y - 1970) * 365 + (y - 1969) / 4 - (y - 1901) / 100 + (y - 1601) / 400
  }

  // How the three quotients of the POSIX formula grow from year `a` to year `a + 1`.

  lemma QuotientStep4(a: int)
    requires a >= 1970
    ensures (a + 1 - 1969) / 4 == (a - 1969) / 4 + (if a % 4 == 0 then 1 else 0)
  {
    var x := a - 1969;
    var q, r := x / 4, x % 4;
    assert x == 4 * q + r && 0 <= r < 4;
    if r == 3 {
      assert x + 1 == 4 * (q + 1);
    } else {
      assert x + 1 == 4 * q + (r + 1);
    }
    assert a % 4 == 0 <==> r == 3;
  }

  lemma QuotientStep100(a: int)
    requires a >= 1970
    ensures (a + 1 - 1901) / 100 == (a - 1901) / 100 + (if a % 100 == 0 then 1 else 0)
  {
    var x := a - 1901;
    var q, r := x / 100, x % 100;
    assert x == 100 * q + r && 0 <= r < 100;
    if r == 99 {
      assert x + 1 == 100 * (q + 1);
    } else {
      assert x + 1 == 100 * q + (r + 1);
    }
    assert a % 100 == 0 <==> r == 99;
  }

  lemma QuotientStep400(a: int)
    requires a >= 1970
    ensures (a + 1 - 1601) / 400 == (a - 1601) / 400 + (if a % 400 == 0 then 1 else 0)
  {
    var x := a - 1601;
    var q, r := x / 400, x % 400;
    assert x == 400 * q + r && 0 <= r < 400;
    if r == 399 {
      assert x + 1 == 400 * (q + 1);
    } else {
      assert x + 1 == 400 * q + (r + 1);
    }
    assert a % 400 == 0 <==> r == 399;
  }

  lemma {:induction false} PosixDaysAgree(y: int)
    requires y >= 1970
    ensures DaysBeforeYear(y) == PosixDaysBeforeYear(y)
  {
    if y > 1970 {
      PosixDaysAgree(y - 1);
      var a := y - 1;
      QuotientStep4(a);
      QuotientStep100(a);
      QuotientStep400(a);
      assert a + 1 == y;
      assert DaysBeforeYear(y) == DaysBeforeYear(a) + DaysInYear(a);
    }
  }

  /** From 1970 on, the model's timestamp is exactly the POSIX seconds of the same date and time. */
  lemma UnixTimestampIsPosix(t: DateTime)
    requires IsValidDateTime(t) && t.date.year >= 1970
    ensures UnixTimestamp(t) == PosixSeconds(t.second % 60, (t.second / 60) % 60, t.second / 3600,
                                             DaysBeforeMonth(t.date.year, t.date.month) + t.date.day - 1,
                                             t.date.year - 1900)
  {
    PosixDaysAgree(t.date.year);
    var s := t.second;
    assert s == (s / 3600) * 3600 + ((s / 60) % 60) * 60 + s % 60;
  }

  // ---- ISO 8601 texts ----

  /** The extended-format calendar date `YYYY-MM-DD` built from the basic-format `YYYYMMDD`
      (`f'{datestr[0:4]}-{datestr[4:6]}-{datestr[6:8]}'`). */
  function ExtendedDateText(datestr: string): string
  {
    Slice(datestr, 0, 4) + "-" + Slice(datestr, 4, 6) + "-" + Slice(datestr, 6, 8)
  }

  predicate AllDigits(s: string)
  {
    forall i :: 0 <= i < |s| ==> IsDigit(s[i])
  }

  /** Reads `YYYY-MM-DD`; `None` for any other shape or for a day that does not exist. */
  function ParseExtendedDate(s: string): (r: Option<Date>)
    ensures r.Some? ==> IsValidDate(r.value)
  {
    if |s| == 10 && s[4] == '-' && s[7] == '-'
       && AllDigits(s[0..4]) && AllDigits(s[5..7]) && AllDigits(s[8..10])
    then
      var d := Date(DigitsValue(s[0..4]), DigitsValue(s[5..7]), DigitsValue(s[8..10]));
      if IsValidDate(d) then Some(d) else None
    else None
  }

  /** The ISO date text of `d`, for four-digit years (`strftime('%Y-%m-%d')`). */
  function FormatExtendedDate(d: Date): string
    requires 0 <= d.year < 10000
    requires IsValidDate(d)
  {
    PadDigits(d.year, 4) + "-" + PadDigits(d.month, 2) + "-" + PadDigits(d.day, 2)
  }

  /** The basic-format text `YYYYMMDD` of `d`. */
  function FormatBasicDate(d: Date): string
    requires 0 <= d.year < 10000
    requires IsValidDate(d)
  {
    PadDigits(d.year, 4) + PadDigits(d.month, 2) + PadDigits(d.day, 2)
  }

  /** The reference date named by a `datestr`. */
  function ParseBasicDate(datestr: string): (r: Option<Date>)
    ensures r.Some? ==> IsValidDate(r.value)
  {
    ParseExtendedDate(ExtendedDateText(datestr))
  }

  lemma FormatExtendedDateRoundTrip(d: Date)
    requires 0 <= d.year < 10000 && IsValidDate(d)
    ensures ParseExtendedDate(FormatExtendedDate(d)) == Some(d)
  {
    var y, m, dd := PadDigits(d.year, 4), PadDigits(d.month, 2), PadDigits(d.day, 2);
    var s := FormatExtendedDate(d);
    assert s[0..4] == y && s[5..7] == m && s[8..10] == dd;
    assert s[4] == '-' && s[7] == '-';
    assert Pow10(2) == 100 && Pow10(4) == 10000;
    PadDigitsRoundTrip(d.year, 4);
    PadDigitsRoundTrip(d.month, 2);
    PadDigitsRoundTrip(d.day, 2);
    assert DigitsValue(s[0..4]) == d.year;
    assert DigitsValue(s[5..7]) == d.month;
    assert DigitsValue(s[8..10]) == d.day;
  }

  /** `YYYYMMDD` becomes `YYYY-MM-DD` (basic to extended format, ISO 8601 section 4.1.2.2) and reads
      back as the same date. */
  lemma BasicDateRoundTrip(d: Date)
    requires 0 <= d.year < 10000 && IsValidDate(d)
    ensures ExtendedDateText(FormatBasicDate(d)) == FormatExtendedDate(d)
    ensures ParseBasicDate(FormatBasicDate(d)) == Some(d)
  {
    var s := FormatBasicDate(d);
    assert Slice(s, 0, 4) == PadDigits(d.year, 4);
    assert Slice(s, 4, 6) == PadDigits(d.month, 2);
    assert Slice(s, 6, 8) == PadDigits(d.day, 2);
    FormatExtendedDateRoundTrip(d);
  }

  /** `YYYYMMDD` text with too few characters never names a date. */
  lemma ShortDateStrIsInvalid(datestr: string)
    requires |datestr| < 8
    ensures ParseBasicDate(datestr) == None
  {
  }

  // ---- time of day ----

  /** The second of the day of a feed time in seconds: `pd.to_datetime(t, unit='s').dt.time`
      truncated to whole seconds (floor, then modulo one day). */
  function SecondOfDay(t: real): (s: int)
    ensures 0 <= s < SecondsPerDay
  {
    t.Floor % SecondsPerDay
  }

  /** `HH:MM:SS`. */
  function ClockText(s: int): (r: string)
    requires 0 <= s < SecondsPerDay
    ensures |r| == 8
  {
    PadDigits(s / 3600, 2) + ":" + PadDigits((s / 60) % 60, 2) + ":" + PadDigits(s % 60, 2)
  }

  /** `str()` of a `datetime.time`: `HH:MM:SS`, followed by `.ffffff` when the microsecond is not 0. */
  function TimeText(t: real): string
  {
    var micro := ((t - t.Floor as real) * 1000000.0).Floor;
    ClockText(SecondOfDay(t)) + (if micro == 0 then "" else "." + PadDigits(micro, 6))
  }

  /** Reads `HH:MM:SS` back into a second of the day. */
  function ParseClock(r: string): (s: Option<int>)
  {
    if |r| == 8 && r[2] == ':' && r[5] == ':'
       && AllDigits(r[0..2]) && AllDigits(r[3..5]) && AllDigits(r[6..8])
    then
      var h, m, sec := DigitsValue(r[0..2]), DigitsValue(r[3..5]), DigitsValue(r[6..8]);
      if h < 24 && m < 60 && sec < 60 then Some(h * 3600 + m * 60 + sec) else None
    else None
  }

  /** Hours, minutes and seconds put back together give the second of the day. */
  lemma ClockDecomposition(s: int)
    requires 0 <= s < SecondsPerDay
    ensures s == (s / 3600) * 3600 + ((s / 60) % 60) * 60 + s % 60
    ensures s / 3600 < 24
  {
    var q, r := s / 60, s % 60;
    assert s == 60 * q + r;
    var h, m := q / 60, q % 60;
    assert q == 60 * h + m;
    assert s == 3600 * h + 60 * m + r;
    assert s / 3600 == h;
  }

  /** `HH:MM:SS` read back gives the second it was written from. */
  lemma ClockTextRoundTrip(s: int)
    requires 0 <= s < SecondsPerDay
    ensures ParseClock(ClockText(s)) == Some(s)
  {
    var c := ClockText(s);
    var h, m, sec := s / 3600, (s / 60) % 60, s % 60;
    ClockDecomposition(s);
    assert c[0..2] == PadDigits(h, 2);
    assert c[3..5] == PadDigits(m, 2);
    assert c[6..8] == PadDigits(sec, 2);
    PadDigitsRoundTrip(h, 2);
    PadDigitsRoundTrip(m, 2);
    PadDigitsRoundTrip(sec, 2);
  }

  /** Keeping the first 8 characters of the time text (`x[0:8]`) and reading them back yields the
      feed time truncated to a whole second of the day. */
  lemma TimeTextTruncates(t: real)
    ensures Slice(TimeText(t), 0, 8) == ClockText(SecondOfDay(t))
    ensures ParseClock(Slice(TimeText(t), 0, 8)) == Some(SecondOfDay(t))
  {
    var c := ClockText(SecondOfDay(t));
    assert TimeText(t)[0..8] == c;
    ClockTextRoundTrip(SecondOfDay(t));
  }
}
