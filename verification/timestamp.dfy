/**
 * Rendering of Unix epoch seconds as "YYYY-MM-DD HH:MM:SS", the layout
 * "2006-01-02 15:04:05" of Go's time package, on the proleptic Gregorian
 * calendar in UTC.  FromUnix and ToUnix are mutually inverse, and Format
 * can be read back field by field.
 */
module Timestamp {
  import opened GoLibrary

  const SecondsPerDay: int := 86400

  /** A civil date and time of day. */
  datatype DateTime = DateTime(year: int, month: int, day: int, hour: int, minute: int, second: int)

  predicate IsLeapYear(y: int) {
    y % 4 == 0 && (y % 100 != 0 || y % 400 == 0)
  }

  function DaysInYear(y: int): int {
    if IsLeapYear(y) then 366 else 365
  }

  function DaysInMonth(y: int, m: int): int
    requires 1 <= m <= 12
  {
    if m == 2 then (if IsLeapYear(y) then 29 else 28)
    else if m == 4 || m == 6 || m == 9 || m == 11 then 30
    else 31
  }

  /** The number of days of year `y` that come before the first day of month `m` (13 for the whole year). */
  function DaysBeforeMonth(y: int, m: int): int
    requires 1 <= m <= 13
  {
    var common :=
      if m == 1 then 0 else if m == 2 then 31 else if m == 3 then 59
      else if m == 4 then 90 else if m == 5 then 120 else if m == 6 then 151
      else if m == 7 then 181 else if m == 8 then 212 else if m == 9 then 243
      else if m == 10 then 273 else if m == 11 then 304 else if m == 12 then 334
      else 365;
    if IsLeapYear(y) && m > 2 then common + 1 else common
  }

  /** The number of leap years among the years 1 .. y - 1 (negative counts for years before 1). */
  function LeapYearsBefore(y: int): int {
    (y - 1) / 4 - (y - 1) / 100 + (y - 1) / 400
  }

  /** The number of days from 1970-01-01 to January 1st of year `y` (negative before 1970). */
  function DaysBeforeYear(y: int): int {
    365 * (y - 1970) + LeapYearsBefore(y) - LeapYearsBefore(1970)
  }

  predicate Valid(dt: DateTime) {
    1 <= dt.month <= 12 && 1 <= dt.day <= DaysInMonth(dt.year, dt.month)
    && 0 <= dt.hour < 24 && 0 <= dt.minute < 60 && 0 <= dt.second < 60
  }

  /** The Unix time of a valid date and time: seconds since 1970-01-01 00:00:00 UTC. */
  function ToUnix(dt: DateTime): int
    requires Valid(dt)
  {
    (DaysBeforeYear(dt.year) + DaysBeforeMonth(dt.year, dt.month) + dt.day - 1) * SecondsPerDay
    + dt.hour * 3600 + dt.minute * 60 + dt.second
  }

  // ---------------------------------------------------------------------
  // Calendar facts
  // ---------------------------------------------------------------------

  lemma DivByConstStep(y: int)
    ensures y / 4 - (y - 1) / 4 == (if y % 4 == 0 then 1 else 0)
    ensures y / 100 - (y - 1) / 100 == (if y % 100 == 0 then 1 else 0)
    ensures y / 400 - (y - 1) / 400 == (if y % 400 == 0 then 1 else 0)
  {
  }

  /** Consecutive years are DaysInYear apart. */
  lemma NextYear(y: int)
    ensures DaysBeforeYear(y + 1) == DaysBeforeYear(y) + DaysInYear(y)
  {
    DivByConstStep(y);
  }

  /** A whole year `y1` fits before the start of any later year `y2`. */
  lemma {:induction false} YearsAreOrdered(y1: int, y2: int)
    requires y1 < y2
    ensures DaysBeforeYear(y1) + DaysInYear(y1) <= DaysBeforeYear(y2)
    decreases y2 - y1
  {
    NextYear(y1);
    if y1 + 1 < y2 {
      YearsAreOrdered(y1 + 1, y2);
      NextYear(y1 + 1);
    }
  }

  /** The year of a day count is unique. */
  lemma YearIsUnique(y1: int, a: int, y2: int, b: int)
    requires 0 <= a < DaysInYear(y1) && 0 <= b < DaysInYear(y2)
    requires DaysBeforeYear(y1) + a == DaysBeforeYear(y2) + b
    ensures y1 == y2 && a == b
  {
    if y1 < y2 {
      YearsAreOrdered(y1, y2);
    } else if y2 < y1 {
      YearsAreOrdered(y2, y1);
    }
  }

  lemma MonthStep(y: int, m: int)
    requires 1 <= m <= 12
    ensures DaysBeforeMonth(y, m + 1) == DaysBeforeMonth(y, m) + DaysInMonth(y, m)
  {
  }

  // ---------------------------------------------------------------------
  // From epoch seconds to a civil date
  // ---------------------------------------------------------------------

  /**
   * Walks whole years from January 1st of year `y` until `days` falls inside
   * a year; returns that year and the zero-based day within it.
   */
  function YearOf(days: int, y: int): (r: (int, int))
    ensures 0 <= r.1 < DaysInYear(r.0)
    ensures DaysBeforeYear(r.0) + r.1 == DaysBeforeYear(y) + days
    decreases if days < 0 then 1 else 0, if days < 0 then -days else days
  {
    if days < 0 then
      NextYear(y - 1);
      YearOf(days + DaysInYear(y - 1), y - 1)
    else if days >= DaysInYear(y) then
      NextYear(y);
      YearOf(days - DaysInYear(y), y + 1)
    else
      (y, days)
  }

  /**
   * Walks the months of year `y` from month `m` until the zero-based day of
   * the year `doy` falls inside one; returns that month and the day in it.
   */
  function MonthOf(y: int, doy: int, m: int): (r: (int, int))
    requires 1 <= m <= 12
    requires DaysBeforeMonth(y, m) <= doy < DaysInYear(y)
    ensures 1 <= r.0 <= 12 && 1 <= r.1 <= DaysInMonth(y, r.0)
    ensures DaysBeforeMonth(y, r.0) + r.1 - 1 == doy
    decreases 12 - m
  {
    MonthStep(y, m);
    if m == 12 || doy < DaysBeforeMonth(y, m + 1) then
      (m, doy - DaysBeforeMonth(y, m) + 1)
    else
      MonthOf(y, doy, m + 1)
  }

  /** The civil date and time, in UTC, of `secs` seconds after the Unix epoch. */
  function FromUnix(secs: int): (dt: DateTime)
    ensures Valid(dt) && ToUnix(dt) == secs
  {
    var days := secs / SecondsPerDay;
    var sod := secs % SecondsPerDay;
    var yd := YearOf(days, 1970);
    var md := MonthOf(yd.0, yd.1, 1);
    DateTime(yd.0, md.0, md.1, sod / 3600, sod % 3600 / 60, sod % 60)
  }

  /** The day within its month is unique. */
  lemma {:induction false} MonthIsUnique(y: int, doy: int, m: int, m': int, d': int)
    requires 1 <= m <= 12
    requires DaysBeforeMonth(y, m) <= doy < DaysInYear(y)
    requires 1 <= m' <= 12 && 1 <= d' <= DaysInMonth(y, m')
    requires DaysBeforeMonth(y, m') + d' - 1 == doy
    requires m <= m'
    ensures MonthOf(y, doy, m) == (m', d')
    decreases 12 - m
  {
    MonthStep(y, m);
    if m < m' {
      assert DaysBeforeMonth(y, m + 1) <= DaysBeforeMonth(y, m') by {
        MonthsAreOrdered(y, m + 1, m');
      }
      MonthIsUnique(y, doy, m + 1, m', d');
    }
  }

  lemma {:induction false} MonthsAreOrdered(y: int, m1: int, m2: int)
    requires 1 <= m1 <= m2 <= 13
    ensures DaysBeforeMonth(y, m1) <= DaysBeforeMonth(y, m2)
    decreases m2 - m1
  {
    if m1 < m2 {
      MonthStep(y, m1);
      MonthsAreOrdered(y, m1 + 1, m2);
    }
  }

  /** FromUnix is the inverse of ToUnix on valid dates: every valid date and time has exactly one Unix time. */
  lemma FromUnixToUnix(dt: DateTime)
    requires Valid(dt)
    ensures FromUnix(ToUnix(dt)) == dt
  {
    var secs := ToUnix(dt);
    var doy := DaysBeforeMonth(dt.year, dt.month) + dt.day - 1;
    var days := DaysBeforeYear(dt.year) + doy;
    var sod := dt.hour * 3600 + dt.minute * 60 + dt.second;
    assert secs == days * SecondsPerDay + sod && 0 <= sod < SecondsPerDay;
    assert secs / SecondsPerDay == days && secs % SecondsPerDay == sod;
    MonthStep(dt.year, dt.month);
    MonthsAreOrdered(dt.year, dt.month + 1, 13);
    var yd := YearOf(days, 1970);
    YearIsUnique(yd.0, yd.1, dt.year, doy);
    MonthIsUnique(dt.year, doy, 1, dt.month, dt.day);
  }

  // ---------------------------------------------------------------------
  // The layout "2006-01-02 15:04:05"
  // ---------------------------------------------------------------------

  /** The decimal rendering of `n`, padded on the left with zeros to at least `width` digits. */
  function PadInt(n: nat, width: nat): (s: string)
    ensures AllDigits(s) && DecimalValue(s) == n
    ensures |s| >= width
    ensures |s| > width && |s| > 1 ==> s[0] != '0'
    ensures n < 10000 && width == 4 ==> |s| == 4
    ensures n < 100 && width == 2 ==> |s| == 2
  {
    var d := Decimal(n);
    DecimalValueOfDecimal(n);
    if |d| < width then
      var zeros := seq(width - |d|, _ => '0');
      DecimalValueOfZeroPadded(zeros, d);
      zeros + d
    else d
  }

  /** Go writes the year with at least four digits and a leading minus sign when it is negative. */
  function FormatYear(y: int): string {
    if y < 0 then "-" + PadInt(-y, 4) else PadInt(y, 4)
  }

  function Format(dt: DateTime): string
    requires Valid(dt)
  {
    FormatYear(dt.year) + "-" + PadInt(dt.month, 2) + "-" + PadInt(dt.day, 2) + " "
    + PadInt(dt.hour, 2) + ":" + PadInt(dt.minute, 2) + ":" + PadInt(dt.second, 2)
  }

  /** time.Unix(secs, 0).Format("2006-01-02 15:04:05"), in UTC. */
  function FormatUnix(secs: int): string {
    Format(FromUnix(secs))
  }

  /** Whether `s` has the shape "dddd-dd-dd dd:dd:dd". */
  predicate IsLayout(s: string) {
    |s| == 19 && s[4] == '-' && s[7] == '-' && s[10] == ' ' && s[13] == ':' && s[16] == ':'
    && AllDigits(s[0..4]) && AllDigits(s[5..7]) && AllDigits(s[8..10])
    && AllDigits(s[11..13]) && AllDigits(s[14..16]) && AllDigits(s[17..19])
  }

  /** Reads the fields back out of a string of the layout. */
  function ParseLayout(s: string): DateTime
    requires IsLayout(s)
  {
    DateTime(DecimalValue(s[0..4]), DecimalValue(s[5..7]), DecimalValue(s[8..10]),
             DecimalValue(s[11..13]), DecimalValue(s[14..16]), DecimalValue(s[17..19]))
  }

  /** Six fields of the right widths, joined by the layout's separators, land at the layout's offsets. */
  lemma {:induction false} JoinedFields(y: string, mo: string, d: string, h: string, mi: string, se: string)
    requires |y| == 4 && |mo| == 2 && |d| == 2 && |h| == 2 && |mi| == 2 && |se| == 2
    ensures var s := y + "-" + mo + "-" + d + " " + h + ":" + mi + ":" + se;
            |s| == 19 && s[4] == '-' && s[7] == '-' && s[10] == ' ' && s[13] == ':' && s[16] == ':'
            && s[0..4] == y && s[5..7] == mo && s[8..10] == d
            && s[11..13] == h && s[14..16] == mi && s[17..19] == se
  {
    var s := y + "-" + mo + "-" + d + " " + h + ":" + mi + ":" + se;
    assert s[0..4] == y;
    assert s[5..7] == mo;
    assert s[8..10] == d;
    assert s[11..13] == h;
    assert s[14..16] == mi;
    assert s[17..19] == se;
  }

  /**
   * For a year of at most four digits the rendering has the fixed layout and
   * reading it back gives the same date and time.
   */
  lemma FormatRoundTrip(dt: DateTime)
    requires Valid(dt) && 0 <= dt.year <= 9999
    ensures IsLayout(Format(dt)) && ParseLayout(Format(dt)) == dt
  {
    JoinedFields(PadInt(dt.year, 4), PadInt(dt.month, 2), PadInt(dt.day, 2),
                 PadInt(dt.hour, 2), PadInt(dt.minute, 2), PadInt(dt.second, 2));
  }

  /** 1577836800 seconds after the epoch is midnight at the start of 2020. */
  lemma Epoch2020()
    ensures FromUnix(1577836800) == DateTime(2020, 1, 1, 0, 0, 0)
  {
    var dt := DateTime(2020, 1, 1, 0, 0, 0);
    assert ToUnix(dt) == 1577836800;
    FromUnixToUnix(dt);
  }

  /** The rendering of midnight at the start of 2020. */
  lemma Format2020()
    ensures Format(DateTime(2020, 1, 1, 0, 0, 0)) == "2020-01-01 00:00:00"
  {
    assert PadInt(2020, 4) == "2020" by {
      assert Decimal(2020) == "2020";
    }
    assert PadInt(1, 2) == "01";
    assert PadInt(0, 2) == "00";
  }

  /** The first day of 2020 in UTC, the instant 1577836800. */
  lemma FormatUnixExample()
    ensures FormatUnix(1577836800) == "2020-01-01 00:00:00"
  {
    Epoch2020();
    Format2020();
  }
}
