/**
 The calendar arithmetic the history store relies on: Go's `time.Parse` and
 `Time.Format` with the layout "2006-01-02" (a four-digit year, a two-digit
 month and a two-digit day, in UTC), and the conversion of such a date to
 seconds since the Unix epoch.
 */
module Calendar {
  import opened Values
  import opened Decimal

  datatype Date = Date(year: int, month: int, day: int)

  const SecondsPerDay: int := 86400

  /** Go's zero `time.Time`, 0001-01-01 00:00:00 UTC, in Unix seconds; a failed
      `time.Parse` returns it. */
  const ZeroTimeUnix: int := -62135596800

  predicate IsLeap(year: int)
  {
    year % 4 == 0 && (year % 100 != 0 || year % 400 == 0)
  }

  function DaysIn(year: int, month: int): (n: int)
    requires 1 <= month <= 12
    ensures 28 <= n <= 31
    ensures n == 29 <==> month == 2 && IsLeap(year)
  {
    if month == 2 then (if IsLeap(year) then 29 else 28)
    else if month == 4 || month == 6 || month == 9 || month == 11 then 30
    else 31
  }

  /** A date Go's "2006-01-02" layout can both print and read back. */
  predicate ValidDate(d: Date)
  {
    0 <= d.year <= 9999 && 1 <= d.month <= 12 && 1 <= d.day <= DaysIn(d.year, d.month)
  }

  /** `time.Time.Format("2006-01-02")` for a date whose year has at most four digits. */
  function FormatDay(d: Date): (s: string)
    requires ValidDate(d)
    ensures |s| == 10 && s[4] == '-' && s[7] == '-'
  {
    Digits(d.year, 4) + "-" + Digits(d.month, 2) + "-" + Digits(d.day, 2)
  }

  /** `time.Parse("2006-01-02", s)`: four year digits, '-', two month digits,
      '-', two day digits and nothing more; the month must lie in 1..12 and the
      day within that month. Any other string fails to parse. */
  function ParseDay(s: string): (r: Option<Date>)
    ensures r.Some? ==> ValidDate(r.value)
  {
    if |s| == 10 && s[4] == '-' && s[7] == '-'
       && AllDigits(s[0..4]) && AllDigits(s[5..7]) && AllDigits(s[8..10])
    then
      var year := DecimalValue(s[0..4]);
      var month := DecimalValue(s[5..7]);
      var day := DecimalValue(s[8..10]);
      if 1 <= month <= 12 && 1 <= day <= DaysIn(year, month) then Some(Date(year, month, day))
      else None
    else None
  }

  /** Every date the layout can print is read back unchanged. */
  lemma FormatThenParse(d: Date)
    requires ValidDate(d)
    ensures ParseDay(FormatDay(d)) == Some(d)
  {
    var s := FormatDay(d);
    assert s[0..4] == Digits(d.year, 4);
    assert s[5..7] == Digits(d.month, 2);
    assert s[8..10] == Digits(d.day, 2);
    DecimalValueOfDigits(d.year, 4);
    DecimalValueOfDigits(d.month, 2);
    DecimalValueOfDigits(d.day, 2);
  }

  /** Every string that parses is the canonical spelling of its date. */
  lemma ParseThenFormat(s: string)
    requires ParseDay(s).Some?
    ensures FormatDay(ParseDay(s).value) == s
  {
    DigitsOfDecimalValue(s[0..4]);
    DigitsOfDecimalValue(s[5..7]);
    DigitsOfDecimalValue(s[8..10]);
    assert s == s[0..4] + "-" + s[5..7] + "-" + s[8..10];
  }

  /** Days from 1970-01-01 to `d` in the proleptic Gregorian calendar
      (Go's `time.Date(y, m, d, 0, 0, 0, 0, time.UTC)`); Dafny's `/` on a
      positive divisor rounds down, which the era computation needs. */
  function DaysFromCivil(d: Date): int
    requires 1 <= d.month <= 12
  {
    var y := if d.month <= 2 then d.year - 1 else d.year;
    var era := y / 400;
    var yoe := y - era * 400;
    var mp := if d.month > 2 then d.month - 3 else d.month + 9;
    var doy := (153 * mp + 2) / 5 + d.day - 1;
    var doe := yoe * 365 + yoe / 4 - yoe / 100 + doy;
    era * 146097 + doe - 719468
  }

  /** The Unix seconds of midnight UTC starting the day a key names, or of Go's
      zero time when the key does not parse. */
  function DayStartUnix(key: string): (t: int)
    ensures t % SecondsPerDay == 0
    ensures ParseDay(key).None? ==> t == ZeroTimeUnix
  {
    match ParseDay(key)
    case Some(d) => DaysFromCivil(d) * SecondsPerDay
    case None => ZeroTimeUnix
  }

  /** The epoch is day 0 and Go's zero time is 0001-01-01. */
  lemma CalendarAnchors()
    ensures DaysFromCivil(Date(1970, 1, 1)) == 0
    ensures DaysFromCivil(Date(1, 1, 1)) * SecondsPerDay == ZeroTimeUnix
  {
    assert DaysFromCivil(Date(1970, 1, 1)) == 4 * 146097 + 365 * 369 + 92 - 3 + 306 - 719468;
    assert DaysFromCivil(Date(1, 1, 1)) == 306 - 719468;
  }

  /** The calendar day after `d`. */
  function NextDate(d: Date): Date
    requires ValidDate(d)
  {
    if d.day < DaysIn(d.year, d.month) then Date(d.year, d.month, d.day + 1)
    else if d.month < 12 then Date(d.year, d.month + 1, 1)
    else Date(d.year + 1, 1, 1)
  }

  /** Days from 0000-03-01 to March 1st of year `y`: the part of
      `DaysFromCivil` that depends on the year alone. */
  function MarchYearStart(y: int): int
  {
    var era := y / 400;
    var yoe := y - era * 400;
    era * 146097 + yoe * 365 + yoe / 4 - yoe / 100
  }

  /** The year running from March 1st of `y` has a February 29th exactly when
      `y + 1` is a leap year. */
  lemma MarchYearLength(y: int)
    ensures MarchYearStart(y + 1) == MarchYearStart(y) + (if IsLeap(y + 1) then 366 else 365)
  {
    if y % 400 < 399 {
      YearWithinEra(y);
    } else {
      YearEndingEra(y);
    }
  }

  lemma YearWithinEra(y: int)
    requires y % 400 < 399
    ensures MarchYearStart(y + 1) == MarchYearStart(y) + (if IsLeap(y + 1) then 366 else 365)
  {
    var era, yoe := y / 400, y % 400;
    NextInEra(y);
    StepQuarter(y);
    StepCentury(y);
    assert (y + 1) % 400 != 0;
    assert MarchYearStart(y + 1) - MarchYearStart(y)
        == 365 + ((yoe + 1) / 4 - yoe / 4) - ((yoe + 1) / 100 - yoe / 100);
  }

  lemma YearEndingEra(y: int)
    requires y % 400 == 399
    ensures MarchYearStart(y + 1) == MarchYearStart(y) + 366
    ensures IsLeap(y + 1)
  {
    NextInEra(y);
  }

  lemma NextInEra(y: int)
    ensures y % 400 < 399 ==> (y + 1) / 400 == y / 400 && (y + 1) % 400 == y % 400 + 1
    ensures y % 400 == 399 ==> (y + 1) / 400 == y / 400 + 1 && (y + 1) % 400 == 0
  {
  }

  lemma StepQuarter(y: int)
    requires y % 400 < 399
    ensures ((y % 400) + 1) / 4 - (y % 400) / 4 == if (y + 1) % 4 == 0 then 1 else 0
  {
    var era, yoe := y / 400, y % 400;
    var q, r := yoe / 4, yoe % 4;
    DivStep4(yoe, q, r);
    DivStep4(y, era * 100 + q, r);
  }

  lemma StepCentury(y: int)
    requires y % 400 < 399
    ensures ((y % 400) + 1) / 100 - (y % 400) / 100 == if (y + 1) % 100 == 0 then 1 else 0
  {
    var era, yoe := y / 400, y % 400;
    var q, r := yoe / 100, yoe % 100;
    DivStep100(yoe, q, r);
    DivStep100(y, era * 4 + q, r);
  }

  /** Division of `n` and `n + 1` by 4, given the quotient and remainder of `n`. */
  lemma DivStep4(n: int, q: int, r: int)
    requires n == 4 * q + r && 0 <= r < 4
    ensures n / 4 == q && n % 4 == r
    ensures r < 3 ==> (n + 1) / 4 == q && (n + 1) % 4 == r + 1
    ensures r == 3 ==> (n + 1) / 4 == q + 1 && (n + 1) % 4 == 0
  {
  }

  /** Division of `n` and `n + 1` by 100, given the quotient and remainder of `n`. */
  lemma DivStep100(n: int, q: int, r: int)
    requires n == 100 * q + r && 0 <= r < 100
    ensures n / 100 == q && n % 100 == r
    ensures r < 99 ==> (n + 1) / 100 == q && (n + 1) % 100 == r + 1
    ensures r == 99 ==> (n + 1) / 100 == q + 1 && (n + 1) % 100 == 0
  {
  }

  /** Days from March 1st to the first day of the month `mp` months later
      (March is 0, February 11): the month lengths of a March-based year. */
  lemma MonthOffset(mp: int)
    requires 0 <= mp <= 11
    ensures (153 * mp + 2) / 5 == [0, 31, 61, 92, 122, 153, 184, 214, 245, 275, 306, 337][mp]
  {
  }

  /** `DaysFromCivil` as the start of the March-based year plus the offset of
      the month plus the day. */
  lemma DaysFromCivilSplit(d: Date)
    requires 1 <= d.month <= 12
    ensures var y := if d.month <= 2 then d.year - 1 else d.year;
            var mp := if d.month > 2 then d.month - 3 else d.month + 9;
            DaysFromCivil(d) == MarchYearStart(y) + (153 * mp + 2) / 5 + d.day - 1 - 719468
  {
  }

  /** Consecutive calendar days are exactly one day apart, across month and
      year ends and leap days alike. */
  lemma NextDateIsOneDayLater(d: Date)
    requires ValidDate(d)
    ensures DaysFromCivil(NextDate(d)) == DaysFromCivil(d) + 1
  {
    if d.day < DaysIn(d.year, d.month) {
      DaysFromCivilSplit(d);
      DaysFromCivilSplit(NextDate(d));
    } else if d.month == 2 {
      FebruaryEnd(d);
    } else if d.month < 12 {
      MonthEnd(d);
    } else {
      YearEnd(d);
    }
  }

  lemma FebruaryEnd(d: Date)
    requires ValidDate(d) && d.month == 2 && d.day == DaysIn(d.year, 2)
    ensures DaysFromCivil(Date(d.year, 3, 1)) == DaysFromCivil(d) + 1
  {
    DaysFromCivilSplit(d);
    DaysFromCivilSplit(Date(d.year, 3, 1));
    MonthOffset(11);
    MonthOffset(0);
    MarchYearLength(d.year - 1);
  }

  lemma MonthEnd(d: Date)
    requires ValidDate(d) && d.month != 2 && d.month < 12 && d.day == DaysIn(d.year, d.month)
    ensures DaysFromCivil(Date(d.year, d.month + 1, 1)) == DaysFromCivil(d) + 1
  {
    DaysFromCivilSplit(d);
    DaysFromCivilSplit(Date(d.year, d.month + 1, 1));
    var mp := if d.month > 2 then d.month - 3 else d.month + 9;
    MonthOffset(mp);
    MonthOffset(mp + 1);
  }

  lemma YearEnd(d: Date)
    requires ValidDate(d) && d.month == 12 && d.day == 31
    ensures DaysFromCivil(Date(d.year + 1, 1, 1)) == DaysFromCivil(d) + 1
  {
    DaysFromCivilSplit(d);
    DaysFromCivilSplit(Date(d.year + 1, 1, 1));
    MonthOffset(9);
    MonthOffset(10);
  }
}
