/**
 * Calendar dates as the backend handles them: `parse_date` reads the text
 * form `%Y-%m-%d` with `datetime.strptime`, and the availability and
 * reservation rules use the weekday as Monday=1 ... Sunday=7
 * (`date.weekday() + 1`). Python's `date` is the proleptic Gregorian
 * calendar for years 1 to 9999; its weekday comes from the day ordinal,
 * with 0001-01-01 (ordinal 1) a Monday.
 */
module Calendar {
  import opened Wrappers
  import opened Text

  datatype Date = Date(year: int, month: int, day: int)

  predicate IsLeap(y: int)
  {
    y % 4 == 0 && (y % 100 != 0 || y % 400 == 0)
  }

  function DaysInMonth(y: int, m: int): (n: int)
    requires 1 <= m <= 12
    ensures 28 <= n <= 31
  {
    if m == 2 then (if IsLeap(y) then 29 else 28)
    else if m == 4 || m == 6 || m == 9 || m == 11 then 30
    else 31
  }

  /** The dates `datetime.date` can represent. */
  predicate ValidDate(d: Date)
  {
    1 <= d.year <= 9999 && 1 <= d.month <= 12 && 1 <= d.day <= DaysInMonth(d.year, d.month)
  }

  function DaysBeforeYear(y: int): int
  {
    var p := y - 1;
    p * 365 + p / 4 - p / 100 + p / 400
  }

  function DaysBeforeMonth(y: int, m: int): (n: int)
    requires 1 <= m <= 12
  {
    (if m > 2 && IsLeap(y) then 1 else 0) +
    (match m
     case 1 => 0   case 2 => 31  case 3 => 59   case 4 => 90
     case 5 => 120 case 6 => 151 case 7 => 181  case 8 => 212
     case 9 => 243 case 10 => 273 case 11 => 304 case _ => 334)
  }

  /** `date.toordinal()`. */
  function Ordinal(d: Date): int
    requires ValidDate(d)
  {
    DaysBeforeYear(d.year) + DaysBeforeMonth(d.year, d.month) + d.day
  }

  /** `date.weekday() + 1`: Monday=1 ... Sunday=7. */
  function IsoWeekday(d: Date): (w: int)
    requires ValidDate(d)
    ensures 1 <= w <= 7
  {
    (Ordinal(d) + 6) % 7 + 1
  }

  /** The day after `d`. */
  function NextDay(d: Date): (n: Date)
    requires ValidDate(d) && d != Date(9999, 12, 31)
    ensures ValidDate(n)
  {
    if d.day < DaysInMonth(d.year, d.month) then d.(day := d.day + 1)
    else if d.month < 12 then Date(d.year, d.month + 1, 1)
    else Date(d.year + 1, 1, 1)
  }

  lemma DaysBeforeYearStep(y: int)
    requires 1 <= y
    ensures DaysBeforeYear(y + 1) == DaysBeforeYear(y) + (if IsLeap(y) then 366 else 365)
  {
    var p := y - 1;
    assert (p + 1) / 4 == p / 4 + (if y % 4 == 0 then 1 else 0);
    assert (p + 1) / 100 == p / 100 + (if y % 100 == 0 then 1 else 0);
    assert (p + 1) / 400 == p / 400 + (if y % 400 == 0 then 1 else 0);
  }

  /** Consecutive dates have consecutive ordinals, across month and year ends. */
  lemma NextDayOrdinal(d: Date)
    requires ValidDate(d) && d != Date(9999, 12, 31)
    ensures Ordinal(NextDay(d)) == Ordinal(d) + 1
  {
    if d.day == DaysInMonth(d.year, d.month) && d.month == 12 {
      DaysBeforeYearStep(d.year);
    }
  }

  /** Euclidean division by 7 is determined by its quotient and remainder. */
  lemma ModSeven(a: int, q: int, r: int)
    requires a == 7 * q + r && 0 <= r < 7
    ensures a % 7 == r
  {
  }

  lemma NextWeekdayOfOrdinal(o: int)
    ensures (o + 1 + 6) % 7 + 1 == ((o + 6) % 7 + 1) % 7 + 1
  {
    var x := o + 6;
    var q, r := x / 7, x % 7;
    ModSeven(x, q, r);
    if r == 6 {
      ModSeven(x + 1, q + 1, 0);
      ModSeven(7, 1, 0);
    } else {
      ModSeven(x + 1, q, r + 1);
      ModSeven(r + 1, 0, r + 1);
    }
  }

  /** The weekday advances by one each day and wraps from Sunday to Monday. */
  lemma NextDayWeekday(d: Date)
    requires ValidDate(d) && d != Date(9999, 12, 31)
    ensures IsoWeekday(NextDay(d)) == IsoWeekday(d) % 7 + 1
  {
    var o := Ordinal(d);
    NextDayOrdinal(d);
    assert IsoWeekday(NextDay(d)) == (o + 1 + 6) % 7 + 1;
    NextWeekdayOfOrdinal(o);
  }

  /** Two dates a whole number of weeks apart fall on the same weekday. */
  lemma SameWeekday(d: Date, e: Date, weeks: int)
    requires ValidDate(d) && ValidDate(e)
    requires Ordinal(e) == Ordinal(d) + 7 * weeks
    ensures IsoWeekday(e) == IsoWeekday(d)
  {
    var x := Ordinal(d) + 6;
    var q, r := x / 7, x % 7;
    ModSeven(x, q, r);
    ModSeven(Ordinal(e) + 6, q + weeks, r);
  }

  /** 2024-06-05 is a Wednesday and 2024-06-06 a Thursday. */
  lemma June2024Weekdays()
    ensures ValidDate(Date(2024, 6, 5)) && IsoWeekday(Date(2024, 6, 5)) == 3
    ensures ValidDate(Date(2024, 6, 6)) && IsoWeekday(Date(2024, 6, 6)) == 4
  {
    assert DaysBeforeYear(2024) == 738885;
  }

  // ---------------------------------------------------------------------------
  // Parsing: datetime.strptime(s, "%Y-%m-%d")
  // ---------------------------------------------------------------------------

  /**
   * The `%m` alternatives `1[0-2]|0[1-9]|[1-9]`, tried in order, each
   * followed by the literal `-` of the format. Gives the month and the text
   * after the `-`.
   */
  function ParseMonth(t: string): (r: Option<(int, string)>)
    ensures r.Some? ==> 1 <= r.value.0 <= 12 && |r.value.1| < |t|
  {
    if |t| >= 3 && t[0] == '1' && '0' <= t[1] <= '2' && t[2] == '-' then
      Some((10 + DigitValue(t[1]), t[3..]))
    else if |t| >= 3 && t[0] == '0' && '1' <= t[1] <= '9' && t[2] == '-' then
      Some((DigitValue(t[1]), t[3..]))
    else if |t| >= 2 && '1' <= t[0] <= '9' && t[1] == '-' then
      Some((DigitValue(t[0]), t[2..]))
    else
      None
  }

  /**
   * The `%d` alternatives `3[01]|[12]\d|0[1-9]|[1-9]| [1-9]`: the first that
   * matches at the start is taken, and then nothing may remain
   * ("unconverted data remains" otherwise).
   */
  function ParseDay(t: string): (r: Option<int>)
    ensures r.Some? ==> 1 <= r.value <= 31
  {
    if |t| >= 2 && t[0] == '3' && '0' <= t[1] <= '1' then
      if |t| == 2 then Some(30 + DigitValue(t[1])) else None
    else if |t| >= 2 && '1' <= t[0] <= '2' && IsDigit(t[1]) then
      if |t| == 2 then Some(10 * DigitValue(t[0]) + DigitValue(t[1])) else None
    else if |t| >= 2 && t[0] == '0' && '1' <= t[1] <= '9' then
      if |t| == 2 then Some(DigitValue(t[1])) else None
    else if |t| >= 1 && '1' <= t[0] <= '9' then
      if |t| == 1 then Some(DigitValue(t[0])) else None
    else if |t| >= 2 && t[0] == ' ' && '1' <= t[1] <= '9' then
      if |t| == 2 then Some(DigitValue(t[1])) else None
    else
      None
  }

  /**
   * `parse_date`: `%Y` is exactly four digits, then `-`, the month, `-`, the
   * day; the fields must then form a real date (year 0, February 30 and the
   * like are refused by the `date` constructor).
   */
  function ParseDate(s: string): (r: Option<Date>)
    ensures r.Some? ==> ValidDate(r.value)
  {
    if |s| < 5 || !AllDigits(s[..4]) || s[4] != '-' then None
    else
      var year := DigitsValue(s[..4]);
      match ParseMonth(s[5..])
      case None => None
      case Some((month, rest)) =>
        match ParseDay(rest)
        case None => None
        case Some(day) =>
          var d := Date(year, month, day);
          if ValidDate(d) then Some(d) else None
  }

  /** The two-digit, zero-padded form of `v`. */
  function TwoDigits(v: nat): (s: string)
    requires v < 100
    ensures |s| == 2 && AllDigits(s) && DigitsValue(s) == v
  {
    var s := [DigitChar(v / 10), DigitChar(v % 10)];
    assert s[..1][..0] == [];
    assert s[..1] == [s[0]];
    assert DigitsValue(s[..1]) == v / 10;
    assert DigitsValue(s) == 10 * (v / 10) + v % 10;
    s
  }

  /** `date.isoformat()`: `YYYY-MM-DD`, zero-padded. */
  function FormatDate(d: Date): (s: string)
    requires ValidDate(d)
    ensures |s| == 10
  {
    TwoDigits(d.year / 100) + TwoDigits(d.year % 100) + "-" + TwoDigits(d.month) + "-" + TwoDigits(d.day)
  }

  lemma FourDigits(y: nat)
    requires y < 10000
    ensures AllDigits(TwoDigits(y / 100) + TwoDigits(y % 100))
    ensures DigitsValue(TwoDigits(y / 100) + TwoDigits(y % 100)) == y
  {
    var s := TwoDigits(y / 100) + TwoDigits(y % 100);
    var hi := TwoDigits(y / 100);
    assert s[..3] == hi + [s[2]];
    assert s[..2] == hi;
    assert s[..|s| - 1] == s[..3];
    assert DigitsValue(s[..3]) == 10 * DigitsValue(hi) + DigitValue(s[2]);
  }

  /** Every valid date survives formatting and parsing back unchanged. */
  lemma ParseFormatRoundTrip(d: Date)
    requires ValidDate(d)
    ensures ParseDate(FormatDate(d)) == Some(d)
  {
    var s := FormatDate(d);
    FourDigits(d.year);
    assert s[..4] == TwoDigits(d.year / 100) + TwoDigits(d.year % 100);
    var mm := TwoDigits(d.month);
    var dd := TwoDigits(d.day);
    assert s[5..] == mm + "-" + dd;
    assert ParseMonth(s[5..]) == Some((d.month, dd));
    assert ParseDay(dd) == Some(d.day);
  }

  lemma Year2024()
    ensures AllDigits("2024") && DigitsValue("2024") == 2024
  {
    assert DigitsValue("2") == 2;
    assert DigitsValue("20") == 20 by { assert "20"[..1] == "2"; }
    assert DigitsValue("202") == 202 by { assert "202"[..2] == "20"; }
    assert "2024"[..3] == "202";
  }

  lemma YearZero()
    ensures AllDigits("0000") && DigitsValue("0000") == 0
  {
    assert DigitsValue("0") == 0;
    assert DigitsValue("00") == 0 by { assert "00"[..1] == "0"; }
    assert DigitsValue("000") == 0 by { assert "000"[..2] == "00"; }
    assert "0000"[..3] == "000";
  }

  /** `strptime` also takes an unpadded month and day, and a space before a one-digit day. */
  lemma LenientForms()
    ensures ParseDate("2024-6-5") == Some(Date(2024, 6, 5))
    ensures ParseDate("2024-06- 5") == Some(Date(2024, 6, 5))
  {
    Year2024();
    assert "2024-6-5"[..4] == "2024";
    assert "2024-6-5"[5..] == "6-5";
    assert "2024-06- 5"[..4] == "2024";
    assert "2024-06- 5"[5..] == "06- 5";
  }

  /** The date constructor refuses 30 February and year 0; text after the day is refused. */
  lemma RefusedForms()
    ensures ParseDate("2024-02-30") == None
    ensures ParseDate("0000-01-01") == None
    ensures ParseDate("2024-06-051") == None
  {
    Year2024();
    YearZero();
    assert "2024-02-30"[..4] == "2024";
    assert "2024-02-30"[5..] == "02-30";
    assert "0000-01-01"[..4] == "0000";
    assert "0000-01-01"[5..] == "01-01";
    assert "2024-06-051"[5..] == "06-051";
  }
}
