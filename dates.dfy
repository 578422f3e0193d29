/**
 * Posting dates: the calendar dates a pandas `Timestamp` can hold, their
 * `strftime('%Y%m%d')` text, and the day-first reading of a date text that
 * `pd.to_datetime(text, dayfirst=True)` performs on bank exports.
 */
module Dates {
  import opened Wrappers
  import opened Strings

  datatype Date = Date(year: int, month: int, day: int)

  predicate LeapYear(y: int) {
    y % 4 == 0 && (y % 100 != 0 || y % 400 == 0)
  }

  function DaysInMonth(y: int, m: int): int {
    if m == 2 then (if LeapYear(y) then 29 else 28)
    else if m == 4 || m == 6 || m == 9 || m == 11 then 30
    else 31
  }

  /** Calendar order. */
  predicate NotAfter(a: Date, b: Date) {
    a.year < b.year
    || (a.year == b.year && (a.month < b.month || (a.month == b.month && a.day <= b.day)))
  }

  /** The first and last midnights a nanosecond `Timestamp` can hold. */
  const FirstMidnight := Date(1677, 9, 22)
  const LastMidnight := Date(2262, 4, 11)

  /** A real calendar date within the `Timestamp` range. */
  predicate Valid(d: Date) {
    1 <= d.month <= 12 && 1 <= d.day <= DaysInMonth(d.year, d.month)
    && NotAfter(FirstMidnight, d) && NotAfter(d, LastMidnight)
  }

  /** The date of a pandas `Timestamp`, as a spreadsheet date cell or a parsed text yields it. */
  type Timestamp = d: Date | Valid(d) witness Date(2000, 1, 1)

  /** A number of at most two digits, zero-padded to two (`%m`, `%d`). */
  function TwoDigits(n: nat): (r: string)
    requires n < 100
    ensures |r| == 2 && AllDigits(r) && DigitsValue(r) == n
  {
    assert Pow10(2) == 100;
    NatToStringLength(n, 2);
    PadLeft(NatToString(n), 2)
  }

  /** A year of the `Timestamp` range written with its four digits (`%Y`). */
  function FourDigits(y: nat): (r: string)
    requires 1000 <= y < 10000
    ensures |r| == 4 && AllDigits(r) && DigitsValue(r) == y
  {
    assert Pow10(3) == 1000 && Pow10(4) == 10000;
    NatToStringLength(y, 4);
    NatToStringLength(y, 3);
    NatToString(y)
  }

  /**
   * `strftime('%Y%m%d')`: eight digits whose first four, middle two and
   * last two spell the year, the month and the day.
   */
  function FormatYmd(d: Timestamp): (r: string)
    ensures |r| == 8 && AllDigits(r)
    ensures DigitsValue(r[..4]) == d.year
    ensures DigitsValue(r[4..6]) == d.month
    ensures DigitsValue(r[6..]) == d.day
  {
    var y, m, dd := FourDigits(d.year), TwoDigits(d.month), TwoDigits(d.day);
    var r := y + m + dd;
    assert r[..4] == y && r[4..6] == m && r[6..] == dd;
    r
  }

  /** Two timestamps with the same `%Y%m%d` text are the same date. */
  lemma FormatYmdInjective(a: Timestamp, b: Timestamp)
    requires FormatYmd(a) == FormatYmd(b)
    ensures a == b
  {
  }

  predicate IsDateSeparator(c: char) {
    c == '/' || c == '-' || c == '.'
  }

  /** Length of the run of digits that starts `s`. */
  function LeadingDigits(s: string): (n: nat)
    ensures n <= |s| && AllDigits(s[..n])
    ensures n < |s| ==> !IsDigit(s[n])
  {
    if s != [] && IsDigit(s[0]) then
      var n := 1 + LeadingDigits(s[1..]);
      assert s[..n] == [s[0]] + s[1..][..n - 1];
      n
    else 0
  }

  lemma LeadingDigitsAt(s: string, k: nat)
    requires k < |s| && AllDigits(s[..k]) && !IsDigit(s[k])
    ensures LeadingDigits(s) == k
  {
    var n := LeadingDigits(s);
    assert forall i :: 0 <= i < k ==> IsDigit(s[i]) by {
      forall i | 0 <= i < k
        ensures IsDigit(s[i])
      {
        assert s[..k][i] == s[i];
      }
    }
  }

  /**
   * The day-first reading of a date text, `D/M/YYYY` with one or two digits
   * for day and month and `/`, `-` or `.` (the same one twice) between the
   * parts, surrounding whitespace allowed. No date, or one out of the
   * `Timestamp` range, is the parse error.
   */
  function ParseDayFirst(t: string): Option<Timestamp> {
    var u := Strip(t);
    var a := LeadingDigits(u);
    if 1 <= a <= 2 && a < |u| && IsDateSeparator(u[a]) then
      ParseMonthYear(u[..a], u[a], u[a + 1..])
    else None
  }

  /** The part after the day and its separator: `M<sep>YYYY`. */
  function ParseMonthYear(day: string, sep: char, v: string): Option<Timestamp>
    requires AllDigits(day)
  {
    var b := LeadingDigits(v);
    if 1 <= b <= 2 && b < |v| && v[b] == sep then
      var year := v[b + 1..];
      if |year| == 4 && AllDigits(year) then
        var d := Date(DigitsValue(year), DigitsValue(v[..b]), DigitsValue(day));
        if Valid(d) then Some(d) else None
      else None
    else None
  }

  /** `a/b` */
  function Slashed(a: string, b: string): string {
    a + "/" + b
  }

  /** The day-first text `DD/MM/YYYY` of a date. */
  function DayFirstText(d: Timestamp): string {
    Slashed(TwoDigits(d.day), Slashed(TwoDigits(d.month), FourDigits(d.year)))
  }

  lemma ParseMonthYearOf(d: Timestamp)
    ensures ParseMonthYear(TwoDigits(d.day), '/', Slashed(TwoDigits(d.month), FourDigits(d.year))) == Some(d)
  {
    var m, y := TwoDigits(d.month), FourDigits(d.year);
    var v := Slashed(m, y);
    assert v[..2] == m;
    LeadingDigitsAt(v, 2);
    assert v[3..] == y;
  }

  lemma ParseDayFirstDay(dd: string, v: string)
    requires |dd| == 2 && AllDigits(dd) && |v| > 0 && IsDigit(v[|v| - 1])
    ensures ParseDayFirst(Slashed(dd, v)) == ParseMonthYear(dd, '/', v)
  {
    var t := Slashed(dd, v);
    assert IsDigit(t[0]) && IsDigit(t[|t| - 1]);
    StripTrimmed(t);
    assert t[..2] == dd;
    LeadingDigitsAt(t, 2);
    assert t[3..] == v;
  }

  /** Reading the day-first text of a date gives that date back. */
  lemma DayFirstRoundTrip(d: Timestamp)
    ensures ParseDayFirst(DayFirstText(d)) == Some(d)
  {
    var dd := TwoDigits(d.day);
    var v := Slashed(TwoDigits(d.month), FourDigits(d.year));
    ParseDayFirstDay(dd, v);
    ParseMonthYearOf(d);
  }

  lemma TwoDigitsExample()
    ensures TwoDigits(5) == "05" && TwoDigits(3) == "03"
  {
    assert DigitsValue("05") == 5 by { assert "05"[..1] == "0"; }
    DigitsInjective(TwoDigits(5), "05");
    assert DigitsValue("03") == 3 by { assert "03"[..1] == "0"; }
    DigitsInjective(TwoDigits(3), "03");
  }

  lemma FourDigitsExample()
    ensures FourDigits(2024) == "2024"
  {
    assert DigitsValue("2024") == 2024 by {
      assert "2024"[..3] == "202" && "202"[..2] == "20" && "20"[..1] == "2";
    }
    DigitsInjective(FourDigits(2024), "2024");
  }

  lemma FormatYmdExample()
    ensures FormatYmd(Date(2024, 3, 5)) == "20240305"
  {
    TwoDigitsExample();
    FourDigitsExample();
    var s := "2024" + "03" + "05";
    assert |s| == 8;
    assert forall i :: 0 <= i < 8 ==> s[i] == "20240305"[i];
  }

  /** The text `05/03/2024` is the fifth of March 2024, written `20240305`. */
  lemma DayFirstExample()
    ensures ParseDayFirst("05/03/2024") == Some(Date(2024, 3, 5))
    ensures FormatYmd(Date(2024, 3, 5)) == "20240305"
  {
    var d: Timestamp := Date(2024, 3, 5);
    DayFirstTextExample(d);
    DayFirstRoundTrip(d);
    FormatYmdExample();
  }

  lemma DayFirstTextExample(d: Timestamp)
    requires d == Date(2024, 3, 5)
    ensures DayFirstText(d) == "05/03/2024"
  {
    TwoDigitsExample();
    FourDigitsExample();
    SlashedExample();
  }

  lemma SlashedExample()
    ensures Slashed("05", Slashed("03", "2024")) == "05/03/2024"
  {
    var s := Slashed("05", Slashed("03", "2024"));
    assert |s| == 10;
    assert forall i :: 0 <= i < 10 ==> s[i] == "05/03/2024"[i];
  }
}
