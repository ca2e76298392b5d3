/** The directory name of a date, `get_dir_name_of`: the year as Rust prints
    an `i32`, then `-MM-DD` with month and day zero-padded to two digits.
    Parsing is the exact partial inverse of this renderer. */
module DirName {
  import opened Results
  import opened Dates
  import opened Decimal

  /** `format!("{:02}", n)` for `0 <= n < 100`. */
  function Pad2(n: int): string
    requires 0 <= n < 100
  {
    [DigitChar(n / 10), DigitChar(n % 10)]
  }

  /** The value of two digit characters. */
  function TwoDigits(hi: char, lo: char): int
    requires IsDigit(hi) && IsDigit(lo)
  {
    DigitValue(hi) * 10 + DigitValue(lo)
  }

  /** `format!("{}-{:02}-{:02}", date.year(), date.month(), date.day())`. */
  function Render(d: NaiveDate): string {
    IntToString(d.year) + "-" + Pad2(d.month) + "-" + Pad2(d.day)
  }

  /** The name splits as a year prefix and a fixed six-character suffix
      `-MM-DD`. */
  predicate HasDateSuffix(s: string) {
    && |s| >= 7
    && s[|s| - 6] == '-'
    && IsDigit(s[|s| - 5]) && IsDigit(s[|s| - 4])
    && s[|s| - 3] == '-'
    && IsDigit(s[|s| - 2]) && IsDigit(s[|s| - 1])
  }

  /** Reads a directory name back into the date it names, or `None` when no
      date renders to exactly this name. */
  function Parse(s: string): Option<NaiveDate> {
    if !HasDateSuffix(s) then None
    else
      var n := |s|;
      match ParseInt(s[..n - 6])
      case None => None
      case Some(y) =>
        var d := Date(y, TwoDigits(s[n - 5], s[n - 4]), TwoDigits(s[n - 2], s[n - 1]));
        if Valid(d) then Some(d) else None
  }

  /** Month and day always take exactly two zero-padded digits: the name
      ends in `-MM-DD` and what precedes it is the printed year. */
  lemma RenderShape(d: NaiveDate)
    ensures var s := Render(d);
      && HasDateSuffix(s)
      && s[..|s| - 6] == IntToString(d.year)
      && TwoDigits(s[|s| - 5], s[|s| - 4]) == d.month
      && TwoDigits(s[|s| - 2], s[|s| - 1]) == d.day
  {
    var s := Render(d);
    var y := IntToString(d.year);
    assert s == y + ['-'] + Pad2(d.month) + ['-'] + Pad2(d.day);
    assert s[..|s| - 6] == y;
  }

  /** Parsing a rendered name recovers the date. */
  lemma ParseRender(d: NaiveDate)
    ensures Parse(Render(d)) == Some(d)
  {
    RenderShape(d);
    IntRoundTrip(d.year);
  }

  /** Every name that parses is the rendering of the date it parses to. */
  lemma RenderParse(s: string, d: NaiveDate)
    requires Parse(s) == Some(d)
    ensures Render(d) == s
  {
    var n := |s|;
    var ys := s[..n - 6];
    StringRoundTrip(ys, d.year);
    assert DigitValue(s[n - 5]) == d.month / 10 && DigitValue(s[n - 4]) == d.month % 10;
    assert DigitValue(s[n - 2]) == d.day / 10 && DigitValue(s[n - 1]) == d.day % 10;
    assert Pad2(d.month) == s[n - 5..n - 3];
    assert Pad2(d.day) == s[n - 2..];
    assert s == ys + [s[n - 6]] + s[n - 5..n - 3] + [s[n - 3]] + s[n - 2..];
  }

  /** Parsing characterises rendering: a name parses to `d` exactly when it
      is the rendering of `d`. */
  lemma ParseIffRender(s: string, d: NaiveDate)
    ensures Parse(s) == Some(d) <==> Render(d) == s
  {
    if Parse(s) == Some(d) {
      RenderParse(s, d);
    }
    if Render(d) == s {
      ParseRender(d);
    }
  }

  /** Distinct dates get distinct directory names. */
  lemma RenderInjective(a: NaiveDate, b: NaiveDate)
    ensures Render(a) == Render(b) <==> a == b
  {
    ParseRender(a);
    ParseRender(b);
  }

  /** `get_dir_name_of(1900-01-02)` is `"1900-01-02"`. */
  lemma RenderExample()
    ensures FromYmd(1900, 1, 2).Some?
    ensures Render(FromYmd(1900, 1, 2).value) == "1900-01-02"
  {
    var d := FromYmd(1900, 1, 2).value;
    assert NatToString(1900) == "1900" by {
      assert NatToString(1) == "1";
      assert NatToString(19) == "19";
      assert NatToString(190) == "190";
    }
    assert Pad2(1) == "01" && Pad2(2) == "02";
  }

  /** `full-date` of section 5.6 of RFC 3339: `date-fullyear "-" date-month
      "-" date-mday` with four, two and two digits, a month in 01-12 and a
      day allowed for that month and year (section 5.7 of RFC 3339). */
  predicate IsFullDate(s: string) {
    && |s| == 10
    && IsDigit(s[0]) && IsDigit(s[1]) && IsDigit(s[2]) && IsDigit(s[3])
    && s[4] == '-'
    && IsDigit(s[5]) && IsDigit(s[6])
    && s[7] == '-'
    && IsDigit(s[8]) && IsDigit(s[9])
    && var m := TwoDigits(s[5], s[6]);
    && 1 <= m <= 12
    && 1 <= TwoDigits(s[8], s[9]) <= DaysInMonth(FullYear(s), m)
  }

  /** The value of the four year digits of a `full-date`. */
  function FullYear(s: string): int
    requires |s| >= 4 && IsDigit(s[0]) && IsDigit(s[1]) && IsDigit(s[2]) && IsDigit(s[3])
  {
    TwoDigits(s[0], s[1]) * 100 + TwoDigits(s[2], s[3])
  }

  /** A four-digit year prints as its four digits. */
  lemma FourDigitYear(n: nat)
    requires 1000 <= n <= 9999
    ensures NatToString(n)
      == [DigitChar(n / 1000), DigitChar(n / 100 % 10), DigitChar(n / 10 % 10), DigitChar(n % 10)]
  {
    var a, b, c := n / 10, n / 100, n / 1000;
    assert a / 10 == b && b / 10 == c && 1 <= c < 10 && 10 <= b && 100 <= a;
    assert NatToString(c) == [DigitChar(c)];
    assert NatToString(b) == [DigitChar(c), DigitChar(b % 10)];
    assert NatToString(a) == [DigitChar(c), DigitChar(b % 10), DigitChar(a % 10)];
  }

  /** For years 1000 through 9999 the name is an RFC 3339 `full-date` that
      denotes the same date. */
  lemma RenderIsFullDate(d: NaiveDate)
    requires 1000 <= d.year <= 9999
    ensures var s := Render(d);
      && IsFullDate(s)
      && FullYear(s) == d.year
      && TwoDigits(s[5], s[6]) == d.month
      && TwoDigits(s[8], s[9]) == d.day
  {
    var s := Render(d);
    RenderShape(d);
    FourDigitYear(d.year);
    assert s[..4] == IntToString(d.year);
  }
}
