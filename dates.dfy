/**
 * `formatDate` of the front end's utilities: a timestamp rendered as
 * `YYYY-MM-DD HH:MM` in UTC. Parsing the ISO 8601 text is the work of the
 * JavaScript `Date` object and is not modelled: the formatter receives the
 * UTC components that `Date` would report, or nothing when the text did not
 * parse (every getter of an invalid `Date` returns `NaN`).
 */
module Dates {
  import opened Records
  import opened Strings

  /** The UTC components of a valid `Date`; `month` is 0-based, as `getUTCMonth` returns it. */
  datatype UtcParts = UtcParts(year: int, month: nat, day: nat, hours: nat, minutes: nat,
                               seconds: nat, millis: nat)

  /** A JavaScript number as far as this formatter sees it. */
  datatype Number = NaN | Int(i: int)

  /** The ranges `Date` guarantees for its UTC getters. */
  predicate ValidParts(p: UtcParts)
  {
    p.month < 12 && 1 <= p.day <= 31 && p.hours < 24 && p.minutes < 60
  }

  function DigitChar(n: nat): (c: char)
    requires n < 10
    ensures IsDigit(c)
  {
    ('0' as int + n) as char
  }

  function DigitValue(c: char): int
  {
    c as int - '0' as int
  }

  /** The decimal digits of `n`, without leading zeros. */
  function Decimal(n: nat): (r: string)
    ensures |r| >= 1
    ensures forall k :: 0 <= k < |r| ==> IsDigit(r[k])
  {
    if n < 10 then [DigitChar(n)] else Decimal(n / 10) + [DigitChar(n % 10)]
  }

  /** `String(x)` for the numbers the formatter meets. */
  function NumberText(x: Number): string
  {
    match x
    case NaN => "NaN"
    case Int(i) => if i < 0 then "-" + Decimal(-i) else Decimal(i)
  }

  /** `s.slice(-2)`: the last two characters, or all of a shorter string. */
  function LastTwo(s: string): (r: string)
    ensures |s| >= 2 ==> |r| == 2
  {
    if |s| <= 2 then s else s[|s| - 2..]
  }

  /** `('0' + x).slice(-2)` */
  function Pad2(x: Number): string
  {
    LastTwo("0" + NumberText(x))
  }

  function Plus1(x: Number): Number
  {
    match x
    case NaN => NaN
    case Int(i) => Int(i + 1)
  }

  /** `formatDate(timestamp)`, given what `new Date(timestamp)` reports. */
  function FormatDate(t: Option<UtcParts>): string
  {
    var (y, mo, d, h, mi) := match t
      case None => (NaN, NaN, NaN, NaN, NaN)
      case Some(p) => (Int(p.year), Int(p.month), Int(p.day), Int(p.hours), Int(p.minutes));
    NumberText(y) + "-" + Pad2(Plus1(mo)) + "-" + Pad2(d) + " " + Pad2(h) + ":" + Pad2(mi)
  }

  /** The value of a string of decimal digits. */
  function ParseDecimal(s: string): int
  {
    if |s| == 0 then 0 else ParseDecimal(s[..|s| - 1]) * 10 + DigitValue(s[|s| - 1])
  }

  /**
   * Reads `(year, month, day, hours, minutes)` back from a formatted date with
   * a non-negative year: the last twelve characters always hold
   * `-MM-DD HH:MM`, and whatever precedes them is the year.
   */
  function ParseFormatted(s: string): (r: Option<(int, int, int, int, int)>)
    ensures r.Some? ==> |s| >= 13
  {
    if |s| < 13 then None
    else
      var n := |s| - 12;
      Some((ParseDecimal(s[..n]), ParseDecimal(s[n + 1..n + 3]), ParseDecimal(s[n + 4..n + 6]),
            ParseDecimal(s[n + 7..n + 9]), ParseDecimal(s[n + 10..n + 12])))
  }

  // ---------------------------------------------------------------------
  // Properties
  // ---------------------------------------------------------------------

  /** Reading the decimal digits of `n` back gives `n`. */
  lemma {:induction false} DecimalRoundTrip(n: nat)
    ensures ParseDecimal(Decimal(n)) == n
  {
    if n >= 10 {
      var s := Decimal(n);
      assert s[..|s| - 1] == Decimal(n / 10);
      DecimalRoundTrip(n / 10);
    }
  }

  /** A value below 100 renders as exactly its two decimal digits, with a leading zero below 10. */
  lemma Pad2Digits(n: nat)
    requires n < 100
    ensures Pad2(Int(n)) == [DigitChar(n / 10), DigitChar(n % 10)]
  {
    if n < 10 {
      assert Decimal(n) == [DigitChar(n)];
    } else {
      assert Decimal(n / 10) == [DigitChar(n / 10)];
      assert Decimal(n) == [DigitChar(n / 10), DigitChar(n % 10)];
      assert "0" + NumberText(Int(n)) == ['0', DigitChar(n / 10), DigitChar(n % 10)];
    }
  }

  /** Reading a padded two-digit value back gives the value. */
  lemma Pad2RoundTrip(n: nat)
    requires n < 100
    ensures |Pad2(Int(n))| == 2 && ParseDecimal(Pad2(Int(n))) == n
  {
    Pad2Digits(n);
    var s := Pad2(Int(n));
    assert s[..1] == [DigitChar(n / 10)];
    assert ParseDecimal(s[..1]) == n / 10;
  }

  /** A four-digit year renders as four characters. */
  lemma FourDigitYear(y: int)
    requires 1000 <= y <= 9999
    ensures |NumberText(Int(y))| == 4
  {
    assert Decimal(y / 1000) == [DigitChar(y / 1000)];
    assert |Decimal(y / 100)| == 2;
    assert |Decimal(y / 10)| == 3;
  }

  /** Where the pieces of `y-aa-bb cc:dd` sit, for any two-character pieces. */
  lemma Layout(y: string, a: string, b: string, c: string, d: string)
    requires |a| == 2 && |b| == 2 && |c| == 2 && |d| == 2
    ensures var s := y + "-" + a + "-" + b + " " + c + ":" + d;
      var n := |y|;
      |s| == n + 12 && s[..n] == y &&
      s[n] == '-' && s[n + 1..n + 3] == a &&
      s[n + 3] == '-' && s[n + 4..n + 6] == b &&
      s[n + 6] == ' ' && s[n + 7..n + 9] == c &&
      s[n + 9] == ':' && s[n + 10..n + 12] == d
  {
  }

  /**
   * The layout of the output: year, '-', two-digit month (the 0-based month
   * plus one), '-', two-digit day, ' ', two-digit hour, ':', two-digit minute.
   */
  lemma FormatLayout(p: UtcParts)
    requires ValidParts(p)
    ensures var s := FormatDate(Some(p));
      var n := |NumberText(Int(p.year))|;
      |s| == n + 12 &&
      s[..n] == NumberText(Int(p.year)) &&
      s[n] == '-' && s[n + 1..n + 3] == Pad2(Int(p.month + 1)) &&
      s[n + 3] == '-' && s[n + 4..n + 6] == Pad2(Int(p.day)) &&
      s[n + 6] == ' ' && s[n + 7..n + 9] == Pad2(Int(p.hours)) &&
      s[n + 9] == ':' && s[n + 10..n + 12] == Pad2(Int(p.minutes))
  {
    Pad2Digits(p.month + 1);
    Pad2Digits(p.day);
    Pad2Digits(p.hours);
    Pad2Digits(p.minutes);
    Layout(NumberText(Int(p.year)), Pad2(Int(p.month + 1)), Pad2(Int(p.day)),
           Pad2(Int(p.hours)), Pad2(Int(p.minutes)));
  }

  /** With a four-digit year the result is 16 characters with separators at 4, 7, 10 and 13. */
  lemma FormatFourDigitYear(p: UtcParts)
    requires ValidParts(p) && 1000 <= p.year <= 9999
    ensures var s := FormatDate(Some(p));
      |s| == 16 && s[4] == '-' && s[7] == '-' && s[10] == ' ' && s[13] == ':'
  {
    FourDigitYear(p.year);
    FormatLayout(p);
  }

  /** Every component is recovered from the formatted text: the month as 1..12. */
  lemma FormatRoundTrip(p: UtcParts)
    requires ValidParts(p) && p.year >= 0
    ensures ParseFormatted(FormatDate(Some(p))) ==
      Some((p.year, p.month + 1, p.day, p.hours, p.minutes))
  {
    var s := FormatDate(Some(p));
    FormatLayout(p);
    DecimalRoundTrip(p.year);
    Pad2RoundTrip(p.month + 1);
    Pad2RoundTrip(p.day);
    Pad2RoundTrip(p.hours);
    Pad2RoundTrip(p.minutes);
  }

  /** Distinct (year, month, day, hour, minute) give distinct texts. */
  lemma FormatInjective(p: UtcParts, q: UtcParts)
    requires ValidParts(p) && ValidParts(q) && p.year >= 0 && q.year >= 0
    requires FormatDate(Some(p)) == FormatDate(Some(q))
    ensures p.year == q.year && p.month == q.month && p.day == q.day
    ensures p.hours == q.hours && p.minutes == q.minutes
  {
    FormatRoundTrip(p);
    FormatRoundTrip(q);
  }

  /** Seconds and milliseconds never reach the output. */
  lemma FormatIgnoresSeconds(p: UtcParts, seconds: nat, millis: nat)
    ensures FormatDate(Some(p)) == FormatDate(Some(p.(seconds := seconds, millis := millis)))
  {
  }

  /** `2024-03-05T14:07:00Z` formats as `2024-03-05 14:07`. */
  lemma FormatExample()
    ensures FormatDate(Some(UtcParts(2024, 2, 5, 14, 7, 0, 0))) == "2024-03-05 14:07"
  {
    assert Pad2(Int(3)) == "03" by { Pad2Digits(3); }
    assert Pad2(Int(5)) == "05" by { Pad2Digits(5); }
    assert Pad2(Int(14)) == "14" by { Pad2Digits(14); }
    assert Pad2(Int(7)) == "07" by { Pad2Digits(7); }
    assert NumberText(Int(2024)) == "2024" by {
      assert Decimal(2) == "2";
      assert Decimal(20) == "20";
      assert Decimal(202) == "202";
    }
  }

  /** An unparseable timestamp shows JavaScript's `NaN` rendering. */
  lemma FormatInvalid()
    ensures FormatDate(None) == "NaN-aN-aN aN:aN"
  {
  }
}
