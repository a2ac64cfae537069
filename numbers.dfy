/** The locale number and date normalisers of the report analyser
    (`clean_number`, `parse_date` and `format_number` in krm.py). Amounts are
    exact reals; Python's `float()` and `int()` are modelled on the grammar
    the report cells use: an optional sign, decimal digits and an optional
    fractional part. */
module Numbers {
  import opened Text

  /** A table cell as the PDF table extractor yields it: text or None. */
  type Cell = Option<string>

  // ---------------------------------------------------------------------
  // clean_number

  /** The text `clean_number` hands to `float()`: newlines removed, every '.'
      (the thousands separator) deleted, ',' (the decimal comma) turned into '.'. */
  function NormalizeAmountText(s: string): (r: string)
    ensures CountChar(r, '\n') == 0 && CountChar(r, ',') == 0
  {
    var a := ReplaceAll(s, "\n", "");
    var b := ReplaceAll(a, ".", "");
    ReplaceCharCount(s, '\n', [], '\n');
    ReplaceCharCount(a, '.', [], '\n');
    ReplaceCharCount(b, ',', ".", '\n');
    ReplaceCharCount(b, ',', ".", ',');
    ReplaceAll(b, ",", ".")
  }

  /** The value of digits `whole`, a point, and digits `frac`. */
  function FixedPointValue(whole: string, frac: string): real
    requires AllDigits(whole) && AllDigits(frac)
  {
    DigitsValue(whole) as real + DigitsValue(frac) as real / Pow10(|frac|) as real
  }

  /** `float()` on a text without sign: digits, optionally a '.' and more
      digits, at least one digit in all. */
  function ParseUnsigned(body: string): (r: Option<real>)
    ensures r.Some? ==> body != [] && r.value >= 0.0
  {
    var parts := Split(body, '.');
    if |parts| > 2 then None
    else
      var whole := parts[0];
      var frac := if |parts| == 2 then parts[1] else [];
      if !AllDigits(whole) || !AllDigits(frac) || (whole == [] && frac == []) then None
      else Some(FixedPointValue(whole, frac))
  }

  /** `float(t)` on an optional sign followed by what `ParseUnsigned` reads;
      anything else is a parse failure. */
  function ParseDecimal(t: string): (r: Option<real>)
    ensures r.Some? ==> t != [] && (r.value < 0.0 ==> t[0] == '-')
  {
    if |t| > 0 && t[0] == '-' then
      match ParseUnsigned(t[1..])
      case Some(v) => Some(-v)
      case None => None
    else if |t| > 0 && t[0] == '+' then ParseUnsigned(t[1..])
    else ParseUnsigned(t)
  }

  /** `clean_number`: None, the empty text and "0" give 0.0; otherwise the
      normalised text is parsed, and a parse failure gives 0.0 (fail-open,
      never an error). */
  function CleanNumber(value: Cell): (r: real)
    ensures value.None? || value == Some("") || value == Some("0") ==> r == 0.0
    ensures r != 0.0 ==> value.Some? && ParseDecimal(NormalizeAmountText(value.value)) == Some(r)
  {
    if value.None? || value.value == "" || value.value == "0" then 0.0
    else
      match ParseDecimal(NormalizeAmountText(value.value))
      case Some(v) => v
      case None => 0.0
  }

  // ---------------------------------------------------------------------
  // format_number

  /** `n` in decimal with '.' between groups of three digits. */
  function GroupThousands(n: nat): (r: string)
    ensures r != [] && IsDigit(r[0])
    decreases n
  {
    if n < 1000 then NatToDigits(n) else GroupThousands(n / 1000) + "." + PadDigits(n % 1000, 3)
  }

  /** `format_number` on an integer amount: `f"{n:,.0f}"` with ',' turned into '.'. */
  function FormatNumber(n: int): (r: string)
    ensures r != [] && (r[0] == '-' <==> n < 0)
    ensures n < 0 ==> |r| >= 2 && IsDigit(r[1])
  {
    if n < 0 then "-" + GroupThousands(-n) else GroupThousands(n)
  }

  /** A grouped number is made of digits and group points only. */
  lemma {:induction false} GroupedChars(n: nat)
    ensures forall i :: 0 <= i < |GroupThousands(n)| ==> IsDigit(GroupThousands(n)[i]) || GroupThousands(n)[i] == '.'
    decreases n
  {
    if n >= 1000 {
      GroupedChars(n / 1000);
      var g, p := GroupThousands(n / 1000), PadDigits(n % 1000, 3);
      assert GroupThousands(n) == g + "." + p;
      assert forall i :: 0 <= i < |p| ==> IsDigit(p[i]);
    }
  }

  /** Deleting the group separators of a grouped number leaves its digits. */
  lemma {:induction false} UngroupedDigits(n: nat)
    ensures '\n' !in GroupThousands(n) && ',' !in GroupThousands(n)
    ensures var d := ReplaceAll(GroupThousands(n), ".", "");
            d != [] && AllDigits(d) && DigitsValue(d) == n
    decreases n
  {
    GroupedChars(n);
    if n >= 1000 {
      UngroupedDigits(n / 1000);
      UngroupedStep(n);
    } else {
      var s := NatToDigits(n);
      assert forall i :: 0 <= i < |s| ==> IsDigit(s[i]);
      MissingCharNotContained(s, ".", '.');
      ReplaceAbsent(s, ".", "");
    }
  }

  /** `UngroupedDigits` for one more group of three digits. */
  lemma UngroupedStep(n: nat)
    requires n >= 1000
    requires var d := ReplaceAll(GroupThousands(n / 1000), ".", "");
             d != [] && AllDigits(d) && DigitsValue(d) == n / 1000
    ensures var d := ReplaceAll(GroupThousands(n), ".", "");
            d != [] && AllDigits(d) && DigitsValue(d) == n
  {
    var g := GroupThousands(n / 1000);
    var p := PadDigits(n % 1000, 3);
    ReplaceCharAppend(g + ".", p, '.', "");
    ReplaceCharAppend(g, ".", '.', "");
    assert !Contains(p, ".") by { MissingCharNotContained(p, ".", '.'); }
    ReplaceAbsent(p, ".", "");
    assert ReplaceAll(".", ".", "") == "";
    var dg := ReplaceAll(g, ".", "");
    assert ReplaceAll(GroupThousands(n), ".", "") == dg + p;
    DigitsValueAppend(dg, p);
    assert Pow10(|p|) == 1000 by {
      assert Pow10(3) == 10 * Pow10(2) && Pow10(2) == 10 * Pow10(1) && Pow10(1) == 10;
    }
    assert (n / 1000) * 1000 + n % 1000 == n;
  }

  /** A digit string, signed or not, parses to the number it denotes. */
  lemma ParseDecimalOfDigits(d: string, negative: bool)
    requires d != [] && AllDigits(d)
    ensures ParseDecimal(if negative then "-" + d else d) ==
            Some(if negative then -(DigitsValue(d) as real) else DigitsValue(d) as real)
  {
    ParseUnsignedOfDigits(d);
    if negative {
      ParseNegative(d);
    } else {
      assert IsDigit(d[0]);
      ParseUnsignedAlone(d);
    }
  }

  lemma ParseNegative(d: string)
    requires d != [] && ParseUnsigned(d).Some?
    ensures ParseDecimal("-" + d) == Some(-ParseUnsigned(d).value)
  {
    var t := "-" + d;
    assert t[0] == '-' && t[1..] == d;
  }

  lemma ParseUnsignedAlone(d: string)
    requires d != [] && IsDigit(d[0])
    ensures ParseDecimal(d) == ParseUnsigned(d)
  {
  }

  /** A digit string without a point reads as its value. */
  lemma ParseUnsignedOfDigits(d: string)
    requires d != [] && AllDigits(d)
    ensures ParseUnsigned(d) == Some(DigitsValue(d) as real)
  {
    DigitsHaveNoSlashOrDot(d);
    SplitWithoutSep(d, '.');
    assert Pow10(0) == 1;
    assert FixedPointValue(d, []) == DigitsValue(d) as real;
  }

  /** Normalising a formatted integer leaves its sign and its digits. */
  lemma NormalizeFormatted(n: int)
    ensures var d := ReplaceAll(GroupThousands(if n < 0 then -n else n), ".", "");
            NormalizeAmountText(FormatNumber(n)) == (if n < 0 then "-" + d else d)
  {
    var m := if n < 0 then -n else n;
    UngroupedDigits(m);
    var g := GroupThousands(m);
    var s := FormatNumber(n);
    var d := ReplaceAll(g, ".", "");
    assert '\n' !in s;
    MissingCharNotContained(s, "\n", '\n');
    ReplaceAbsent(s, "\n", "");
    var t := if n < 0 then "-" + d else d;
    if n < 0 {
      ReplaceCharAppend("-", g, '.', "");
      assert ReplaceAll("-", ".", "") == "-";
    }
    assert ReplaceAll(s, ".", "") == t;
    DigitsHaveNoSlashOrDot(d);
    assert ',' !in t;
    MissingCharNotContained(t, ",", ',');
    ReplaceAbsent(t, ",", ".");
  }

  /** `clean_number` reads back what `format_number` writes, for every integer amount. */
  lemma FormatNumberRoundTrip(n: int)
    ensures CleanNumber(Some(FormatNumber(n))) == n as real
  {
    var m := if n < 0 then -n else n;
    UngroupedDigits(m);
    NormalizeFormatted(n);
    ParseDecimalOfDigits(ReplaceAll(GroupThousands(m), ".", ""), n < 0);
    if FormatNumber(n) == "0" {
      assert n == 0;
    }
  }

  /** Normalising a grouped number with a decimal comma leaves its digits,
      a point and the fraction digits. */
  lemma NormalizeDecimalComma(n: nat, f: string)
    requires AllDigits(f)
    ensures NormalizeAmountText(GroupThousands(n) + "," + f) ==
            ReplaceAll(GroupThousands(n), ".", "") + "." + f
  {
    UngroupedDigits(n);
    DigitsHaveNoSlashOrDot(f);
    var g := GroupThousands(n);
    var d := ReplaceAll(g, ".", "");
    DigitsHaveNoSlashOrDot(d);
    var s := g + "," + f;
    assert ReplaceAll(s, "\n", "") == s by {
      assert '\n' !in s;
      MissingCharNotContained(s, "\n", '\n');
      ReplaceAbsent(s, "\n", "");
    }
    assert ReplaceAll(s, ".", "") == d + "," + f by {
      ReplaceCharAppend(g + ",", f, '.', "");
      ReplaceCharAppend(g, ",", '.', "");
      assert ReplaceAll(",", ".", "") == ",";
      MissingCharNotContained(f, ".", '.');
      ReplaceAbsent(f, ".", "");
    }
    assert ReplaceAll(d + "," + f, ",", ".") == d + "." + f by {
      ReplaceCharAppend(d + ",", f, ',', ".");
      ReplaceCharAppend(d, ",", ',', ".");
      assert ReplaceAll(",", ",", ".") == ".";
      MissingCharNotContained(d, ",", ',');
      ReplaceAbsent(d, ",", ".");
      MissingCharNotContained(f, ",", ',');
      ReplaceAbsent(f, ",", ".");
    }
  }

  /** Digits, a point and fraction digits parse to the number they denote. */
  lemma ParseDecimalPoint(d: string, f: string)
    requires d != [] && AllDigits(d) && AllDigits(f)
    ensures ParseDecimal(d + "." + f) == Some(FixedPointValue(d, f))
  {
    DigitsHaveNoSlashOrDot(d);
    DigitsHaveNoSlashOrDot(f);
    var t := d + "." + f;
    SplitAtFirst(d, f, '.');
    SplitWithoutSep(f, '.');
    assert Split(t, '.') == [d, f];
    assert ParseUnsigned(t) == Some(FixedPointValue(d, f));
    assert IsDigit(d[0]) && t[0] == d[0];
  }

  /** A number written with '.' between thousands and a decimal comma before
      its fraction digits comes out as the number it denotes. */
  lemma CleanNumberDecimalComma(n: nat, f: string)
    requires AllDigits(f)
    ensures CleanNumber(Some(GroupThousands(n) + "," + f)) ==
            n as real + DigitsValue(f) as real / Pow10(|f|) as real
  {
    UngroupedDigits(n);
    NormalizeDecimalComma(n, f);
    ParseDecimalPoint(ReplaceAll(GroupThousands(n), ".", ""), f);
  }

  /** After normalisation the points are exactly the former decimal commas. */
  lemma NormalizedPointsAreCommas(s: string)
    ensures CountChar(NormalizeAmountText(s), '.') == CountChar(s, ',')
  {
    var a := ReplaceAll(s, ['\n'], []);
    var b := ReplaceAll(a, ['.'], []);
    assert CountChar([], ',') == 0 && CountChar([], '.') == 0;
    assert CountChar(['.'], '.') == 1;
    assert CountChar(a, ',') == CountChar(s, ',') by {
      ReplaceCharCount(s, '\n', [], ',');
    }
    assert CountChar(b, ',') == CountChar(s, ',') by {
      ReplaceCharCount(a, '.', [], ',');
    }
    assert CountChar(b, '.') == 0 by {
      ReplaceCharCount(a, '.', [], '.');
    }
    assert CountChar(ReplaceAll(b, [','], ['.']), '.') == CountChar(s, ',') by {
      ReplaceCharCount(b, ',', ['.'], '.');
    }
  }

  /** A text with two or more points is not a number. */
  lemma ManyPointsDoNotParse(t: string)
    requires CountChar(t, '.') >= 2
    ensures ParseDecimal(t).None?
  {
    var body := if |t| > 0 && (t[0] == '-' || t[0] == '+') then t[1..] else t;
    if |t| > 0 && (t[0] == '-' || t[0] == '+') {
      assert t == [t[0]] + body;
      CountCharAppend([t[0]], body, '.');
    }
    SplitCount(body, '.');
  }

  /** Two or more decimal commas leave two or more points for `float()`,
      which fails, so the amount is 0. */
  lemma TwoDecimalCommasGiveZero(s: string)
    requires CountChar(s, ',') >= 2
    ensures CleanNumber(Some(s)) == 0.0
  {
    NormalizedPointsAreCommas(s);
    ManyPointsDoNotParse(NormalizeAmountText(s));
    assert s != "0" && s != "";
  }

  /** The example of the report format, grouped thousands with a decimal
      comma: the text of `GroupedExampleText`, "1.234.567,89", reads as 1234567.89. */
  lemma CleanNumberGroupedExample(n: nat, f: string)
    requires n == 1234567 && f == "89"
    ensures CleanNumber(Some(GroupThousands(n) + "," + f)) == 1234567.89
  {
    EightyNine(f);
    CleanNumberDecimalComma(n, f);
    HundredthsExample(n, DigitsValue(f), Pow10(|f|));
  }

  lemma HundredthsExample(n: nat, x: nat, p: nat)
    requires n == 1234567 && x == 89 && p == 100
    ensures n as real + x as real / p as real == 1234567.89
  {
  }

  lemma EightyNine(f: string)
    requires f == "89"
    ensures AllDigits(f) && DigitsValue(f) == 89 && Pow10(|f|) == 100
  {
    assert IsDigit(f[0]) && IsDigit(f[1]);
    assert f[..1][..0] == [];
    assert DigitsValue(f[..1]) == 8;
    assert Pow10(1) == 10;
  }

  lemma GroupedExampleText(n: nat, f: string)
    requires n == 1234567 && f == "89"
    ensures GroupThousands(n) + "," + f == "1.234.567,89"
  {
    var g := GroupThousands(n);
    GroupedThousandsExample(n / 1000);
    GroupStep(n);
    PadThree(n % 1000, 5, 6, 7);
    DigitCharExamples();
    JoinGroups("1.234", "567", g);
    JoinDecimals(g, f);
  }

  /** The first two groups of the example: 1234 is written "1.234". */
  lemma GroupedThousandsExample(m: nat)
    requires m == 1234
    ensures GroupThousands(m) == "1.234"
  {
    GroupStep(m);
    assert m / 1000 == 1 && m % 1000 == 234;
    DigitCharExamples();
    assert GroupThousands(m / 1000) == "1";
    PadThree(m % 1000, 2, 3, 4);
    JoinGroups("1", "234", GroupThousands(m));
  }

  lemma JoinGroups(a: string, b: string, g: string)
    requires g == a + "." + b
    ensures a == "1" && b == "234" ==> g == "1.234"
    ensures a == "1.234" && b == "567" ==> g == "1.234.567"
  {
  }

  lemma JoinDecimals(g: string, f: string)
    requires g == "1.234.567" && f == "89"
    ensures g + "," + f == "1.234.567,89"
  {
  }

  lemma DigitCharExamples()
    ensures DigitChar(1) == '1' && DigitChar(2) == '2' && DigitChar(3) == '3' && DigitChar(4) == '4'
    ensures DigitChar(5) == '5' && DigitChar(6) == '6' && DigitChar(7) == '7'
  {
  }

  lemma GroupStep(n: nat)
    requires n >= 1000
    ensures GroupThousands(n) == GroupThousands(n / 1000) + "." + PadDigits(n % 1000, 3)
  {
  }

  /** The three-digit group of `100 a + 10 b + c`. */
  lemma PadThree(n: nat, a: nat, b: nat, c: nat)
    requires a < 10 && b < 10 && c < 10 && n == 100 * a + 10 * b + c
    ensures PadDigits(n, 3) == [DigitChar(a), DigitChar(b), DigitChar(c)]
  {
    assert n / 10 == 10 * a + b && n % 10 == c;
    assert (n / 10) / 10 == a && (n / 10) % 10 == b;
    assert a / 10 == 0 && a % 10 == a;
    assert PadDigits(a, 1) == [] + [DigitChar(a)];
  }

  /** A text with two decimal commas does not parse and reads as 0. */
  lemma CleanNumberTwoCommasExample()
    ensures CleanNumber(Some("1,2,3")) == 0.0
  {
    assert CountChar("1,2,3", ',') == 2;
    TwoDecimalCommasGiveZero("1,2,3");
  }

  /** Decimal digits are none of the separators the normalisers look for. */
  lemma DigitsHaveNoSlashOrDot(a: string)
    requires AllDigits(a)
    ensures '/' !in a && '.' !in a && ',' !in a && '\n' !in a
  {
    forall i | 0 <= i < |a| ensures a[i] != '/' && a[i] != '.' && a[i] != ',' && a[i] != '\n' {
      assert IsDigit(a[i]);
    }
  }

  // ---------------------------------------------------------------------
  // parse_date

  /** A calendar date; `ValidDate` is what Python's `datetime` constructor accepts. */
  datatype Date = Date(year: int, month: int, day: int)

  predicate IsLeapYear(y: int)
  {
    y % 4 == 0 && (y % 100 != 0 || y % 400 == 0)
  }

  function DaysInMonth(y: int, m: int): nat
    requires 1 <= m <= 12
  {
    if m == 2 then (if IsLeapYear(y) then 29 else 28)
    else if m == 4 || m == 6 || m == 9 || m == 11 then 30
    else 31
  }

  predicate ValidDate(d: Date)
  {
    1 <= d.year <= 9999 && 1 <= d.month <= 12 && 1 <= d.day <= DaysInMonth(d.year, d.month)
  }

  /** A date with a time of day (microseconds since midnight), as Python's `datetime`. */
  datatype DateTime = DateTime(date: Date, microsecond: nat)

  predicate DateBefore(a: Date, b: Date)
  {
    a.year < b.year || (a.year == b.year && (a.month < b.month || (a.month == b.month && a.day < b.day)))
  }

  /** The order of `datetime` values. */
  predicate Before(a: DateTime, b: DateTime)
  {
    DateBefore(a.date, b.date) || (a.date == b.date && a.microsecond < b.microsecond)
  }

  /** The instant a parsed date stands for: its midnight. */
  function Midnight(d: Date): DateTime
  {
    DateTime(d, 0)
  }

  /** `max(a, b)` of two dates. */
  function LaterDate(a: Date, b: Date): (r: Date)
    ensures r == a || r == b
    ensures !DateBefore(r, a) && !DateBefore(r, b)
  {
    if DateBefore(a, b) then b else a
  }

  /** `int(s)` on a non-empty string of decimal digits. */
  function ParseInt(s: string): (r: Option<nat>)
    ensures r.Some? <==> s != [] && AllDigits(s)
  {
    if s != [] && AllDigits(s) then Some(DigitsValue(s)) else None
  }

  /** The year of `parse_date`: two digits y mean 2000 + y below 50 and 1900 + y
      otherwise; any other width is read as written. */
  function ExpandYear(s: string): (r: Option<int>)
    ensures |s| == 2 && r.Some? ==> 1950 <= r.value <= 2049
    ensures |s| != 2 ==> r == ParseInt(s)
  {
    match ParseInt(s)
    case None => None
    case Some(y) =>
      if |s| == 2 then
        DigitsValueBound(s);
        Some(if y < 50 then 2000 + y else 1900 + y)
      else Some(y)
  }

  /** `parse_date`: `dd/mm/yy` or `dd/mm/yyyy`; None for an empty cell, for a
      text that does not split on '/' into exactly three parts, for a
      non-numeric part and for an impossible calendar date. */
  function ParseDate(raw: Cell): (r: Option<Date>)
    ensures r.Some? ==> ValidDate(r.value)
    ensures raw.None? || raw == Some("") ==> r.None?
    ensures raw.Some? && |Split(Strip(raw.value), '/')| != 3 ==> r.None?
    ensures r.Some? ==> var parts := Split(Strip(raw.value), '/');
              ParseInt(parts[0]) == Some(r.value.day) && ParseInt(parts[1]) == Some(r.value.month) &&
              ExpandYear(parts[2]) == Some(r.value.year)
  {
    if raw.None? || raw.value == "" then None
    else
      var parts := Split(Strip(raw.value), '/');
      if |parts| != 3 then None
      else
        match (ExpandYear(parts[2]), ParseInt(parts[1]), ParseInt(parts[0]))
        case (Some(y), Some(m), Some(d)) =>
          if ValidDate(Date(y, m, d)) then Some(Date(y, m, d)) else None
        case _ => None
  }

  /** Splitting `a/b/c` for three digit strings. */
  lemma SplitThreeDigitParts(a: string, b: string, c: string)
    requires AllDigits(a) && AllDigits(b) && AllDigits(c) && c != []
    ensures Strip(a + "/" + b + "/" + c) == a + "/" + b + "/" + c
    ensures Split(a + "/" + b + "/" + c, '/') == [a, b, c]
  {
    StripDigitParts(a, b, c);
    SplitDigitParts(a, b, c);
  }

  lemma StripDigitParts(a: string, b: string, c: string)
    requires AllDigits(a) && c != [] && AllDigits(c)
    ensures Strip(a + "/" + b + "/" + c) == a + "/" + b + "/" + c
  {
    var s := a + "/" + b + "/" + c;
    assert s[|s| - 1] == c[|c| - 1];
    assert IsDigit(c[|c| - 1]);
    assert s[0] == (if a == [] then '/' else a[0]);
    StripUntrimmed(s, None);
  }

  lemma SplitDigitParts(a: string, b: string, c: string)
    requires AllDigits(a) && AllDigits(b) && AllDigits(c)
    ensures Split(a + "/" + b + "/" + c, '/') == [a, b, c]
  {
    DigitsHaveNoSlashOrDot(a);
    DigitsHaveNoSlashOrDot(b);
    DigitsHaveNoSlashOrDot(c);
    var bc := b + ['/'] + c;
    assert a + "/" + b + "/" + c == a + ['/'] + bc;
    SplitAtFirst(a, bc, '/');
    SplitAtFirst(b, c, '/');
    SplitWithoutSep(c, '/');
  }

  /** Every valid date written `dd/mm/yyyy` parses back to itself. */
  lemma ParseDateRoundTrip(d: Date)
    requires ValidDate(d)
    ensures ParseDate(Some(PadDigits(d.day, 2) + "/" + PadDigits(d.month, 2) + "/" + PadDigits(d.year, 4))) == Some(d)
  {
    var a, b, c := PadDigits(d.day, 2), PadDigits(d.month, 2), PadDigits(d.year, 4);
    SplitThreeDigitParts(a, b, c);
  }

  /** A valid date from 1950 to 2049 written `dd/mm/yy` parses back to itself. */
  lemma ParseDateTwoDigitYearRoundTrip(d: Date)
    requires ValidDate(d) && 1950 <= d.year <= 2049
    ensures ParseDate(Some(PadDigits(d.day, 2) + "/" + PadDigits(d.month, 2) + "/" + PadDigits(d.year % 100, 2))) == Some(d)
  {
    var a, b, c := PadDigits(d.day, 2), PadDigits(d.month, 2), PadDigits(d.year % 100, 2);
    SplitThreeDigitParts(a, b, c);
    TwoDigitYearExpands(d.year);
    assert ParseInt(a) == Some(d.day) && ParseInt(b) == Some(d.month);
  }

  /** The last two digits of a year from 1950 to 2049 expand back to that year. */
  lemma TwoDigitYearExpands(year: int)
    requires 1950 <= year <= 2049
    ensures ExpandYear(PadDigits(year % 100, 2)) == Some(year)
  {
    CenturyOf(year);
    ExpandTwoDigits(year % 100);
  }

  /** The century a two-digit year lands in. */
  lemma CenturyOf(year: int)
    requires 1950 <= year <= 2049
    ensures year % 100 < 50 ==> year == 2000 + year % 100
    ensures year % 100 >= 50 ==> year == 1900 + year % 100
  {
    if year < 2000 {
      assert year % 100 == year - 1900;
    } else {
      assert year % 100 == year - 2000;
    }
  }

  lemma ExpandTwoDigits(v: nat)
    requires v < 100
    ensures ExpandYear(PadDigits(v, 2)) == Some(if v < 50 then 2000 + v else 1900 + v)
  {
    assert ParseInt(PadDigits(v, 2)) == Some(v);
  }

  /** The two-digit year pivot: 49 is 2049 and 50 is 1950. */
  lemma TwoDigitYearPivot()
    ensures ExpandYear("49") == Some(2049)
    ensures ExpandYear("50") == Some(1950)
  {
  }
}
