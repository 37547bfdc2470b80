/** `table_format` (main.py:11-28): how a matrix cell is displayed for a metric,
    and the proof that the parse of main.py:94 reads the display back. */
module Formatter {
  import opened Wrappers
  import opened Strings
  import opened Numerals
  import opened Cells

  /** The three display rules, chosen by exact metric name. */
  datatype MetricKind = Percentage | Quantity | Currency

  /** main.py:16 and main.py:20; every other metric is shown as money. */
  function KindOf(metric: string): MetricKind {
    if metric == "Defect %" || metric == "MARGIN %" || metric == "Contribution Margin %" then Percentage
    else if metric == "QTY Gross" || metric == "QTY Defect" || metric == "QTY Total" then Quantity
    else Currency
  }

  /** The display of a finite number (main.py:16-26). */
  function FormatValue(x: real, kind: MetricKind): string {
    match kind
    case Percentage =>
      if x < 0.0 then Fixed2(Abs(x * 100.0)) + " %" else Fixed2(x * 100.0) + " %"
    case Quantity =>
      // both branches of main.py:21-23 print int(num) with grouping
      GroupInt(Truncate(x))
    case Currency =>
      if x < 0.0 then "$ (" + Fixed2(Abs(x)) + ")" else "$ " + Fixed2(x)
  }

  /** `table_format(x, metric)`: `float(x)` first; NaN shows as the empty string; a
      value `float()` rejects (the "-" sentinel, free text) is returned unchanged. */
  function TableFormat(c: Cell, metric: string): string {
    match c
    case Missing => "-"
    case Float(NaN) => ""
    case Float(Finite(x)) => FormatValue(x, KindOf(metric))
    case Str(s) =>
      match ParseFloat(s)
      case None => s
      case Some(NaN) => ""
      case Some(Finite(x)) => FormatValue(x, KindOf(metric))
  }

  // ---------------------------------------------------------------------------
  // Reading the display back
  // ---------------------------------------------------------------------------

  /** `f` reads back through the chain of main.py:94 as the unsigned number `v`,
      starting and ending with a digit. */
  ghost predicate ReadsAs(f: string, v: real) {
    var b := Normalize(f);
    |b| > 0 && IsDigit(b[0]) && IsDigit(b[|b| - 1]) && ParseUnsigned(b) == Some(v)
  }

  /** A numeral `d.p` with a non-empty integer part and two decimals. */
  lemma DecimalNumeral(d: string, p: string)
    requires |d| > 0 && AllDigits(d) && |p| == 2 && AllDigits(p)
    ensures var b := d + "." + p;
      |b| > 0 && IsDigit(b[0]) && IsDigit(b[|b| - 1]) &&
      ParseUnsigned(b) == Some(DecimalValue(d, p))
  {
    var b := d + "." + p;
    assert b[0] == d[0];
    assert b[|b| - 1] == p[1];
    ParseUnsignedDecimal(d, p);
  }

  /** The chain turns `g.p` into `g` without commas, then `.p`. */
  lemma NormalizeDecimal(g: string, p: string)
    requires DigitsOrCommas(g) && AllDigits(p)
    ensures Normalize(g + "." + p) == Without(g, ',') + "." + p
  {
    NormalizeConcat(g + ".", p);
    NormalizeConcat(g, ".");
    NormalizeGrouped(g);
    NormalizeNumeral(".");
    NormalizeNumeral(p);
  }

  /** The strip-and-replace chain turns `Fixed2(y)` into its digits without commas. */
  lemma Fixed2Normalized(y: real)
    requires y >= 0.0
    ensures var c := Cents(y);
      Normalize(Fixed2(y)) == Without(Group(c / 100), ',') + "." + Padded(c % 100, 2)
  {
    var c := Cents(y);
    GroupDigits(c / 100);
    NormalizeDecimal(Group(c / 100), Padded(c % 100, 2));
  }

  /** Whole units and two decimal digits add back up to the amount in hundredths. */
  lemma CentsValue(d: string, p: string, c: nat)
    requires AllDigits(d) && AllDigits(p) && |p| == 2
    requires DigitsValue(d) == c / 100 && DigitsValue(p) == c % 100
    ensures DecimalValue(d, p) == c as real / 100.0
  {
    assert Pow10(2) == 100;
    var q, r := c / 100, c % 100;
    assert c == 100 * q + r;
    assert c as real == 100.0 * q as real + r as real;
  }

  /** The commas-free form of an amount of `c` hundredths parses back to it. */
  lemma CentsNumeral(c: nat)
    ensures var b := Without(Group(c / 100), ',') + "." + Padded(c % 100, 2);
      |b| > 0 && IsDigit(b[0]) && IsDigit(b[|b| - 1]) && ParseUnsigned(b) == Some(c as real / 100.0)
  {
    var d := Without(Group(c / 100), ',');
    var p := Padded(c % 100, 2);
    GroupDigits(c / 100);
    DecimalNumeral(d, p);
    CentsValue(d, p, c);
  }

  /** `Fixed2(y)` reads back as `y` rounded to hundredths. */
  lemma Fixed2Reads(y: real)
    requires y >= 0.0
    ensures ReadsAs(Fixed2(y), Cents(y) as real / 100.0)
  {
    Fixed2Normalized(y);
    CentsNumeral(Cents(y));
  }

  /** A grouped integer reads back as itself. */
  lemma GroupReads(n: nat)
    ensures ReadsAs(Group(n), n as real)
  {
    var g := Group(n);
    GroupDigits(n);
    NormalizeGrouped(g);
    ParseUnsignedInteger(Without(g, ','));
  }

  /** The chain on a negative amount: `$ (` becomes ` -` and `)` goes. */
  lemma NormalizeNegativeMoney(f: string)
    ensures Normalize("$ (" + f + ")") == " " + "-" + Normalize(f) + ""
  {
    NormalizeConcat("$ (" + f, ")");
    NormalizeConcat("$ (", f);
    assert Normalize("$ (") == " -";
    assert Normalize(")") == "";
  }

  /** The chain on a non-negative amount: `$` goes. */
  lemma NormalizePositiveMoney(f: string)
    ensures Normalize("$ " + f) == " " + Normalize(f) + ""
  {
    NormalizeConcat("$ ", f);
    assert Normalize("$ ") == " ";
  }

  /** The chain on a percentage: `%` goes, its leading space stays. */
  lemma NormalizePercent(f: string)
    ensures Normalize(f + " %") == "" + Normalize(f) + " "
  {
    NormalizeConcat(f, " %");
    assert Normalize(" %") == " ";
  }

  /** The chain on a negative whole number: the minus sign stays. */
  lemma NormalizeNegative(g: string)
    ensures Normalize("-" + g) == "" + "-" + Normalize(g) + ""
  {
    NormalizeConcat("-", g);
    assert Normalize("-") == "-";
  }

  /** `$ (f)` parses as the negation of what `f` reads as. */
  lemma NegativeMoneyParses(f: string, v: real, s: string)
    requires ReadsAs(f, v) && s == "$ (" + f + ")"
    ensures ParseCell(Str(s)) == Some(Finite(-v))
  {
    assert s[0] == '$';
    NormalizeNegativeMoney(f);
    ParseFloatNegative(" ", Normalize(f), "", v);
  }

  /** `$ f` parses as what `f` reads as. */
  lemma PositiveMoneyParses(f: string, v: real, s: string)
    requires ReadsAs(f, v) && s == "$ " + f
    ensures ParseCell(Str(s)) == Some(Finite(v))
  {
    assert s[0] == '$';
    NormalizePositiveMoney(f);
    ParseFloatPositive(" ", Normalize(f), "", v);
  }

  /** `f %` parses as what `f` reads as. */
  lemma PercentParses(f: string, v: real, s: string)
    requires ReadsAs(f, v) && s == f + " %"
    ensures ParseCell(Str(s)) == Some(Finite(v))
  {
    assert s[|s| - 1] == '%';
    NormalizePercent(f);
    ParseFloatPositive("", Normalize(f), " ", v);
  }

  /** `-g` parses as the negation of what `g` reads as. */
  lemma NegativeParses(g: string, v: real, s: string)
    requires ReadsAs(g, v) && s == "-" + g
    ensures ParseCell(Str(s)) == Some(Finite(-v))
  {
    NormalizeNegative(g);
    assert |Normalize(s)| > 1;
    ParseFloatNegative("", Normalize(g), "", v);
  }

  /** `g` on its own parses as what it reads as. */
  lemma PlainParses(g: string, v: real)
    requires ReadsAs(g, v)
    ensures ParseCell(Str(g)) == Some(Finite(v))
  {
    var b := Normalize(g);
    assert Normalize("-") == "-" && Normalize("") == "";
    ParseFloatPositive("", b, "", v);
    assert "" + b + "" == b;
    ParseCellText(g);
  }

  /** How a negative currency cell is displayed (main.py:24-25). */
  lemma NegativeCurrencyDisplay(x: real, metric: string)
    requires KindOf(metric) == Currency && x < 0.0
    ensures TableFormat(Float(Finite(x)), metric) == "$ (" + Fixed2(Abs(x)) + ")"
  {
  }

  /** How a non-negative currency cell is displayed (main.py:26). */
  lemma PositiveCurrencyDisplay(x: real, metric: string)
    requires KindOf(metric) == Currency && x >= 0.0
    ensures TableFormat(Float(Finite(x)), metric) == "$ " + Fixed2(Abs(x))
  {
  }

  /** A negative amount's display parses back to the negated rounded magnitude. */
  lemma NegativeMoneyReads(y: real, v: real, s: string)
    requires y >= 0.0 && v == Cents(y) as real / 100.0 && s == "$ (" + Fixed2(y) + ")"
    ensures ParseCell(Str(s)) == Some(Finite(-v))
  {
    Fixed2Reads(y);
    NegativeMoneyParses(Fixed2(y), v, s);
  }

  /** A non-negative amount's display parses back to the rounded amount. */
  lemma PositiveMoneyReads(y: real, v: real, s: string)
    requires y >= 0.0 && v == Cents(y) as real / 100.0 && s == "$ " + Fixed2(y)
    ensures ParseCell(Str(s)) == Some(Finite(v))
  {
    Fixed2Reads(y);
    PositiveMoneyParses(Fixed2(y), v, s);
  }

  lemma NegativeCurrencyRoundTrip(x: real, metric: string)
    requires KindOf(metric) == Currency && x < 0.0
    ensures ParseCell(Str(TableFormat(Float(Finite(x)), metric))) == Some(Finite(-(Cents(Abs(x)) as real / 100.0)))
  {
    NegativeCurrencyDisplay(x, metric);
    var y := Abs(x);
    var v := Cents(y) as real / 100.0;
    NegativeMoneyReads(y, v, TableFormat(Float(Finite(x)), metric));
  }

  lemma PositiveCurrencyRoundTrip(x: real, metric: string)
    requires KindOf(metric) == Currency && x >= 0.0
    ensures ParseCell(Str(TableFormat(Float(Finite(x)), metric))) == Some(Finite(Cents(Abs(x)) as real / 100.0))
  {
    PositiveCurrencyDisplay(x, metric);
    var y := Abs(x);
    var v := Cents(y) as real / 100.0;
    PositiveMoneyReads(y, v, TableFormat(Float(Finite(x)), metric));
  }

  /** A currency display parses back to the amount rounded to cents, with its
      sign (main.py:24-26 read by main.py:94). */
  lemma CurrencyRoundTrip(x: real, metric: string)
    requires KindOf(metric) == Currency
    ensures ParseCell(Str(TableFormat(Float(Finite(x)), metric))) == Some(Finite(SignedCents(x)))
  {
    if x < 0.0 {
      NegativeCurrencyRoundTrip(x, metric);
    } else {
      PositiveCurrencyRoundTrip(x, metric);
    }
  }

  /** `x` rounded to cents, half to even, keeping its sign. */
  function SignedCents(x: real): real {
    if x < 0.0 then -(Cents(Abs(x)) as real / 100.0) else Cents(Abs(x)) as real / 100.0
  }

  /** An amount in whole cents is its own rounding. */
  lemma WholeCents(x: real)
    requires (x * 100.0).Floor as real == x * 100.0
    ensures SignedCents(x) == x
  {
    var k := (x * 100.0).Floor;
    var m: nat := if k < 0 then -k else k;
    assert Abs(x) * 100.0 == m as real;
    assert RoundHalfEven(m as real) == m;
  }

  /** An amount in whole cents is recovered exactly. */
  lemma CurrencyRoundTripExact(x: real, metric: string)
    requires KindOf(metric) == Currency
    requires (x * 100.0).Floor as real == x * 100.0
    ensures ParseCell(Str(TableFormat(Float(Finite(x)), metric))) == Some(Finite(x))
  {
    WholeCents(x);
    CurrencyRoundTrip(x, metric);
  }

  /** How a percentage cell is displayed (main.py:16-19). */
  lemma PercentDisplay(x: real, metric: string)
    requires KindOf(metric) == Percentage
    ensures TableFormat(Float(Finite(x)), metric) == Fixed2(Abs(x * 100.0)) + " %"
  {
  }

  /** A percentage display parses back to the rounded hundredths it shows. */
  lemma PercentReads(y: real, v: real, s: string)
    requires y >= 0.0 && v == Cents(y) as real / 100.0 && s == Fixed2(y) + " %"
    ensures ParseCell(Str(s)) == Some(Finite(v))
  {
    Fixed2Reads(y);
    PercentParses(Fixed2(y), v, s);
  }

  /** A negative percentage parses back to its rounded magnitude. */
  lemma NegativePercentRoundTrip(x: real, metric: string, s: string)
    requires KindOf(metric) == Percentage && x < 0.0 && s == TableFormat(Float(Finite(x)), metric)
    ensures ParseCell(Str(s)) == Some(Finite(Cents(Abs(x * 100.0)) as real / 100.0))
  {
    PercentDisplay(x, metric);
    var y := Abs(x * 100.0);
    var v := Cents(y) as real / 100.0;
    PercentReads(y, v, s);
  }

  /** A non-negative percentage parses back to its rounded value. */
  lemma PositivePercentRoundTrip(x: real, metric: string, s: string)
    requires KindOf(metric) == Percentage && x >= 0.0 && s == TableFormat(Float(Finite(x)), metric)
    ensures ParseCell(Str(s)) == Some(Finite(Cents(x * 100.0) as real / 100.0))
  {
    var y := x * 100.0;
    PercentReads(y, Cents(y) as real / 100.0, s);
  }

  /** A percentage display parses back to `|x * 100|` rounded to hundredths: the
      sign is dropped (main.py:16-19). */
  lemma PercentRoundTrip(x: real, metric: string)
    requires KindOf(metric) == Percentage
    ensures ParseCell(Str(TableFormat(Float(Finite(x)), metric)))
         == Some(Finite(Cents(Abs(x * 100.0)) as real / 100.0))
  {
    var s := TableFormat(Float(Finite(x)), metric);
    if x < 0.0 {
      NegativePercentRoundTrip(x, metric, s);
    } else {
      PositivePercentRoundTrip(x, metric, s);
      assert Abs(x * 100.0) == x * 100.0;
    }
  }

  lemma AbsScaledNeg(x: real)
    ensures Abs(-x * 100.0) == Abs(x * 100.0)
  {
  }

  /** A value and its negation display alike as percentages. */
  lemma PercentDropsSign(x: real, metric: string)
    requires KindOf(metric) == Percentage
    ensures TableFormat(Float(Finite(-x)), metric) == TableFormat(Float(Finite(x)), metric)
  {
    PercentDisplay(x, metric);
    PercentDisplay(-x, metric);
    AbsScaledNeg(x);
  }

  /** How a quantity cell is displayed (main.py:20-23). */
  lemma QuantityDisplay(x: real, metric: string)
    requires KindOf(metric) == Quantity
    ensures TableFormat(Float(Finite(x)), metric) == GroupInt(Truncate(x))
  {
  }

  lemma NegativeGroupReads(n: nat, v: real, s: string)
    requires v == n as real && s == "-" + Group(n)
    ensures ParseCell(Str(s)) == Some(Finite(-v))
  {
    GroupReads(n);
    NegativeParses(Group(n), v, s);
  }

  lemma PlainGroupReads(n: nat, v: real, s: string)
    requires v == n as real && s == Group(n)
    ensures ParseCell(Str(s)) == Some(Finite(v))
  {
    GroupReads(n);
    PlainParses(s, v);
  }

  lemma NegativeIntReads(k: int, s: string)
    requires k < 0 && s == GroupInt(k)
    ensures ParseCell(Str(s)) == Some(Finite(k as real))
  {
    NegativeGroupReads(-k, (-k) as real, s);
  }

  lemma PlainIntReads(k: int, s: string)
    requires k >= 0 && s == GroupInt(k)
    ensures ParseCell(Str(s)) == Some(Finite(k as real))
  {
    PlainGroupReads(k, k as real, s);
  }

  /** A grouped whole number, with its sign, parses back to itself. */
  lemma GroupIntReads(k: int, s: string)
    requires s == GroupInt(k)
    ensures ParseCell(Str(s)) == Some(Finite(k as real))
  {
    if k < 0 {
      NegativeIntReads(k, s);
    } else {
      PlainIntReads(k, s);
    }
  }

  /** A quantity display parses back to `int(x)`, truncated toward zero
      (main.py:20-23). */
  lemma QuantityRoundTrip(x: real, metric: string)
    requires KindOf(metric) == Quantity
    ensures ParseCell(Str(TableFormat(Float(Finite(x)), metric))) == Some(Finite(Truncate(x) as real))
  {
    QuantityDisplay(x, metric);
    GroupIntReads(Truncate(x), TableFormat(Float(Finite(x)), metric));
  }

  // ---------------------------------------------------------------------------
  // Examples
  // ---------------------------------------------------------------------------

  lemma Padded234()
    ensures Padded(234, 3) == "234"
  {
    assert Padded(2, 1) == "2";
    assert Padded(23, 2) == "23";
  }

  lemma Group1234()
    ensures Group(1234) == "1,234"
  {
    assert Group(1) == "1";
    Padded234();
  }

  lemma Padded50()
    ensures Padded(50, 2) == "50"
  {
    assert Padded(5, 1) == "5";
  }

  lemma Cents1234()
    ensures Cents(1234.5) == 123450
  {
    assert 1234.5 * 100.0 == 123450.0;
    assert RoundHalfEven(123450.0) == 123450;
  }

  /** `Fixed2(y)` from the hundredths `c` it rounds to. */
  lemma Fixed2Parts(y: real, c: nat)
    requires y >= 0.0 && Cents(y) == c
    ensures Fixed2(y) == Group(c / 100) + "." + Padded(c % 100, 2)
  {
  }

  /** `1234.5` to two decimals with grouping is "1,234.50". */
  lemma Fixed2Example()
    ensures Fixed2(1234.5) == "1,234.50"
  {
    Cents1234();
    Fixed2Parts(1234.5, 123450);
    assert 123450 / 100 == 1234 && 123450 % 100 == 50;
    Group1234();
    Padded50();
  }

  lemma ContributionMarginIsMoney()
    ensures KindOf("Contribution Margin") == Currency
  {
  }

  /** `-1234.5` shown as money is "$ (1,234.50)". */
  lemma CurrencyExample()
    ensures TableFormat(Float(Finite(-1234.5)), "Contribution Margin") == "$ (1,234.50)"
  {
    ContributionMarginIsMoney();
    NegativeCurrencyDisplay(-1234.5, "Contribution Margin");
    assert Abs(-1234.5) == 1234.5;
    Fixed2Example();
  }

  lemma ExampleWholeCents()
    ensures (-1234.5 * 100.0).Floor as real == -1234.5 * 100.0
  {
    assert -1234.5 * 100.0 == -123450.0;
  }

  /** "$ (1,234.50)" parses back to `-1234.5`. */
  lemma CurrencyExampleParses()
    ensures ParseCell(Str("$ (1,234.50)")) == Some(Finite(-1234.5))
  {
    CurrencyExample();
    ContributionMarginIsMoney();
    ExampleWholeCents();
    CurrencyRoundTripExact(-1234.5, "Contribution Margin");
  }

  lemma Cents1025()
    ensures Cents(10.25) == 1025
  {
    assert 10.25 * 100.0 == 1025.0;
    assert RoundHalfEven(1025.0) == 1025;
  }

  lemma Fixed2Percent()
    ensures Fixed2(10.25) == "10.25"
  {
    Cents1025();
    assert Digits(1) == "1";
    assert Group(10) == "10";
    assert Padded(2, 1) == "2";
    assert Padded(25, 2) == "25";
  }

  /** `0.1025` shown as "MARGIN %" is "10.25 %". */
  lemma PercentExample()
    ensures TableFormat(Float(Finite(0.1025)), "MARGIN %") == "10.25 %"
  {
    assert KindOf("MARGIN %") == Percentage;
    PercentDisplay(0.1025, "MARGIN %");
    assert Abs(0.1025 * 100.0) == 10.25;
    Fixed2Percent();
  }

  /** What `float()` rejects is shown unchanged; NaN is shown as the empty string. */
  lemma NonNumericPassesThrough(s: string, metric: string)
    requires ParseFloat(s) == None
    ensures TableFormat(Str(s), metric) == s
    ensures TableFormat(Missing, metric) == "-"
    ensures TableFormat(Float(NaN), metric) == ""
  {
  }
}
