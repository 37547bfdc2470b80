/** Decimal numerals: Python's `float()` parse of a decimal string, and the
    rendering used by the `,`, `,.2f` format specifications and `int()`. */
module Numerals {
  import opened Wrappers
  import opened Strings

  /** A Python float as the core sees it: a real value or NaN.  IEEE rounding
      and the infinities are not modelled. */
  datatype Number = Finite(r: real) | NaN

  // ---------------------------------------------------------------------------
  // Digits
  // ---------------------------------------------------------------------------

  predicate IsDigit(c: char) {
    '0' <= c <= '9'
  }

  predicate AllDigits(s: string) {
    forall i :: 0 <= i < |s| ==> IsDigit(s[i])
  }

  function DigitVal(c: char): nat
    requires IsDigit(c)
  {
    c as int - '0' as int
  }

  function DigitChar(d: nat): (c: char)
    requires d < 10
    ensures IsDigit(c) && DigitVal(c) == d
  {
    ('0' as int + d) as char
  }

  function Pow10(n: nat): (p: nat)
    ensures p >= 1
  {
    if n == 0 then 1 else 10 * Pow10(n - 1)
  }

  /** The value of a string of decimal digits, most significant first. */
  function DigitsValue(s: string): nat
    requires AllDigits(s)
  {
    if s == [] then 0 else 10 * DigitsValue(s[..|s| - 1]) + DigitVal(s[|s| - 1])
  }

  /** Reading two digit strings written one after the other. */
  lemma {:induction false} DigitsValueConcat(a: string, b: string)
    requires AllDigits(a) && AllDigits(b)
    ensures AllDigits(a + b)
    ensures DigitsValue(a + b) == DigitsValue(a) * Pow10(|b|) + DigitsValue(b)
    decreases |b|
  {
    AllDigitsConcat(a, b);
    if b == [] {
      assert a + b == a;
    } else {
      var b' := b[..|b| - 1];
      var c := b[|b| - 1];
      AllDigitsConcat(a, b');
      assert (a + b)[..|a + b| - 1] == a + b';
      assert (a + b)[|a + b| - 1] == c;
      DigitsValueConcat(a, b');
      ShiftDigit(DigitsValue(a), Pow10(|b'|), DigitsValue(b'), DigitVal(c));
    }
  }

  lemma AllDigitsConcat(a: string, b: string)
    requires AllDigits(a) && AllDigits(b)
    ensures AllDigits(a + b)
  {
  }

  /** Appending a digit to `x` followed by `y` of `p`'s width. */
  lemma ShiftDigit(x: int, p: int, y: int, d: int)
    ensures 10 * (x * p + y) + d == x * (10 * p) + (10 * y + d)
  {
  }

  /** `str(n)` for a natural number: its decimal digits, no leading zero. */
  function Digits(n: nat): (r: string)
    ensures |r| > 0 && AllDigits(r) && DigitsValue(r) == n
    ensures r[0] == '0' ==> n == 0
  {
    if n < 10 then [DigitChar(n)]
    else
      var h := Digits(n / 10);
      var r := h + [DigitChar(n % 10)];
      assert r[..|r| - 1] == h;
      r
  }

  /** Exactly `w` digits, with leading zeros: `k` rendered as `{k:0w}`. */
  function Padded(k: nat, w: nat): (r: string)
    requires k < Pow10(w)
    ensures |r| == w && AllDigits(r) && DigitsValue(r) == k
  {
    if w == 0 then []
    else
      var h := Padded(k / 10, w - 1);
      var r := h + [DigitChar(k % 10)];
      assert r[..|r| - 1] == h;
      r
  }

  /** `f"{n:,}"` for a natural number: digits grouped by threes with commas. */
  function Group(n: nat): string {
    if n < 1000 then Digits(n) else Group(n / 1000) + "," + Padded(n % 1000, 3)
  }

  /** Only digits and commas. */
  predicate DigitsOrCommas(r: string) {
    forall i :: 0 <= i < |r| ==> IsDigit(r[i]) || r[i] == ','
  }

  /** A comma exactly at every fourth place counted from the right, so that
      every comma is followed by three digits and the first group has one to
      three. */
  predicate CommasEveryThree(r: string) {
    forall i :: 0 <= i < |r| ==> (r[i] == ',' <==> (|r| - i) % 4 == 0)
  }

  /** What a grouped numeral for `n` looks like: it starts with a digit, which
      is `0` only for the numeral "0", holds only digits and commas, has its
      commas at the thousands places, and without its commas spells `n`. */
  predicate GroupedNumeral(r: string, n: nat) {
    |r| > 0 && r[0] != ',' && (r[0] == '0' ==> |r| == 1) && DigitsOrCommas(r) && CommasEveryThree(r) &&
    var d := Without(r, ','); |d| > 0 && AllDigits(d) && DigitsValue(d) == n
  }

  /** `Group(n)` is a grouped numeral for `n`. */
  lemma {:induction false} GroupDigits(n: nat)
    ensures GroupedNumeral(Group(n), n)
    decreases n
  {
    if n < 1000 {
      GroupSmall(n);
    } else {
      GroupDigits(n / 1000);
      GroupJoin(Group(n / 1000), Padded(n % 1000, 3), n);
    }
  }

  lemma GroupSmall(n: nat)
    requires n < 1000
    ensures GroupedNumeral(Group(n), n)
  {
    var r := Digits(n);
    DigitsNoComma(r);
    WithoutAbsent(r, ',');
    DigitsShort(n);
  }

  /** A number below a thousand has at most three digits. */
  lemma DigitsShort(n: nat)
    requires n < 1000
    ensures |Digits(n)| <= 3
  {
    if n >= 10 {
      assert |Digits(n)| == |Digits(n / 10)| + 1;
      if n / 10 >= 10 {
        assert |Digits(n / 10)| == |Digits(n / 100)| + 1;
      }
    }
  }

  /** Three more digits after a comma multiply the value by a thousand. */
  lemma GroupJoin(h: string, t: string, n: nat)
    requires n >= 1000 && GroupedNumeral(h, n / 1000)
    requires |t| == 3 && AllDigits(t) && DigitsValue(t) == n % 1000
    ensures GroupedNumeral(h + "," + t, n)
  {
    GroupCharsStep(h, t);
    GroupCommasStep(h, t);
    GroupStep(h, t);
    ThousandsStep(Without(h, ','), t, n);
  }

  /** Three digits after a new comma keep the commas at the thousands places. */
  lemma GroupCommasStep(h: string, t: string)
    requires CommasEveryThree(h) && |t| == 3 && AllDigits(t)
    ensures CommasEveryThree(h + "," + t)
  {
    var r := h + "," + t;
    forall i | 0 <= i < |r|
      ensures r[i] == ',' <==> (|r| - i) % 4 == 0
    {
      if i < |h| {
        assert r[i] == h[i] && |r| - i == (|h| - i) + 4;
      } else if i > |h| {
        assert r[i] == t[i - |h| - 1];
      }
    }
  }

  lemma ThousandsStep(d: string, t: string, n: nat)
    requires AllDigits(d) && DigitsValue(d) == n / 1000
    requires |t| == 3 && AllDigits(t) && DigitsValue(t) == n % 1000
    ensures AllDigits(d + t) && DigitsValue(d + t) == n
  {
    DigitsValueConcat(d, t);
    assert Pow10(3) == 1000;
  }

  lemma GroupCharsStep(h: string, t: string)
    requires |h| > 0 && DigitsOrCommas(h) && AllDigits(t)
    ensures var r := h + "," + t; r[0] == h[0] && DigitsOrCommas(r)
  {
  }

  lemma GroupStep(h: string, t: string)
    requires AllDigits(t)
    ensures Without(h + "," + t, ',') == Without(h, ',') + t
  {
    WithoutConcat(h + ",", t, ',');
    WithoutConcat(h, ",", ',');
    WithoutComma();
    DigitsNoComma(t);
    WithoutAbsent(t, ',');
  }

  lemma WithoutComma()
    ensures Without(",", ',') == []
  {
    assert ","[1..] == [];
  }

  /** A string of digits contains no comma. */
  lemma DigitsNoComma(t: string)
    requires AllDigits(t)
    ensures ',' !in t
  {
  }

  /** `abs` on a real. */
  function Abs(x: real): real {
    if x < 0.0 then -x else x
  }

  /** `f"{k:,}"` for an integer: a leading minus sign, then the grouped magnitude. */
  function GroupInt(k: int): string {
    if k < 0 then "-" + Group(-k) else Group(k)
  }

  // ---------------------------------------------------------------------------
  // Rounding
  // ---------------------------------------------------------------------------

  /** The integer nearest to `y`, ties to the even one. */
  function RoundHalfEven(y: real): (k: int)
    ensures -0.5 <= y - k as real <= 0.5
    ensures (y - k as real == 0.5 || k as real - y == 0.5) ==> k % 2 == 0
    ensures y >= 0.0 ==> k >= 0
  {
    var f := y.Floor;
    var d := y - f as real;
    if d < 0.5 then f
    else if d > 0.5 then f + 1
    else if f % 2 == 0 then f
    else f + 1
  }

  /** `int(x)`: truncation toward zero. */
  function Truncate(x: real): (k: int)
    ensures 0.0 <= x ==> 0 <= k && k as real <= x < k as real + 1.0
    ensures x < 0.0 ==> k <= 0 && k as real - 1.0 < x <= k as real
  {
    if x >= 0.0 then x.Floor else -((-x).Floor)
  }

  /** Hundredths of a non-negative `x`, rounded as `,.2f` rounds the exact value. */
  function Cents(x: real): nat
    requires x >= 0.0
  {
    RoundHalfEven(x * 100.0)
  }

  /** `f"{x:,.2f}"` for a non-negative `x`: grouped whole part, a point, two digits. */
  function Fixed2(x: real): string
    requires x >= 0.0
  {
    var c := Cents(x);
    Group(c / 100) + "." + Padded(c % 100, 2)
  }

  // ---------------------------------------------------------------------------
  // float() on a string
  // ---------------------------------------------------------------------------

  /** "nan" in any mix of upper and lower case. */
  predicate IsNanWord(s: string) {
    |s| == 3 && (s[0] == 'n' || s[0] == 'N') && (s[1] == 'a' || s[1] == 'A') && (s[2] == 'n' || s[2] == 'N')
  }

  /** Index of the first exponent marker, `e` or `E`, or `|s|`. */
  function FindExponent(s: string): (k: nat)
    ensures k <= |s|
    ensures k < |s| ==> s[k] == 'e' || s[k] == 'E'
    ensures forall i :: 0 <= i < k ==> s[i] != 'e' && s[i] != 'E'
  {
    if s == [] then 0
    else if s[0] == 'e' || s[0] == 'E' then 0
    else 1 + FindExponent(s[1..])
  }

  /** The value of the numeral `ip.fp`. */
  function DecimalValue(ip: string, fp: string): real
    requires AllDigits(ip) && AllDigits(fp)
  {
    DigitsValue(ip) as real + DigitsValue(fp) as real / Pow10(|fp|) as real
  }

  /** `digits`, `digits.`, `.digits` or `digits.digits`. */
  function ParseMantissa(m: string): Option<real> {
    var p := FindChar(m, '.');
    if p == |m| then
      if |m| > 0 && AllDigits(m) then Some(DigitsValue(m) as real) else None
    else
      var ip := m[..p];
      var fp := m[p + 1..];
      if AllDigits(ip) && AllDigits(fp) && |ip| + |fp| > 0
      then Some(DecimalValue(ip, fp))
      else None
  }

  /** An exponent: an optional sign and at least one digit. */
  function ParseExponent(x: string): Option<int> {
    var neg := |x| > 0 && x[0] == '-';
    var ds := if |x| > 0 && (x[0] == '-' || x[0] == '+') then x[1..] else x;
    if |ds| > 0 && AllDigits(ds) then
      var k: int := DigitsValue(ds);
      Some(if neg then -k else k)
    else None
  }

  /** Ten to an integer power. */
  function Scale(e: int): real {
    if e >= 0 then Pow10(e) as real else 1.0 / Pow10(-e) as real
  }

  /** An unsigned decimal literal: mantissa, optionally followed by an exponent. */
  function ParseUnsigned(b: string): Option<real> {
    var e := FindExponent(b);
    match ParseMantissa(b[..e])
    case None => None
    case Some(v) =>
      if e == |b| then Some(v)
      else match ParseExponent(b[e + 1..])
        case None => None
        case Some(k) => Some(v * Scale(k))
  }

  /** Python's `float(s)` on a string: surrounding whitespace is ignored, then an
      optional sign and either "nan" or a decimal literal.  `None` stands for the
      ValueError that float() raises. */
  function ParseFloat(s: string): Option<Number> {
    var t := Strip(s);
    var neg := |t| > 0 && t[0] == '-';
    var body := if |t| > 0 && (t[0] == '-' || t[0] == '+') then t[1..] else t;
    if IsNanWord(body) then Some(NaN)
    else match ParseUnsigned(body)
      case None => None
      case Some(v) => Some(Finite(if neg then -v else v))
  }

  // ---------------------------------------------------------------------------
  // Parsing what was rendered
  // ---------------------------------------------------------------------------

  /** A numeral made of digits and points has no exponent marker. */
  lemma {:induction false} NoExponent(s: string)
    requires forall i :: 0 <= i < |s| ==> IsDigit(s[i]) || s[i] == '.'
    ensures FindExponent(s) == |s|
    decreases |s|
  {
    if s != [] {
      NoExponent(s[1..]);
    }
  }

  /** The first `c` of `a + b`, when `a` has none. */
  lemma {:induction false} FindCharAfter(a: string, b: string, c: char)
    requires c !in a
    ensures FindChar(a + b, c) == |a| + FindChar(b, c)
    decreases |a|
  {
    if a == [] {
      assert a + b == b;
    } else {
      assert (a + b)[1..] == a[1..] + b;
      FindCharAfter(a[1..], b, c);
    }
  }

  /** A run of digits reads back as its value. */
  lemma ParseUnsignedInteger(d: string)
    requires |d| > 0 && AllDigits(d)
    ensures ParseUnsigned(d) == Some(DigitsValue(d) as real)
  {
    NoExponent(d);
    assert d[..|d|] == d;
    assert '.' !in d;
    FindCharAfter(d, [], '.');
    assert d + [] == d;
  }

  /** The mantissa `digits.digits`. */
  lemma ParseMantissaDecimal(ip: string, fp: string)
    requires |ip| > 0 && AllDigits(ip) && AllDigits(fp)
    ensures ParseMantissa(ip + "." + fp) == Some(DecimalValue(ip, fp))
  {
    var m := ip + "." + fp;
    assert m == ip + ("." + fp);
    assert '.' !in ip;
    FindCharAfter(ip, "." + fp, '.');
    var p := FindChar(m, '.');
    assert p == |ip|;
    assert m[..p] == ip;
    assert m[p + 1..] == fp;
  }

  /** `digits.digits` reads back as the whole part plus the scaled fraction. */
  lemma ParseUnsignedDecimal(ip: string, fp: string)
    requires |ip| > 0 && AllDigits(ip) && AllDigits(fp)
    ensures ParseUnsigned(ip + "." + fp) == Some(DecimalValue(ip, fp))
  {
    var b := ip + "." + fp;
    assert forall i :: 0 <= i < |b| ==> IsDigit(b[i]) || b[i] == '.' by {
      forall i | 0 <= i < |b| ensures IsDigit(b[i]) || b[i] == '.' {
        if i < |ip| {
          assert b[i] == ip[i];
        } else if i > |ip| {
          assert b[i] == fp[i - |ip| - 1];
        }
      }
    }
    NoExponent(b);
    var e := FindExponent(b);
    assert e == |b|;
    assert b[..e] == b;
    ParseMantissaDecimal(ip, fp);
  }

  /** A numeral ending in a digit is not the word "nan". */
  lemma NotNanWord(body: string)
    requires |body| > 0 && IsDigit(body[|body| - 1])
    ensures !IsNanWord(body)
  {
  }

  /** A string that strips to `-` and an unsigned numeral reads back negated. */
  lemma ParseFloatStrippedNegative(s: string, body: string, v: real)
    requires Strip(s) == "-" + body
    requires |body| > 0 && IsDigit(body[|body| - 1])
    requires ParseUnsigned(body) == Some(v)
    ensures ParseFloat(s) == Some(Finite(-v))
  {
    var t := Strip(s);
    assert t[0] == '-' && t[1..] == body;
    NotNanWord(body);
  }

  /** A negative numeral padded with whitespace reads back negated. */
  lemma ParseFloatNegative(pre: string, body: string, post: string, v: real)
    requires AllSpace(pre) && AllSpace(post)
    requires |body| > 0 && IsDigit(body[0]) && IsDigit(body[|body| - 1])
    requires ParseUnsigned(body) == Some(v)
    ensures ParseFloat(pre + "-" + body + post) == Some(Finite(-v))
  {
    var t := "-" + body;
    assert pre + "-" + body + post == pre + t + post;
    assert t[|t| - 1] == body[|body| - 1];
    StripPadded(pre, t, post);
    ParseFloatStrippedNegative(pre + t + post, body, v);
  }

  /** An unsigned numeral padded with whitespace reads back as it is. */
  lemma ParseFloatPositive(pre: string, body: string, post: string, v: real)
    requires AllSpace(pre) && AllSpace(post)
    requires |body| > 0 && IsDigit(body[0]) && IsDigit(body[|body| - 1])
    requires ParseUnsigned(body) == Some(v)
    ensures ParseFloat(pre + body + post) == Some(Finite(v))
  {
    StripPadded(pre, body, post);
    NotNanWord(body);
  }

  /** `float("1\xa0")` is 1.0: a trailing no-break space is stripped like any
      other whitespace. */
  lemma NoBreakSpaceStripped()
    ensures ParseFloat("1\U{00A0}") == Some(Finite(1.0))
  {
    ParseUnsignedInteger("1");
    assert "" + "1" + "\U{00A0}" == "1\U{00A0}";
    ParseFloatPositive("", "1", "\U{00A0}", 1.0);
  }

  /** `float("1\x1c")` raises: the ASCII information separators are not
      stripped. */
  lemma SeparatorNotStripped()
    ensures ParseFloat("1\U{001C}") == None
  {
    var t := "1\U{001C}";
    assert "" + t + "" == t;
    StripPadded("", t, "");
    assert FindExponent(t) == |t| by {
      assert FindExponent(t[1..]) == 1;
    }
    assert FindChar(t, '.') == |t| by {
      assert FindChar(t[1..], '.') == 1;
    }
    assert !AllDigits(t) by {
      assert !IsDigit(t[1]);
    }
  }
}
