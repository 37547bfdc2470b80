/** Cells of the comparison matrix and the strip-and-replace parse that turns a
    displayed value back into a number (main.py:77 and main.py:92-98). */
module Cells {
  import opened Wrappers
  import opened Strings
  import opened Numerals

  /** What a matrix cell can hold: the "-" sentinel written when a lookup
      fails, a float read from a summary, or any other text. */
  datatype Cell = Missing | Float(x: Number) | Str(s: string)

  /** The strip-and-replace chain of main.py:94: drop `%`, `,` and `$`, turn `(`
      into `-`, drop `)`. */
  function ReplaceChain(s: string): string {
    Replace(Replace(Replace(Replace(Replace(s, "%", ""), ",", ""), "$", ""), "(", "-"), ")", "")
  }

  /** The same chain in the order of main.py:77, where `$` goes before `,`. */
  function HighlightChain(s: string): string {
    Replace(Replace(Replace(Replace(Replace(s, "%", ""), "$", ""), ",", ""), "(", "-"), ")", "")
  }

  /** What the chain does to one character. */
  function NormalizeChar(c: char): string {
    if c == '%' || c == ',' || c == '$' || c == ')' then ""
    else if c == '(' then "-"
    else [c]
  }

  /** The chain, one character at a time; `ChainIsNormalize` shows it is the same function. */
  function Normalize(s: string): string
    decreases |s|
  {
    if s == [] then [] else NormalizeChar(s[0]) + Normalize(s[1..])
  }

  /** Both orders of the chain compute the same string, so one definition serves
      both call sites. */
  lemma HighlightChainAgrees(s: string)
    ensures HighlightChain(s) == ReplaceChain(s)
  {
    RemoveCharsCommute(Replace(s, "%", ""), '$', ',');
  }

  lemma ChainConcat(a: string, b: string)
    ensures ReplaceChain(a + b) == ReplaceChain(a) + ReplaceChain(b)
  {
    ReplaceCharConcat(a, b, '%', "");
    var a1, b1 := Replace(a, "%", ""), Replace(b, "%", "");
    ReplaceCharConcat(a1, b1, ',', "");
    var a2, b2 := Replace(a1, ",", ""), Replace(b1, ",", "");
    ReplaceCharConcat(a2, b2, '$', "");
    var a3, b3 := Replace(a2, "$", ""), Replace(b2, "$", "");
    ReplaceCharConcat(a3, b3, '(', "-");
    var a4, b4 := Replace(a3, "(", "-"), Replace(b3, "(", "-");
    ReplaceCharConcat(a4, b4, ')', "");
  }

  lemma ChainOneChar(c: char)
    ensures ReplaceChain([c]) == NormalizeChar(c)
  {
    ReplaceCharCons(c, [], '%', "");
    assert [c] + [] == [c];
    var s1 := Replace([c], "%", "");
    ReplaceCharCons(c, [], ',', "");
    ReplaceCharCons(c, [], '$', "");
    ReplaceCharCons(c, [], '(', "-");
    ReplaceCharCons(c, [], ')', "");
    ReplaceCharCons('-', [], ',', "");
    ReplaceCharCons('-', [], '$', "");
    ReplaceCharCons('-', [], ')', "");
    assert ['-'] + [] == ['-'];
  }

  /** The chain and its character-by-character form agree on every string. */
  lemma {:induction false} ChainIsNormalize(s: string)
    ensures ReplaceChain(s) == Normalize(s)
    decreases |s|
  {
    if s != [] {
      assert s == [s[0]] + s[1..];
      ChainConcat([s[0]], s[1..]);
      ChainOneChar(s[0]);
      ChainIsNormalize(s[1..]);
    }
  }

  lemma {:induction false} NormalizeConcat(a: string, b: string)
    ensures Normalize(a + b) == Normalize(a) + Normalize(b)
    decreases |a|
  {
    if a == [] {
      assert a + b == b;
    } else {
      assert (a + b)[1..] == a[1..] + b;
      NormalizeConcat(a[1..], b);
    }
  }

  /** A string of digits and points is left as it is. */
  lemma {:induction false} NormalizeNumeral(s: string)
    requires forall i :: 0 <= i < |s| ==> IsDigit(s[i]) || s[i] == '.'
    ensures Normalize(s) == s
    decreases |s|
  {
    if s != [] {
      NormalizeNumeral(s[1..]);
      assert s == [s[0]] + s[1..];
    }
  }

  /** A grouped numeral loses exactly its commas. */
  lemma {:induction false} NormalizeGrouped(s: string)
    requires DigitsOrCommas(s)
    ensures Normalize(s) == Without(s, ',')
    decreases |s|
  {
    if s != [] {
      NormalizeGrouped(s[1..]);
    }
  }

  /** The value the discrepancy detector reads from one cell (main.py:92-98):
      the sentinel and the empty string are skipped, a float is taken as it is
      (`float(str(v))` gives back `v`), other text goes through the
      strip-and-replace chain and `float()`; a failed parse is skipped. */
  function ParseCell(c: Cell): Option<Number> {
    match c
    case Missing => None
    case Float(x) => Some(x)
    case Str(s) => if s == "-" || s == "" then None else ParseFloat(Normalize(s))
  }

  /** Text other than the sentinel and the empty string is read by `float()`
      after the chain. */
  lemma ParseCellText(s: string)
    requires s != "-" && s != ""
    ensures ParseCell(Str(s)) == ParseFloat(Normalize(s))
  {
  }
}
