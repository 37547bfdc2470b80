/** The pieces of Python's `str` behaviour the core relies on:
    `replace`, `strip` (with the whitespace `float()` ignores), and `split` on one character. */
module Strings {

  // ---------------------------------------------------------------------------
  // str.replace
  // ---------------------------------------------------------------------------

  /** `s.replace(pat, rep)`: every non-overlapping occurrence of `pat`, scanning
      left to right, is replaced by `rep`. */
  function Replace(s: string, pat: string, rep: string): string
    requires |pat| > 0
    decreases |s|
  {
    if |pat| <= |s| && s[..|pat|] == pat then rep + Replace(s[|pat|..], pat, rep)
    else if s == [] then []
    else [s[0]] + Replace(s[1..], pat, rep)
  }

  /** Replacing a one-character pattern, one character at a time. */
  lemma ReplaceCharCons(x: char, s: string, c: char, rep: string)
    ensures Replace([x] + s, [c], rep) == (if x == c then rep else [x]) + Replace(s, [c], rep)
  {
    var t := [x] + s;
    assert t[..1] == [x];
    assert t[1..] == s;
  }

  /** A one-character replacement distributes over concatenation. */
  lemma {:induction false} ReplaceCharConcat(a: string, b: string, c: char, rep: string)
    ensures Replace(a + b, [c], rep) == Replace(a, [c], rep) + Replace(b, [c], rep)
    decreases |a|
  {
    if a == [] {
      assert a + b == b;
    } else {
      assert a + b == [a[0]] + (a[1..] + b);
      assert a == [a[0]] + a[1..];
      ReplaceCharCons(a[0], a[1..] + b, c, rep);
      ReplaceCharCons(a[0], a[1..], c, rep);
      ReplaceCharConcat(a[1..], b, c, rep);
    }
  }

  /** `pat` occurs in `s` starting at index `i`. */
  predicate MatchAt(s: string, i: nat, pat: string) {
    i + |pat| <= |s| && s[i..i + |pat|] == pat
  }

  /** Without a match at its start, `replace` copies the first character. */
  lemma ReplaceNoMatchHere(t: string, pat: string, rep: string)
    requires |pat| > 0 && |t| > 0 && !MatchAt(t, 0, pat)
    ensures Replace(t, pat, rep) == [t[0]] + Replace(t[1..], pat, rep)
  {
    assert |pat| <= |t| ==> t[..|pat|] == t[0..0 + |pat|];
  }

  /** A match in `t[1..]` at `i` is a match in `t` at `i + 1`. */
  lemma MatchShift(t: string, i: nat, pat: string)
    requires |t| > 0
    ensures MatchAt(t[1..], i, pat) ==> MatchAt(t, i + 1, pat)
  {
    if i + |pat| <= |t[1..]| {
      assert t[1..][i..i + |pat|] == t[i + 1..i + 1 + |pat|];
    }
  }

  /** No match starting inside `a` means `a` is copied unchanged. */
  lemma {:induction false} ReplaceKeepsPrefix(a: string, b: string, pat: string, rep: string)
    requires |pat| > 0
    requires forall i :: 0 <= i < |a| ==> !MatchAt(a + b, i, pat)
    ensures Replace(a + b, pat, rep) == a + Replace(b, pat, rep)
    decreases |a|
  {
    if a == [] {
      assert a + b == b;
    } else {
      var t := a + b;
      assert t[1..] == a[1..] + b;
      forall i | 0 <= i < |a[1..]|
        ensures !MatchAt(a[1..] + b, i, pat)
      {
        MatchShift(t, i, pat);
      }
      ReplaceKeepsPrefix(a[1..], b, pat, rep);
      ReplaceNoMatchHere(t, pat, rep);
      assert a == [a[0]] + a[1..];
    }
  }

  /** `s` with every `c` deleted, one character at a time. */
  function Without(s: string, c: char): (r: string)
    decreases |s|
  {
    if s == [] then [] else (if s[0] == c then [] else [s[0]]) + Without(s[1..], c)
  }

  /** Deleting a one-character pattern with `replace` is `Without`. */
  lemma {:induction false} ReplaceCharIsWithout(s: string, c: char)
    ensures Replace(s, [c], "") == Without(s, c)
    decreases |s|
  {
    if s != [] {
      assert s == [s[0]] + s[1..];
      ReplaceCharCons(s[0], s[1..], c, "");
      ReplaceCharIsWithout(s[1..], c);
    }
  }

  lemma {:induction false} WithoutConcat(a: string, b: string, c: char)
    ensures Without(a + b, c) == Without(a, c) + Without(b, c)
    decreases |a|
  {
    if a == [] {
      assert a + b == b;
    } else {
      assert (a + b)[1..] == a[1..] + b;
      WithoutConcat(a[1..], b, c);
    }
  }

  lemma {:induction false} WithoutAbsent(s: string, c: char)
    requires c !in s
    ensures Without(s, c) == s
    decreases |s|
  {
    if s != [] {
      WithoutAbsent(s[1..], c);
      assert s == [s[0]] + s[1..];
    }
  }

  /** Deleting two different characters, in either order, gives the same string. */
  lemma {:induction false} RemoveCharsCommute(s: string, a: char, b: char)
    ensures Replace(Replace(s, [a], ""), [b], "") == Replace(Replace(s, [b], ""), [a], "")
    decreases |s|
  {
    if s != [] {
      assert s == [s[0]] + s[1..];
      var t := s[1..];
      ReplaceCharCons(s[0], t, a, "");
      ReplaceCharCons(s[0], t, b, "");
      var ta := Replace(t, [a], "");
      var tb := Replace(t, [b], "");
      var ha: string := if s[0] == a then "" else [s[0]];
      var hb: string := if s[0] == b then "" else [s[0]];
      ReplaceCharConcat(ha, ta, b, "");
      ReplaceCharConcat(hb, tb, a, "");
      if s[0] != a {
        ReplaceCharCons(s[0], [], b, "");
        assert [s[0]] + [] == [s[0]];
      }
      if s[0] != b {
        ReplaceCharCons(s[0], [], a, "");
        assert [s[0]] + [] == [s[0]];
      }
      RemoveCharsCommute(t, a, b);
    }
  }

  // ---------------------------------------------------------------------------
  // Whitespace stripping, as float() does before parsing
  // ---------------------------------------------------------------------------

  /** Whitespace as `float()` strips it: space and tab to carriage return, and
      the non-ASCII characters `str.isspace` accepts (next line, no-break
      space, the Unicode space separators, line and paragraph separators),
      which `float()` first turns into spaces.  The ASCII information
      separators U+001C to U+001F are kept, so `float()` rejects them. */
  predicate IsSpace(c: char) {
    '\t' <= c <= '\r' || c == ' ' || c == '\U{0085}' || c == '\U{00A0}' ||
    c == '\U{1680}' || '\U{2000}' <= c <= '\U{200A}' || c == '\U{2028}' || c == '\U{2029}' ||
    c == '\U{202F}' || c == '\U{205F}' || c == '\U{3000}'
  }

  predicate AllSpace(s: string) {
    forall i :: 0 <= i < |s| ==> IsSpace(s[i])
  }

  function TrimStart(s: string): string
    decreases |s|
  {
    if s != [] && IsSpace(s[0]) then TrimStart(s[1..]) else s
  }

  function TrimEnd(s: string): string
    decreases |s|
  {
    if s != [] && IsSpace(s[|s| - 1]) then TrimEnd(s[..|s| - 1]) else s
  }

  /** Leading and trailing whitespace removed. */
  function Strip(s: string): string {
    TrimEnd(TrimStart(s))
  }

  lemma {:induction false} TrimStartPadded(pre: string, t: string)
    requires AllSpace(pre)
    requires t == [] || !IsSpace(t[0])
    ensures TrimStart(pre + t) == t
    decreases |pre|
  {
    if pre == [] {
      assert pre + t == t;
    } else {
      assert (pre + t)[1..] == pre[1..] + t;
      TrimStartPadded(pre[1..], t);
    }
  }

  lemma {:induction false} TrimEndPadded(t: string, post: string)
    requires AllSpace(post)
    requires t == [] || !IsSpace(t[|t| - 1])
    ensures TrimEnd(t + post) == t
    decreases |post|
  {
    if post == [] {
      assert t + post == t;
    } else {
      var p := post[..|post| - 1];
      assert (t + post)[..|t + post| - 1] == t + p;
      TrimEndPadded(t, p);
    }
  }

  /** Stripping whitespace padding recovers the text it surrounds. */
  lemma StripPadded(pre: string, t: string, post: string)
    requires AllSpace(pre) && AllSpace(post)
    requires |t| > 0 && !IsSpace(t[0]) && !IsSpace(t[|t| - 1])
    ensures Strip(pre + t + post) == t
  {
    assert pre + t + post == pre + (t + post);
    TrimStartPadded(pre, t + post);
    TrimEndPadded(t, post);
  }

  // ---------------------------------------------------------------------------
  // str.split on one character
  // ---------------------------------------------------------------------------

  /** Index of the first `c` in `s`, or `|s|` when there is none. */
  function FindChar(s: string, c: char): (k: nat)
    ensures k <= |s|
    ensures k < |s| ==> s[k] == c
    ensures forall i :: 0 <= i < k ==> s[i] != c
  {
    if s == [] then 0
    else if s[0] == c then 0
    else 1 + FindChar(s[1..], c)
  }

  /** Number of occurrences of `c` in `s`. */
  function Count(s: string, c: char): nat {
    if s == [] then 0 else (if s[0] == c then 1 else 0) + Count(s[1..], c)
  }

  lemma {:induction false} CountConcat(a: string, b: string, c: char)
    ensures Count(a + b, c) == Count(a, c) + Count(b, c)
    decreases |a|
  {
    if a == [] {
      assert a + b == b;
    } else {
      assert (a + b)[1..] == a[1..] + b;
      CountConcat(a[1..], b, c);
    }
  }

  lemma {:induction false} CountZero(s: string, c: char)
    ensures Count(s, c) == 0 <==> c !in s
    decreases |s|
  {
    if s != [] {
      CountZero(s[1..], c);
      assert s == [s[0]] + s[1..];
    }
  }

  /** `s.split(sep)`: the pieces between occurrences of `sep`. */
  function Split(s: string, sep: char): (parts: seq<string>)
    ensures |parts| > 0
    decreases |s|
  {
    var k := FindChar(s, sep);
    if k == |s| then [s] else [s[..k]] + Split(s[k + 1..], sep)
  }

  /** `sep.join(parts)`. */
  function Join(parts: seq<string>, sep: char): string {
    if |parts| == 0 then ""
    else if |parts| == 1 then parts[0]
    else parts[0] + [sep] + Join(parts[1..], sep)
  }

  /** Splitting yields one more piece than there are separators. */
  lemma {:induction false} SplitCount(s: string, sep: char)
    ensures |Split(s, sep)| == Count(s, sep) + 1
    decreases |s|
  {
    var k := FindChar(s, sep);
    CountZero(s[..k], sep);
    if k == |s| {
      assert s[..k] == s;
    } else {
      assert s == s[..k] + [sep] + s[k + 1..];
      CountConcat(s[..k] + [sep], s[k + 1..], sep);
      CountConcat(s[..k], [sep], sep);
      SplitCount(s[k + 1..], sep);
    }
  }

  /** No piece contains the separator. */
  lemma {:induction false} SplitPieces(s: string, sep: char)
    ensures forall p :: p in Split(s, sep) ==> sep !in p
    decreases |s|
  {
    var k := FindChar(s, sep);
    if k < |s| {
      SplitPieces(s[k + 1..], sep);
    }
  }

  /** Joining the pieces with the separator gives back the original string. */
  lemma {:induction false} JoinSplit(s: string, sep: char)
    ensures Join(Split(s, sep), sep) == s
    decreases |s|
  {
    var k := FindChar(s, sep);
    if k < |s| {
      JoinSplit(s[k + 1..], sep);
      var rest := Split(s[k + 1..], sep);
      assert Split(s, sep) == [s[..k]] + rest;
      assert ([s[..k]] + rest)[1..] == rest;
      assert s == s[..k] + [sep] + s[k + 1..];
    }
  }

  /** Splitting a string with exactly one separator at `k`. */
  lemma SplitOnce(s: string, sep: char, k: nat)
    requires k < |s| && s[k] == sep
    requires sep !in s[..k] && sep !in s[k + 1..]
    ensures Split(s, sep) == [s[..k], s[k + 1..]]
  {
    assert FindChar(s, sep) == k;
    var r := s[k + 1..];
    assert FindChar(r, sep) == |r|;
  }
}
