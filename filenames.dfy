/** `getFileDetails` (main.py:110-119): every uploaded workbook is named
    `<customer>-<date>.xlsx`, and the name is split into those two fields. */
module FileDetails {
  import opened Wrappers
  import opened Strings

  /** One row of the file-details table: "Customer Name" and "Date". */
  datatype Detail = Detail(customer: string, date: string)

  /** `[name, date] = file.name.split("-")` raises when the split does not give
      exactly two pieces; the error keeps the name and how many pieces it gave. */
  datatype NameError = BadFileName(name: string, pieces: nat)

  /** `date.replace(".xlsx", "").replace(".xls", "")` (main.py:116). */
  function StripExtensions(d: string): string {
    Replace(Replace(d, ".xlsx", ""), ".xls", "")
  }

  /** The row for one file name (main.py:113-117). */
  function FileDetail(name: string): (r: Result<Detail, NameError>)
    ensures r.Success? <==> Count(name, '-') == 1
    ensures r.Failure? ==> r.error == BadFileName(name, Count(name, '-') + 1)
  {
    SplitCount(name, '-');
    var parts := Split(name, '-');
    if |parts| == 2 then Success(Detail(parts[0], StripExtensions(parts[1])))
    else Failure(BadFileName(name, |parts|))
  }

  /** With exactly one `-`, split gives the text before it and the text after it. */
  lemma SplitAtDash(name: string)
    requires Count(name, '-') == 1
    ensures var k := FindChar(name, '-');
      k < |name| && Split(name, '-') == [name[..k], name[k + 1..]] &&
      '-' !in name[..k] && '-' !in name[k + 1..]
  {
    SplitCount(name, '-');
    var k := FindChar(name, '-');
    var r := name[k + 1..];
    var parts := Split(name, '-');
    assert k < |name|;
    assert parts == [name[..k]] + Split(r, '-');
    assert |Split(r, '-')| == 1;
    assert FindChar(r, '-') == |r|;
    assert Split(r, '-') == [r];
    SplitPieces(name, '-');
    assert parts[0] in parts && parts[1] in parts;
  }

  /** With exactly one `-`, the customer is what precedes it and the date is what
      follows it, extensions removed; neither contains a `-`. */
  lemma FileDetailSplit(name: string)
    requires Count(name, '-') == 1
    ensures var k := FindChar(name, '-');
      k < |name| &&
      FileDetail(name) == Success(Detail(name[..k], StripExtensions(name[k + 1..]))) &&
      '-' !in name[..k] && '-' !in name[k + 1..]
  {
    SplitAtDash(name);
  }

  /** A name without exactly one `-` is refused, and the error counts the pieces. */
  lemma FileDetailFails(name: string)
    requires Count(name, '-') != 1
    ensures FileDetail(name) == Failure(BadFileName(name, |Split(name, '-')|))
  {
    SplitCount(name, '-');
  }

  /** `.xls` occurs nowhere in `d`. */
  predicate NoXls(d: string) {
    forall i :: 0 <= i < |d| ==> !MatchAt(d, i, ".xls")
  }

  /** Appending an extension that starts with `.` to a date without `.xls`
      creates no match of `.xlsx` or `.xls` that starts inside the date:
      such a match would either lie in the date or put the extension's `.`
      where the pattern has `x`, `l` or `s`. */
  lemma NoMatchInDate(d: string, ext: string, pat: string)
    requires NoXls(d) && |ext| > 0 && ext[0] == '.'
    requires pat == ".xlsx" || pat == ".xls"
    ensures forall i :: 0 <= i < |d| ==> !MatchAt(d + ext, i, pat)
  {
    var s := d + ext;
    forall i | 0 <= i < |d|
      ensures !MatchAt(s, i, pat)
    {
      if i + 4 <= |d| {
        assert !MatchAt(d, i, ".xls");
        assert s[i..i + 4] == d[i..i + 4];
        if i + |pat| <= |s| {
          assert s[i..i + |pat|][..4] == s[i..i + 4];
        }
      } else {
        var j := |d| - i;
        assert s[i + j] == '.' && pat[j] != '.';
        if i + |pat| <= |s| {
          assert s[i..i + |pat|][j] == s[i + j];
        }
      }
    }
  }

  /** Removing `.xlsx` from a date in which `.xls` does not occur. */
  lemma StripXlsx(d: string)
    requires NoXls(d)
    ensures StripExtensions(d + ".xlsx") == d
  {
    NoMatchInDate(d, ".xlsx", ".xlsx");
    ReplaceKeepsPrefix(d, ".xlsx", ".xlsx", "");
    assert Replace(".xlsx", ".xlsx", "") == "";
    assert d + "" == d && d + [] == d;
    ReplaceKeepsPrefix(d, [], ".xls", "");
  }

  /** `.xls` survives the `.xlsx` replacement and is then removed. */
  lemma StripXls(d: string)
    requires NoXls(d)
    ensures StripExtensions(d + ".xls") == d
  {
    NoMatchInDate(d, ".xls", ".xlsx");
    ReplaceKeepsPrefix(d, ".xls", ".xlsx", "");
    assert Replace(".xls", ".xlsx", "") == ".xls";
    NoMatchInDate(d, ".xls", ".xls");
    ReplaceKeepsPrefix(d, ".xls", ".xls", "");
    assert Replace(".xls", ".xls", "") == "";
    assert d + "" == d;
  }

  /** The naming convention round-trips: `c-d.xlsx` gives back `c` and `d`,
      for any date without `-` in which `.xls` does not occur, such as `2024.01`. */
  lemma FileDetailRoundTrip(c: string, d: string)
    requires '-' !in c && '-' !in d && NoXls(d)
    ensures FileDetail(c + "-" + d + ".xlsx") == Success(Detail(c, d))
    ensures FileDetail(c + "-" + d + ".xls") == Success(Detail(c, d))
  {
    SplitName(c, d, ".xlsx");
    StripXlsx(d);
    SplitName(c, d, ".xls");
    StripXls(d);
  }

  /** `c-d` followed by an extension, with no other `-`, splits into `c` and
      the date with its extension. */
  lemma SplitName(c: string, d: string, ext: string)
    requires '-' !in c && '-' !in d && '-' !in ext
    ensures FileDetail(c + "-" + d + ext) == Success(Detail(c, StripExtensions(d + ext)))
  {
    var a := c + "-" + d + ext;
    assert a[..|c|] == c && a[|c| + 1..] == d + ext;
    SplitOnce(a, '-', |c|);
  }

  /** A dotted date keeps its dots: `2024.01.xlsx` becomes `2024.01`. */
  lemma DottedDateStripped()
    ensures StripExtensions("2024.01.xlsx") == "2024.01"
  {
    var d := "2024.01";
    forall i | 0 <= i < |d|
      ensures !MatchAt(d, i, ".xls")
    {
      if i + 4 <= |d| {
        assert d[i..i + 4][1] == d[i + 1];
      }
    }
    assert d + ".xlsx" == "2024.01.xlsx";
    StripXlsx(d);
  }

  /** The loop of main.py:112-117. The first name that does not split in two
      raises, so the whole batch fails with that name's error. */
  method GetFileDetails(files: seq<string>) returns (r: Result<seq<Detail>, NameError>)
    ensures r.Success? <==> forall i :: 0 <= i < |files| ==> Count(files[i], '-') == 1
    ensures r.Success? ==>
      |r.value| == |files| &&
      forall i :: 0 <= i < |files| ==> FileDetail(files[i]) == Success(r.value[i])
    ensures r.Failure? ==>
      exists k :: 0 <= k < |files| && FileDetail(files[k]) == Failure(r.error) &&
        forall i :: 0 <= i < k ==> Count(files[i], '-') == 1
  {
    var details: seq<Detail> := [];
    var i := 0;
    while i < |files|
      invariant 0 <= i <= |files|
      invariant |details| == i
      invariant forall j :: 0 <= j < i ==> FileDetail(files[j]) == Success(details[j])
    {
      var d := FileDetail(files[i]);
      if d.Failure? {
        return Failure(d.error);
      }
      details := details + [d.value];
      i := i + 1;
    }
    return Success(details);
  }
}
