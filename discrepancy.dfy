/** `getDescripancy` (main.py:85-108): in every product-line column, the
    customers whose value has no other customer's value within five percent. */
module Discrepancy {
  import opened Wrappers
  import opened Numerals
  import opened Cells
  import opened Comparison

  // ---------------------------------------------------------------------------
  // The band rule
  // ---------------------------------------------------------------------------

  /** Python's `min(a, b)`: `b` only when it is strictly smaller. */
  function Min(a: real, b: real): real {
    if b < a then b else a
  }

  /** Python's `max(a, b)`: `b` only when it is strictly larger. */
  function Max(a: real, b: real): real {
    if b > a then b else a
  }

  /** `lower` and `upper` of main.py:101-102. */
  function Lower(v: real): real {
    Min(v * 0.95, v * 1.05)
  }

  function Upper(v: real): real {
    Max(v * 0.95, v * 1.05)
  }

  /** `other < lower or other > upper` (main.py:104). Every comparison with NaN
      is false, so a NaN is never outside a band and no value is outside a NaN's. */
  predicate Outside(w: Number, v: Number) {
    match (w, v)
    case (Finite(a), Finite(b)) => a < Lower(b) || a > Upper(b)
    case _ => false
  }

  /** The band is five percent of `|v|` on either side of `v`, whatever the
      sign of `v`. */
  lemma BandIsFivePercent(w: real, v: real)
    ensures Outside(Finite(w), Finite(v)) <==> Abs(w - v) > 0.05 * Abs(v)
  {
    if v >= 0.0 {
      assert Lower(v) == v * 0.95 && Upper(v) == v * 1.05;
    } else {
      assert Lower(v) == v * 1.05 && Upper(v) == v * 0.95;
    }
  }

  /** A value is never outside its own band. */
  lemma NotOutsideItself(v: Number)
    ensures !Outside(v, v)
  {
    if v.Finite? {
      BandIsFivePercent(v.r, v.r);
    }
  }

  /** The band of 100 holds 95, but the band of 95 does not hold 100: the rule is
      not symmetric. */
  lemma BandNotSymmetric()
    ensures !Outside(Finite(95.0), Finite(100.0))
    ensures Outside(Finite(100.0), Finite(95.0))
  {
    BandIsFivePercent(95.0, 100.0);
    BandIsFivePercent(100.0, 95.0);
  }

  // ---------------------------------------------------------------------------
  // Reading a column
  // ---------------------------------------------------------------------------

  /** The numbers read from a column, top to bottom, skipping what is not read
      (main.py:91-98). */
  function ParsedValues(col: seq<Cell>): seq<Number>
    decreases |col|
  {
    if col == [] then []
    else
      var rest := ParsedValues(col[..|col| - 1]);
      match ParseCell(col[|col| - 1])
      case Some(x) => rest + [x]
      case None => rest
  }

  /** The customers whose cells were read, in the same order. */
  function ParsedNames(col: seq<Cell>, customers: seq<string>): seq<string>
    requires |col| <= |customers|
    decreases |col|
  {
    if col == [] then []
    else
      var rest := ParsedNames(col[..|col| - 1], customers);
      if ParseCell(col[|col| - 1]).Some? then rest + [customers[|col| - 1]] else rest
  }

  /** The rows whose cells were read, in increasing order. */
  function ParsedRows(col: seq<Cell>): (rows: seq<nat>)
    ensures |rows| == |ParsedValues(col)|
    ensures forall k :: 0 <= k < |rows| ==> rows[k] < |col|
    decreases |col|
  {
    if col == [] then []
    else
      var rest := ParsedRows(col[..|col| - 1]);
      if ParseCell(col[|col| - 1]).Some? then rest + [|col| - 1] else rest
  }

  /** The rows read are exactly those whose cell parses, in increasing order. */
  lemma {:induction false} ParsedRowsExact(col: seq<Cell>)
    ensures var rows := ParsedRows(col);
      (forall k, l :: 0 <= k < l < |rows| ==> rows[k] < rows[l]) &&
      (forall i :: 0 <= i < |col| ==> (i in rows <==> ParseCell(col[i]).Some?))
    decreases |col|
  {
    if col != [] {
      var p := col[..|col| - 1];
      ParsedRowsExact(p);
      forall i | 0 <= i < |p|
        ensures p[i] == col[i]
      {
      }
    }
  }

  /** The `k`-th value and name read come from the `k`-th row read. */
  lemma {:induction false} ParsedRowsSpec(col: seq<Cell>, customers: seq<string>)
    requires |col| <= |customers|
    ensures var rows, vs, ns := ParsedRows(col), ParsedValues(col), ParsedNames(col, customers);
      |rows| == |vs| == |ns| &&
      (forall k :: 0 <= k < |rows| ==>
        ParseCell(col[rows[k]]) == Some(vs[k]) && ns[k] == customers[rows[k]])
    decreases |col|
  {
    if col != [] {
      var p := col[..|col| - 1];
      ParsedRowsSpec(p, customers);
      forall i | 0 <= i < |p|
        ensures p[i] == col[i]
      {
      }
    }
  }

  /** A cell that does not parse can be replaced by the sentinel without changing
      the values read: skipped cells are never counted as zero or as anything else. */
  lemma {:induction false} SkippedCellIrrelevant(col: seq<Cell>, i: nat)
    requires i < |col| && ParseCell(col[i]).None?
    ensures ParsedValues(col[i := Missing]) == ParsedValues(col)
    decreases |col|
  {
    var c := col[i := Missing];
    var p, q := col[..|col| - 1], c[..|c| - 1];
    if i < |col| - 1 {
      assert q == p[i := Missing];
      SkippedCellIrrelevant(p, i);
    } else {
      assert q == p;
    }
  }

  /** Nor the customers read. */
  lemma {:induction false} SkippedCellNames(col: seq<Cell>, customers: seq<string>, i: nat)
    requires |col| <= |customers| && i < |col| && ParseCell(col[i]).None?
    ensures ParsedNames(col[i := Missing], customers) == ParsedNames(col, customers)
    decreases |col|
  {
    var c := col[i := Missing];
    var p, q := col[..|col| - 1], c[..|c| - 1];
    if i < |col| - 1 {
      assert q == p[i := Missing];
      SkippedCellNames(p, customers, i);
    } else {
      assert q == p;
    }
  }

  // ---------------------------------------------------------------------------
  // Flagging
  // ---------------------------------------------------------------------------

  /** `all(other < lower or other > upper for other in others)` for the value at
      `k` (main.py:103-104): every other value lies outside its band. */
  predicate Flagged(values: seq<Number>, k: nat)
    requires k < |values|
  {
    forall i :: 0 <= i < |values| && i != k ==> Outside(values[i], values[k])
  }

  /** The flagged names of the first `n` values, in order (main.py:100-105). */
  function Outliers(values: seq<Number>, names: seq<string>, n: nat): seq<string>
    requires n <= |values| && n <= |names|
  {
    if n == 0 then []
    else
      var rest := Outliers(values, names, n - 1);
      if Flagged(values, n - 1) then rest + [names[n - 1]] else rest
  }

  /** The flagged positions of the first `n` values, in increasing order. */
  function FlaggedRows(values: seq<Number>, n: nat): seq<nat>
    requires n <= |values|
  {
    if n == 0 then []
    else
      var rest := FlaggedRows(values, n - 1);
      if Flagged(values, n - 1) then rest + [n - 1] else rest
  }

  /** The outliers are the names at exactly the flagged positions, in order. */
  lemma {:induction false} OutliersSpec(values: seq<Number>, names: seq<string>, n: nat)
    requires n <= |values| && n <= |names|
    ensures var rows, out := FlaggedRows(values, n), Outliers(values, names, n);
      |rows| == |out| &&
      (forall k, l :: 0 <= k < l < |rows| ==> rows[k] < rows[l]) &&
      (forall k :: 0 <= k < |rows| ==> rows[k] < n && out[k] == names[rows[k]]) &&
      (forall i :: 0 <= i < n ==> (i in rows <==> Flagged(values, i)))
  {
    if n > 0 {
      OutliersSpec(values, names, n - 1);
    }
  }

  /** A column with one readable value flags its customer: `others` is empty and
      `all` of nothing holds. */
  lemma SingleValueFlagged(v: Number, name: string)
    ensures Outliers([v], [name], 1) == [name]
  {
    assert Flagged([v], 0);
  }

  /** Two values each outside the other's band are both flagged. */
  lemma TwoApartBothFlagged(a: Number, b: Number, x: string, y: string)
    requires Outside(a, b) && Outside(b, a)
    ensures Outliers([a, b], [x, y], 2) == [x, y]
  {
    assert Flagged([a, b], 0);
    assert Outliers([a, b], [x, y], 1) == [x];
    assert Flagged([a, b], 1);
  }

  /** Two finite values more than five percent of either apart are both flagged. */
  lemma FarApartBothFlagged(a: real, b: real, x: string, y: string)
    requires Abs(a - b) > 0.05 * Abs(a) && Abs(a - b) > 0.05 * Abs(b)
    ensures Outliers([Finite(a), Finite(b)], [x, y], 2) == [x, y]
  {
    BandIsFivePercent(a, b);
    BandIsFivePercent(b, a);
    TwoApartBothFlagged(Finite(a), Finite(b), x, y);
  }

  /** With two or more equal values, none is flagged. */
  lemma {:induction false} AllEqualNoneFlagged(values: seq<Number>, names: seq<string>, n: nat)
    requires 2 <= |values| && n <= |values| && n <= |names|
    requires forall i :: 0 <= i < |values| ==> values[i] == values[0]
    ensures Outliers(values, names, n) == []
  {
    if n > 0 {
      AllEqualNoneFlagged(values, names, n - 1);
      var k := n - 1;
      var i := if k == 0 then 1 else 0;
      NotOutsideItself(values[0]);
      assert !Outside(values[i], values[k]);
    }
  }

  /** A NaN among two or more values prevents every flag in the column. */
  lemma {:induction false} NaNSuppressesFlags(values: seq<Number>, names: seq<string>, n: nat, z: nat)
    requires 2 <= |values| && n <= |values| && n <= |names| && z < |values| && values[z] == NaN
    ensures Outliers(values, names, n) == []
  {
    if n > 0 {
      NaNSuppressesFlags(values, names, n - 1, z);
      var k := n - 1;
      if k == z {
        var i := if k == 0 then 1 else 0;
        assert !Outside(values[i], values[k]);
      } else {
        assert !Outside(values[z], values[k]);
      }
    }
  }

  /** Values 100, 102 and 200: only the customer at 200 is flagged. */
  lemma ThreeValuesExample()
    ensures Outliers([Finite(100.0), Finite(102.0), Finite(200.0)], ["A", "B", "C"], 3) == ["C"]
  {
    var vs := [Finite(100.0), Finite(102.0), Finite(200.0)];
    assert !Outside(vs[1], vs[0]);
    assert !Outside(vs[0], vs[1]);
    assert Outside(vs[0], vs[2]) && Outside(vs[1], vs[2]);
    assert Flagged(vs, 2);
  }

  // ---------------------------------------------------------------------------
  // The report
  // ---------------------------------------------------------------------------

  /** The outliers of product-line column `j`. */
  function ColumnOutliers(m: Matrix, j: nat): seq<string>
    requires WellFormed(m) && j < |m.plines|
  {
    var col := m.columns[j];
    var vs := ParsedValues(col);
    ParsedRowsSpec(col, m.customers);
    Outliers(vs, ParsedNames(col, m.customers), |vs|)
  }

  /** The outliers of every product-line column, in column order. */
  function AllOutliers(m: Matrix): (outs: seq<seq<string>>)
    requires WellFormed(m)
    ensures |outs| == |m.plines|
    ensures forall j :: 0 <= j < |m.plines| ==> outs[j] == ColumnOutliers(m, j)
  {
    seq(|m.plines|, j requires 0 <= j < |m.plines| => ColumnOutliers(m, j))
  }

  /** `outlier_result` for the first `n` columns, given each column's outliers:
      a column is listed, in column order, when it has an outlier
      (main.py:106-107). */
  function ReportOf(plines: seq<string>, outs: seq<seq<string>>, n: nat): seq<(string, seq<string>)>
    requires n <= |plines| && n <= |outs|
  {
    if n == 0 then []
    else
      var rest := ReportOf(plines, outs, n - 1);
      if outs[n - 1] != [] then rest + [(plines[n - 1], outs[n - 1])] else rest
  }

  /** `getDescripancy`'s result for the whole matrix. */
  function Report(m: Matrix): seq<(string, seq<string>)>
    requires WellFormed(m)
  {
    ReportOf(m.plines, AllOutliers(m), |m.plines|)
  }

  /** The columns with an outlier, in column order. */
  function ReportedColumns(outs: seq<seq<string>>, n: nat): seq<nat>
    requires n <= |outs|
  {
    if n == 0 then []
    else
      var rest := ReportedColumns(outs, n - 1);
      if outs[n - 1] != [] then rest + [n - 1] else rest
  }

  /** The columns reported are in increasing order. */
  lemma {:induction false} ReportedColumnsOrdered(outs: seq<seq<string>>, n: nat)
    requires n <= |outs|
    ensures forall k :: 0 <= k < |ReportedColumns(outs, n)| ==> ReportedColumns(outs, n)[k] < n
    ensures forall k, l :: 0 <= k < l < |ReportedColumns(outs, n)| ==>
      ReportedColumns(outs, n)[k] < ReportedColumns(outs, n)[l]
  {
    if n > 0 {
      ReportedColumnsOrdered(outs, n - 1);
      var rest := ReportedColumns(outs, n - 1);
      if outs[n - 1] != [] {
        var cols := rest + [n - 1];
        assert ReportedColumns(outs, n) == cols;
        forall k | 0 <= k < |cols|
          ensures cols[k] < n
        {
          if k < |rest| {
            assert cols[k] == rest[k];
          }
        }
        forall k, l | 0 <= k < l < |cols|
          ensures cols[k] < cols[l]
        {
          assert cols[k] == rest[k];
          if l < |rest| {
            assert cols[l] == rest[l];
          }
        }
      } else {
        assert ReportedColumns(outs, n) == rest;
      }
    }
  }

  /** The columns reported are exactly those with an outlier. */
  lemma {:induction false} ReportedColumnsExact(outs: seq<seq<string>>, n: nat)
    requires n <= |outs|
    ensures forall j :: 0 <= j < n ==> (j in ReportedColumns(outs, n) <==> outs[j] != [])
  {
    if n > 0 {
      ReportedColumnsExact(outs, n - 1);
      ReportedColumnsOrdered(outs, n - 1);
      assert n - 1 !in ReportedColumns(outs, n - 1);
    }
  }

  /** The `k`-th entry of the report is the `k`-th column with an outlier, named
      and listed with its outliers. */
  lemma {:induction false} ReportSpec(plines: seq<string>, outs: seq<seq<string>>, n: nat)
    requires n <= |plines| && n <= |outs|
    ensures var cols, r := ReportedColumns(outs, n), ReportOf(plines, outs, n);
      |cols| == |r| &&
      forall k :: 0 <= k < |cols| ==>
        cols[k] < n && r[k] == (plines[cols[k]], outs[cols[k]]) && r[k].1 != []
  {
    ReportedColumnsOrdered(outs, n);
    if n > 0 {
      ReportSpec(plines, outs, n - 1);
    }
  }

  /** For the matrix: the report lists, in column order, exactly the product
      lines with an outlier, each with its outliers. */
  lemma ReportShape(m: Matrix)
    requires WellFormed(m)
    ensures var cols, r := ReportedColumns(AllOutliers(m), |m.plines|), Report(m);
      |cols| == |r| &&
      (forall k, l :: 0 <= k < l < |cols| ==> cols[k] < cols[l]) &&
      (forall j :: 0 <= j < |m.plines| ==> (j in cols <==> ColumnOutliers(m, j) != [])) &&
      (forall k :: 0 <= k < |cols| ==>
        cols[k] < |m.plines| && r[k] == (m.plines[cols[k]], ColumnOutliers(m, cols[k])) && r[k].1 != [])
  {
    var outs := AllOutliers(m);
    ReportedColumnsOrdered(outs, |m.plines|);
    ReportedColumnsExact(outs, |m.plines|);
    ReportSpec(m.plines, outs, |m.plines|);
  }

  /** Every reported name belongs to a row whose cell in that column was read,
      and is flagged among the values read. */
  lemma ReportedNameParsed(m: Matrix, j: nat, k: nat)
    requires WellFormed(m) && j < |m.plines| && k < |ColumnOutliers(m, j)|
    ensures var col := m.columns[j];
      var vs := ParsedValues(col);
      exists l :: 0 <= l < |vs| &&
        Flagged(vs, l) &&
        ParseCell(col[ParsedRows(col)[l]]) == Some(vs[l]) &&
        ColumnOutliers(m, j)[k] == m.customers[ParsedRows(col)[l]]
  {
    var col := m.columns[j];
    var vs := ParsedValues(col);
    var ns := ParsedNames(col, m.customers);
    ParsedRowsSpec(col, m.customers);
    OutliersSpec(vs, ns, |vs|);
    var l := FlaggedRows(vs, |vs|)[k];
    assert FlaggedRows(vs, |vs|)[k] in FlaggedRows(vs, |vs|);
    assert Flagged(vs, l);
  }

  /** A column where B's cell is the sentinel: A's value is the only one read, so
      A is flagged; the sentinel is not read as zero. */
  lemma ReportExample()
    ensures var m := Matrix(["A", "B"], ["P"], [[Float(Finite(100.0)), Missing]]);
      WellFormed(m) && Report(m) == [("P", ["A"])]
  {
    var m := Matrix(["A", "B"], ["P"], [[Float(Finite(100.0)), Missing]]);
    var col := m.columns[0];
    assert col[..1] == [Float(Finite(100.0))];
    assert col[..1][..0] == [];
    assert ParsedValues(col) == [Finite(100.0)];
    assert ParsedNames(col, m.customers) == ["A"];
    SingleValueFlagged(Finite(100.0), "A");
  }

  // ---------------------------------------------------------------------------
  // The loops of main.py
  // ---------------------------------------------------------------------------

  /** The inner loop of main.py:90-98. */
  method ParseColumn(col: seq<Cell>, customers: seq<string>) returns (values: seq<Number>, names: seq<string>)
    requires |col| == |customers|
    ensures values == ParsedValues(col) && names == ParsedNames(col, customers)
  {
    values, names := [], [];
    var i := 0;
    while i < |col|
      invariant 0 <= i <= |col|
      invariant values == ParsedValues(col[..i]) && names == ParsedNames(col[..i], customers)
    {
      assert col[..i + 1][..i] == col[..i];
      var v := col[i];
      assert col[..i + 1][i] == v;
      var parsed := ParseCell(v);
      if parsed.Some? {
        values := values + [parsed.value];
        names := names + [customers[i]];
      }
      i := i + 1;
    }
    assert col[..|col|] == col;
  }

  /** The `all(...)` of main.py:103-104 for the value at `k`. */
  method IsFlagged(values: seq<Number>, k: nat) returns (b: bool)
    requires k < |values|
    ensures b == Flagged(values, k)
  {
    var lower, upper := 0.0, 0.0;
    if values[k].Finite? {
      lower := Min(values[k].r * 0.95, values[k].r * 1.05);
      upper := Max(values[k].r * 0.95, values[k].r * 1.05);
    }
    var i := 0;
    while i < |values|
      invariant 0 <= i <= |values|
      invariant forall l :: 0 <= l < i && l != k ==> Outside(values[l], values[k])
    {
      if i != k {
        var outside := match (values[i], values[k])
          case (Finite(a), Finite(_)) => a < lower || a > upper
          case _ => false;
        if !outside {
          return false;
        }
      }
      i := i + 1;
    }
    return true;
  }

  /** The outer loop of main.py:99-105. */
  method FindOutliers(values: seq<Number>, names: seq<string>) returns (outliers: seq<string>)
    requires |values| == |names|
    ensures outliers == Outliers(values, names, |values|)
  {
    outliers := [];
    var k := 0;
    while k < |values|
      invariant 0 <= k <= |values|
      invariant outliers == Outliers(values, names, k)
    {
      var flagged := IsFlagged(values, k);
      if flagged {
        outliers := outliers + [names[k]];
      }
      k := k + 1;
    }
  }

  /** `getDescripancy(comparison)`: the report of every column, in column order. */
  method GetDiscrepancy(m: Matrix) returns (report: seq<(string, seq<string>)>)
    requires WellFormed(m)
    ensures report == Report(m)
  {
    ghost var outs := AllOutliers(m);
    report := [];
    var j := 0;
    while j < |m.plines|
      invariant 0 <= j <= |m.plines|
      invariant report == ReportOf(m.plines, outs, j)
    {
      var values, names := ParseColumn(m.columns[j], m.customers);
      ParsedRowsSpec(m.columns[j], m.customers);
      var outliers := FindOutliers(values, names);
      if outliers != [] {
        report := report + [(m.plines[j], outliers)];
      }
      j := j + 1;
    }
  }
}
