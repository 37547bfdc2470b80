/** The comparison matrix of main.py:185-197: one row per customer, one column
    per product line, each cell looked up in the registry for the selected
    metric and view. */
module Comparison {
  import opened Cells
  import opened Registry

  /** The comparison frame: the "Customer" column, the product-line columns in
      order, and `columns[j][i]`, the cell of product line `j` for customer `i`. */
  datatype Matrix = Matrix(customers: seq<string>, plines: seq<string>, columns: seq<seq<Cell>>)

  /** Every product-line column has one cell per customer. */
  predicate WellFormed(m: Matrix) {
    |m.columns| == |m.plines| &&
    forall j :: 0 <= j < |m.columns| ==> |m.columns[j]| == |m.customers|
  }

  /** The column a product line is read from in the summary (main.py:191-194). */
  function ColumnKey(pline: string, mode: string): string {
    if mode == "Per Unit" then pline + " Per Unit" else pline + " Cumulative"
  }

  /** The "Per Unit" column is read exactly in "Per Unit" mode; every other mode
      reads the cumulative column. */
  lemma ColumnKeyMode(pline: string, mode: string)
    ensures ColumnKey(pline, mode) == pline + " Per Unit" <==> mode == "Per Unit"
    ensures ColumnKey(pline, mode) == pline + " Cumulative" <==> mode != "Per Unit"
  {
    assert |pline + " Per Unit"| != |pline + " Cumulative"|;
  }

  /** Different product lines are read from different columns. */
  lemma ColumnKeyInjective(p: string, q: string, mode: string)
    requires ColumnKey(p, mode) == ColumnKey(q, mode)
    ensures p == q
  {
    var a, b := ColumnKey(p, mode), ColumnKey(q, mode);
    var n := if mode == "Per Unit" then |" Per Unit"| else |" Cumulative"|;
    assert |p| == |a| - n && |q| == |b| - n;
    assert p == a[..|p|] && q == b[..|q|];
  }

  /** `registry[customer].loc[metric, key]`, or the "-" sentinel when the
      customer, the metric or the column is missing (main.py:190-196). */
  function Lookup(store: Store, customer: string, metric: string, key: string): Cell {
    if customer in store && metric in store[customer] && key in store[customer][metric]
    then store[customer][metric][key]
    else Missing
  }

  /** A stored cell that is not the sentinel shows that all three keys exist. */
  lemma LookupFound(store: Store, customer: string, metric: string, key: string)
    requires Lookup(store, customer, metric, key) != Missing
    ensures customer in store && metric in store[customer] && key in store[customer][metric]
  {
  }

  /** The inner loop of main.py:188-196: one cell per customer, the sentinel
      when the lookup raises. */
  method BuildColumn(store: Store, customers: seq<string>, pline: string, metric: string, mode: string)
    returns (values: seq<Cell>)
    ensures |values| == |customers|
    ensures forall r :: 0 <= r < |customers| ==>
      values[r] == Lookup(store, customers[r], metric, ColumnKey(pline, mode))
  {
    values := [];
    var key := ColumnKey(pline, mode);
    var i := 0;
    while i < |customers|
      invariant 0 <= i <= |customers|
      invariant |values| == i
      invariant forall r :: 0 <= r < i ==> values[r] == Lookup(store, customers[r], metric, key)
    {
      var c := customers[i];
      if c in store && metric in store[c] && key in store[c][metric] {
        values := values + [store[c][metric][key]];
      } else {
        values := values + [Missing];
      }
      i := i + 1;
    }
  }

  /** The loop of main.py:185-197: the customer column is the distinct names of
      the uploaded files, then one column per product line. */
  method Build(store: Store, fileCustomers: seq<string>, plines: seq<string>, metric: string, mode: string)
    returns (m: Matrix)
    ensures m.customers == Dedup(fileCustomers) && m.plines == plines
    ensures WellFormed(m)
    ensures forall j, i :: 0 <= j < |plines| && 0 <= i < |m.customers| ==>
      m.columns[j][i] == Lookup(store, m.customers[i], metric, ColumnKey(plines[j], mode))
  {
    var customers := Dedup(fileCustomers);
    var columns: seq<seq<Cell>> := [];
    var j := 0;
    while j < |plines|
      invariant 0 <= j <= |plines|
      invariant |columns| == j
      invariant forall q :: 0 <= q < j ==> |columns[q]| == |customers|
      invariant forall q, i :: 0 <= q < j && 0 <= i < |customers| ==>
        columns[q][i] == Lookup(store, customers[i], metric, ColumnKey(plines[q], mode))
    {
      var values := BuildColumn(store, customers, plines[j], metric, mode);
      columns := columns + [values];
      j := j + 1;
    }
    m := Matrix(customers, plines, columns);
  }

  /** One row per distinct uploaded customer, in first-seen order, and none other. */
  lemma BuildRows(fileCustomers: seq<string>, m: Matrix)
    requires m.customers == Dedup(fileCustomers)
    ensures Distinct(m.customers)
    ensures forall c :: c in m.customers <==> c in fileCustomers
    ensures FirstSeenOrder(m.customers, fileCustomers)
  {
    DedupFirstSeen(fileCustomers);
  }
}
