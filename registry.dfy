/** The per-customer registry that `getBCAs` fills (main.py:59-73): each
    uploaded workbook's summary, indexed by metric, stored in the session under
    a customer name. */
module Registry {
  import opened Cells

  /** One workbook's summary table after `set_index("Metric")`: metric, then
      column key (`"<pline> Per Unit"`, `"<pline> Cumulative"`, ...), then cell. */
  type Summary = map<string, map<string, Cell>>

  /** `st.session_state[customer]` for every customer loaded so far. */
  type Store = map<string, Summary>

  predicate Distinct(s: seq<string>) {
    forall i, j :: 0 <= i < j < |s| ==> s[i] != s[j]
  }

  /** `Series.unique()`: the names without repeats, in first-seen order. */
  function Dedup(names: seq<string>): (u: seq<string>)
    ensures Distinct(u)
    ensures forall n :: n in u <==> n in names
    decreases |names|
  {
    if names == [] then []
    else
      var u := Dedup(names[..|names| - 1]);
      var n := names[|names| - 1];
      if n in u then u else u + [n]
  }

  /** Index of the first occurrence of `n` in `s`, or `|s|` when absent. */
  function IndexOf(s: seq<string>, n: string): (k: nat)
    ensures k <= |s|
    ensures k < |s| <==> n in s
    ensures k < |s| ==> s[k] == n && forall i :: 0 <= i < k ==> s[i] != n
  {
    if s == [] then 0 else if s[0] == n then 0 else 1 + IndexOf(s[1..], n)
  }

  /** Appending a name does not move the first occurrence of one already there. */
  lemma IndexOfSnoc(p: seq<string>, n: string, x: string)
    requires x in p
    ensures IndexOf(p + [n], x) == IndexOf(p, x)
  {
    var k := IndexOf(p, x);
    assert (p + [n])[k] == x;
    var j := IndexOf(p + [n], x);
    assert j <= k;
    assert p[j] == (p + [n])[j];
  }

  /** The distinct names are listed in the order of their first occurrences. */
  predicate FirstSeenOrder(u: seq<string>, names: seq<string>) {
    forall i, j :: 0 <= i < j < |u| ==> IndexOf(names, u[i]) < IndexOf(names, u[j])
  }

  lemma FirstSeenSnoc(u: seq<string>, p: seq<string>, n: string)
    requires FirstSeenOrder(u, p) && (forall x :: x in u ==> x in p)
    ensures FirstSeenOrder(u, p + [n])
  {
    forall i, j | 0 <= i < j < |u|
      ensures IndexOf(p + [n], u[i]) < IndexOf(p + [n], u[j])
    {
      IndexOfSnoc(p, n, u[i]);
      IndexOfSnoc(p, n, u[j]);
    }
  }

  lemma FirstSeenAppend(u: seq<string>, p: seq<string>, n: string)
    requires FirstSeenOrder(u, p) && (forall x :: x in u ==> x in p) && n !in p
    ensures FirstSeenOrder(u + [n], p + [n])
  {
    FirstSeenSnoc(u, p, n);
    var v := u + [n];
    assert IndexOf(p + [n], n) == |p|;
    forall i, j | 0 <= i < j < |v|
      ensures IndexOf(p + [n], v[i]) < IndexOf(p + [n], v[j])
    {
      assert v[i] == u[i];
      IndexOfSnoc(p, n, u[i]);
      if j < |u| {
        assert v[j] == u[j];
      }
    }
  }

  /** `Dedup` keeps the order of first occurrences. */
  lemma {:induction false} DedupFirstSeen(names: seq<string>)
    ensures FirstSeenOrder(Dedup(names), names)
    decreases |names|
  {
    if names != [] {
      var p := names[..|names| - 1];
      var n := names[|names| - 1];
      assert names == p + [n];
      DedupFirstSeen(p);
      var u := Dedup(p);
      if n in u {
        FirstSeenSnoc(u, p, n);
      } else {
        FirstSeenAppend(u, p, n);
      }
    }
  }

  /** `store` after `store[keys[i]] = values[i]` for every `i < n`, in order. */
  function StoreFirst(store: Store, keys: seq<string>, values: seq<Summary>, n: nat): Store
    requires n <= |keys| && n <= |values|
  {
    if n == 0 then store else StoreFirst(store, keys, values, n - 1)[keys[n - 1] := values[n - 1]]
  }

  /** After storing, every key of the batch holds the value of its last position. */
  lemma {:induction false} StoreFirstHeld(store: Store, keys: seq<string>, values: seq<Summary>, n: nat)
    requires n <= |keys| && n <= |values|
    ensures forall k :: k in keys[..n] ==>
      k in StoreFirst(store, keys, values, n) &&
      exists i :: 0 <= i < n && keys[i] == k && StoreFirst(store, keys, values, n)[k] == values[i] &&
        forall j :: i < j < n ==> keys[j] != k
  {
    if n > 0 {
      StoreFirstHeld(store, keys, values, n - 1);
      var r := StoreFirst(store, keys, values, n);
      assert keys[..n] == keys[..n - 1] + [keys[n - 1]];
      forall k | k in keys[..n]
        ensures k in r &&
          exists i :: 0 <= i < n && keys[i] == k && r[k] == values[i] &&
            forall j :: i < j < n ==> keys[j] != k
      {
        if k == keys[n - 1] {
          assert 0 <= n - 1 < n && keys[n - 1] == k && r[k] == values[n - 1];
        } else {
          assert k in keys[..n - 1];
        }
      }
    }
  }

  /** A key outside the batch keeps what it had, and no key is added or lost. */
  lemma {:induction false} StoreFirstOthers(store: Store, keys: seq<string>, values: seq<Summary>, n: nat)
    requires n <= |keys| && n <= |values|
    ensures forall k :: k !in keys[..n] ==>
      (k in StoreFirst(store, keys, values, n) <==> k in store) &&
      (k in store ==> StoreFirst(store, keys, values, n)[k] == store[k])
  {
    if n > 0 {
      StoreFirstOthers(store, keys, values, n - 1);
      assert keys[..n] == keys[..n - 1] + [keys[n - 1]];
    }
  }

  /** When the keys are distinct, the `i`-th key holds exactly the `i`-th value. */
  lemma StoreFirstDistinct(store: Store, keys: seq<string>, values: seq<Summary>, n: nat, i: nat)
    requires n <= |keys| && n <= |values| && Distinct(keys) && i < n
    ensures keys[i] in StoreFirst(store, keys, values, n)
    ensures StoreFirst(store, keys, values, n)[keys[i]] == values[i]
  {
    StoreFirstHeld(store, keys, values, n);
    assert keys[..n][i] == keys[i];
  }

  function Min(a: nat, b: nat): nat {
    if a < b then a else b
  }

  /** The session: the registry, updated in place by every load. */
  class Session {
    var store: Store

    constructor ()
      ensures store == map[]
    {
      store := map[];
    }

    /** `getBCAs` as written (main.py:64-65, 72): `zip` pairs the `i`-th
        distinct customer name with the `i`-th uploaded file, stopping at the
        shorter of the two. */
    method LoadAsWritten(names: seq<string>, summaries: seq<Summary>)
      modifies this
      ensures store == StoreFirst(old(store), Dedup(names), summaries, Min(|Dedup(names)|, |summaries|))
    {
      var customers := Dedup(names);
      var n := Min(|customers|, |summaries|);
      var i := 0;
      while i < n
        invariant 0 <= i <= n
        invariant store == StoreFirst(old(store), customers, summaries, i)
      {
        store := store[customers[i] := summaries[i]];
        i := i + 1;
      }
    }

    /** Each file stored under its own customer name: `names[i]` is the name
        read from the `i`-th file (main.py:113-117). A later file of the same
        customer replaces an earlier one. */
    method Load(names: seq<string>, summaries: seq<Summary>)
      requires |names| == |summaries|
      modifies this
      ensures store == StoreFirst(old(store), names, summaries, |names|)
    {
      var i := 0;
      while i < |names|
        invariant 0 <= i <= |names|
        invariant store == StoreFirst(old(store), names, summaries, i)
      {
        store := store[names[i] := summaries[i]];
        i := i + 1;
      }
    }
  }

  /** With one name per file, every customer of the batch ends up holding the
      summary of a file bearing that name; nothing else changes. */
  lemma LoadAttributes(store: Store, names: seq<string>, summaries: seq<Summary>)
    requires |names| == |summaries|
    ensures var r := StoreFirst(store, names, summaries, |names|);
      (forall n :: n in names ==>
        n in r && exists i :: 0 <= i < |names| && names[i] == n && r[n] == summaries[i]) &&
      (forall n :: n !in names && n in store ==> n in r && r[n] == store[n])
  {
    StoreFirstHeld(store, names, summaries, |names|);
    StoreFirstOthers(store, names, summaries, |names|);
    assert names[..|names|] == names;
  }

  /** In the code as written, a repeated name shifts the files: with files named
      A, A and B, customer B is given the second file, which is A's. */
  lemma DuplicateNameMisattributes(s0: Summary, s1: Summary, s2: Summary)
    requires s1 != s2
    ensures var names := ["A", "A", "B"];
      var u := Dedup(names);
      var r := StoreFirst(map[], u, [s0, s1, s2], Min(|u|, 3));
      names[2] == "B" && names[1] == "A" && "B" in r && r["B"] == s1 && r["B"] != s2
  {
    var names := ["A", "A", "B"];
    assert names[..2][..1] == ["A"];
    assert names[..1] == ["A"];
    assert names[..2] == ["A", "A"];
    assert Dedup(["A"]) == ["A"];
    assert Dedup(["A", "A"]) == ["A"];
    assert Dedup(names) == ["A", "B"];
  }

  /** The corrected load gives B its own file. */
  lemma DuplicateNameCorrected(s0: Summary, s1: Summary, s2: Summary)
    ensures var r := StoreFirst(map[], ["A", "A", "B"], [s0, s1, s2], 3);
      "B" in r && r["B"] == s2 && "A" in r && r["A"] == s1
  {
  }
}
