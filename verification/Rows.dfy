/**
 Rows file integers under text keys. A row list is normal when its keys strictly ascend and no
 value is zero; normal rows are the canonical form of a finitely supported key-to-integer map.
 */
module Rows {
  import opened Ordering

  type Row = (string, int)

  function Keys(rows: seq<Row>): (keys: seq<string>)
    ensures |keys| == |rows| && forall i :: 0 <= i < |rows| ==> keys[i] == rows[i].0
  {
    seq(|rows|, i requires 0 <= i < |rows| => rows[i].0)
  }

  predicate Normal(rows: seq<Row>) {
    && Ascending(TextLess, Keys(rows))
    && forall i :: 0 <= i < |rows| ==> rows[i].1 != 0
  }

  /** The sum of everything filed under `key`. */
  function Total(rows: seq<Row>, key: string): int {
    if rows == [] then 0
    else
      var n := |rows| - 1;
      Total(rows[..n], key) + (if rows[n].0 == key then rows[n].1 else 0)
  }

  function Get(m: map<string, int>, key: string): int {
    if key in m then m[key] else 0
  }

  /** The dictionary built from a row list; a later row replaces an earlier one. */
  function ToMap(rows: seq<Row>): map<string, int> {
    if rows == [] then map[] else ToMap(rows[..|rows| - 1])[rows[|rows| - 1].0 := rows[|rows| - 1].1]
  }

  /** Adds every row to the running entry of its key, left to right. */
  function Accumulate(m: map<string, int>, rows: seq<Row>): map<string, int> {
    if rows == [] then m
    else
      var n := |rows| - 1;
      var before := Accumulate(m, rows[..n]);
      before[rows[n].0 := Get(before, rows[n].0) + rows[n].1]
  }

  // ----- canonical forms -----

  lemma {:induction false} LeastOf(s: set<string>) returns (least: string)
    requires s != {}
    ensures least in s && forall x :: x in s ==> x == least || TextLess(least, x)
  {
    TextIsStrictTotal();
    least :| least in s;
    var rest := s - {least};
    assert forall x :: x in s ==> x == least || x in rest;
    if rest != {} {
      var k := LeastOf(rest);
      var y := least;
      least := if TextLess(y, k) then y else k;
    }
  }

  lemma LeastExists(s: set<string>)
    requires s != {}
    ensures exists k :: k in s && forall x :: x in s ==> x == k || TextLess(k, x)
  {
    var least := LeastOf(s);
  }

  function Least(s: set<string>): (k: string)
    requires s != {}
    ensures k in s && forall x :: x in s ==> x == k || TextLess(k, x)
  {
    LeastExists(s);
    TextIsStrictTotal();
    var k :| k in s && forall x :: x in s ==> x == k || TextLess(k, x);
    k
  }

  /** The elements of a set in ascending order. */
  function SortedSet(s: set<string>): (r: seq<string>)
    ensures Ascending(TextLess, r) && Elements(r) == s
  {
    if s == {} then []
    else
      var k := Least(s);
      var rest := SortedSet(s - {k});
      assert forall i :: 0 <= i < |rest| ==> rest[i] in Elements(rest);
      assert Elements([k] + rest) == {k} + Elements(rest);
      [k] + rest
  }

  function RowsAt(keys: seq<string>, m: map<string, int>): (rows: seq<Row>)
    requires forall k :: k in keys ==> k in m
  {
    if keys == [] then []
    else if m[keys[0]] == 0 then RowsAt(keys[1..], m)
    else [(keys[0], m[keys[0]])] + RowsAt(keys[1..], m)
  }

  /** The sorted nonzero items of a dictionary. */
  function FromMap(m: map<string, int>): seq<Row> {
    var keys := SortedSet(m.Keys);
    assert forall k :: k in keys ==> k in Elements(keys);
    RowsAt(keys, m)
  }

  lemma {:induction false} TotalSplit(a: seq<Row>, b: seq<Row>, key: string)
    ensures Total(a + b, key) == Total(a, key) + Total(b, key)
  {
    if b == [] {
      assert a + b == a;
    } else {
      var n := |b| - 1;
      TotalSplit(a, b[..n], key);
      assert (a + b)[..|a| + n] == a + b[..n];
    }
  }

  lemma TotalOfOne(row: Row, key: string)
    ensures Total([row], key) == if row.0 == key then row.1 else 0
  {
    assert [row][..0] == [];
  }

  lemma NormalCons(row: Row, rest: seq<Row>)
    requires Normal(rest) && row.1 != 0 && forall r :: r in rest ==> TextLess(row.0, r.0)
    ensures Normal([row] + rest)
  {
    var rows := [row] + rest;
    forall i, j | 0 <= i < j < |rows| ensures TextLess(Keys(rows)[i], Keys(rows)[j]) {
      assert rows[j] == rest[j - 1];
      if i > 0 { assert TextLess(Keys(rest)[i - 1], Keys(rest)[j - 1]); }
    }
  }

  lemma {:induction false} RowsAtNormal(keys: seq<string>, m: map<string, int>)
    requires Ascending(TextLess, keys) && forall k :: k in keys ==> k in m
    ensures Normal(RowsAt(keys, m))
    ensures forall r :: r in RowsAt(keys, m) ==> r.0 in keys
  {
    if keys != [] {
      var rest := RowsAt(keys[1..], m);
      RowsAtNormal(keys[1..], m);
      assert forall k :: k in keys[1..] ==> TextLess(keys[0], k);
      if m[keys[0]] != 0 { NormalCons((keys[0], m[keys[0]]), rest); }
    }
  }

  lemma {:induction false} RowsAtTotal(keys: seq<string>, m: map<string, int>, key: string)
    requires Distinct(keys) && forall k :: k in keys ==> k in m
    ensures Total(RowsAt(keys, m), key) == if key in keys then m[key] else 0
  {
    if keys != [] {
      RowsAtTotal(keys[1..], m, key);
      assert keys[0] !in keys[1..];
      TotalOfOne((keys[0], m[keys[0]]), key);
      TotalSplit([(keys[0], m[keys[0]])], RowsAt(keys[1..], m), key);
      assert key in keys <==> key == keys[0] || key in keys[1..];
    }
  }

  lemma FromMapProperties(m: map<string, int>)
    ensures Normal(FromMap(m))
    ensures forall k :: Total(FromMap(m), k) == Get(m, k)
  {
    var keys := SortedSet(m.Keys);
    assert forall k :: k in keys <==> k in Elements(keys);
    RowsAtNormal(keys, m);
    TextIsStrictTotal();
    forall k ensures Total(FromMap(m), k) == Get(m, k) { RowsAtTotal(keys, m, k); }
  }

  lemma NormalInit(rows: seq<Row>)
    requires Normal(rows) && rows != []
    ensures var n := |rows| - 1; Normal(rows[..n]) && rows[n].0 !in Keys(rows[..n]) && Keys(rows) == Keys(rows[..n]) + [rows[n].0]
  {
    var n := |rows| - 1;
    TextIsStrictTotal();
    assert forall i :: 0 <= i < n ==> Keys(rows)[i] == Keys(rows[..n])[i];
  }

  lemma {:induction false} NormalTotal(rows: seq<Row>, key: string)
    requires Normal(rows)
    ensures Total(rows, key) != 0 <==> key in Keys(rows)
    ensures Total(rows, key) == Get(ToMap(rows), key)
    ensures key in ToMap(rows) <==> key in Keys(rows)
    ensures forall i :: 0 <= i < |rows| && rows[i].0 == key ==> Total(rows, key) == rows[i].1
  {
    if rows != [] {
      var n := |rows| - 1;
      NormalInit(rows);
      NormalTotal(rows[..n], key);
      forall i | 0 <= i < n && rows[i].0 == key ensures Total(rows, key) == rows[i].1 {
        assert rows[..n][i] == rows[i] && Keys(rows[..n])[i] == key;
      }
    }
  }

  /** In normal rows each key is filed once, so totals are the stored values. */
  lemma NormalTotals(rows: seq<Row>)
    requires Normal(rows)
    ensures forall i :: 0 <= i < |rows| ==> Total(rows, rows[i].0) == rows[i].1
    ensures forall k :: Total(rows, k) != 0 <==> k in Keys(rows)
    ensures forall k :: Total(rows, k) == Get(ToMap(rows), k)
    ensures ToMap(rows).Keys == Elements(Keys(rows))
  {
    forall k
      ensures Total(rows, k) != 0 <==> k in Keys(rows)
      ensures Total(rows, k) == Get(ToMap(rows), k)
      ensures k in ToMap(rows) <==> k in Keys(rows)
    {
      NormalTotal(rows, k);
    }
    forall i | 0 <= i < |rows| ensures Total(rows, rows[i].0) == rows[i].1 { NormalTotal(rows, rows[i].0); }
  }

  /** Two normal row lists that file the same totals are the same list. */
  lemma NormalExtensional(a: seq<Row>, b: seq<Row>)
    requires Normal(a) && Normal(b)
    requires forall k :: Total(a, k) == Total(b, k)
    ensures a == b
  {
    NormalTotals(a);
    NormalTotals(b);
    TextIsStrictTotal();
    assert forall k :: k in Keys(a) <==> k in Keys(b);
    assert Elements(Keys(a)) == Elements(Keys(b));
    AscendingUnique(TextLess, Keys(a), Keys(b));
    forall i | 0 <= i < |a| ensures a[i] == b[i] {
      assert a[i].0 == Keys(a)[i] == Keys(b)[i] == b[i].0;
    }
  }

  lemma {:induction false} AccumulateTotals(m: map<string, int>, rows: seq<Row>, key: string)
    ensures Get(Accumulate(m, rows), key) == Get(m, key) + Total(rows, key)
  {
    if rows != [] { AccumulateTotals(m, rows[..|rows| - 1], key); }
  }

  /** Key-wise sum of two row lists, in normal form. */
  function Merge(a: seq<Row>, b: seq<Row>): seq<Row> {
    FromMap(Accumulate(ToMap(a), b))
  }

  lemma MergeTotals(a: seq<Row>, b: seq<Row>)
    requires Normal(a)
    ensures Normal(Merge(a, b))
    ensures forall k :: Total(Merge(a, b), k) == Total(a, k) + Total(b, k)
  {
    var m := Accumulate(ToMap(a), b);
    FromMapProperties(m);
    NormalTotals(a);
    forall k ensures Total(Merge(a, b), k) == Total(a, k) + Total(b, k) {
      AccumulateTotals(ToMap(a), b, k);
    }
  }

  // ----- raw row lists -----

  predicate RowLess(a: Row, b: Row) {
    TextLess(a.0, b.0) || (a.0 == b.0 && a.1 < b.1)
  }

  lemma RowIsStrictTotal()
    ensures StrictTotal(RowLess)
  {
    TextIsStrictTotal();
  }

  function NonzeroRows(rows: seq<Row>): seq<Row> {
    if rows == [] then []
    else NonzeroRows(rows[..|rows| - 1]) + (if rows[|rows| - 1].1 != 0 then [rows[|rows| - 1]] else [])
  }

  lemma {:induction false} NonzeroRowsFixpoint(rows: seq<Row>)
    ensures forall r :: r in NonzeroRows(rows) ==> r.1 != 0
    ensures |NonzeroRows(rows)| <= |rows|
    ensures (forall r :: r in rows ==> r.1 != 0) ==> NonzeroRows(rows) == rows
  {
    if rows != [] {
      NonzeroRowsFixpoint(rows[..|rows| - 1]);
      assert rows == rows[..|rows| - 1] + [rows[|rows| - 1]];
    }
  }

  lemma NormalRowsAreSorted(rows: seq<Row>)
    requires Normal(rows)
    ensures Sort(RowLess, NonzeroRows(rows)) == rows && Distinct(Keys(rows))
  {
    NonzeroRowsFixpoint(rows);
    RowIsStrictTotal();
    TextIsStrictTotal();
    assert forall r :: r in rows ==> r.1 != 0;
    forall i, j | 0 <= i < j < |rows| ensures RowLess(rows[i], rows[j]) {
      assert TextLess(Keys(rows)[i], Keys(rows)[j]);
    }
    AscendingIsSortedDistinct(RowLess, rows);
    SortFixpoint(RowLess, rows);
    AscendingIsSortedDistinct(TextLess, Keys(rows));
  }

  lemma SortedRowsAreNormal(rows: seq<Row>)
    requires Sort(RowLess, NonzeroRows(rows)) == rows && Distinct(Keys(rows))
    ensures Normal(rows)
  {
    var nonzero := NonzeroRows(rows);
    var names := Keys(rows);
    NonzeroRowsFixpoint(rows);
    RowIsStrictTotal();
    SortProperties(RowLess, nonzero);
    SameElements(nonzero, rows);
    assert forall i :: 0 <= i < |rows| ==> rows[i] in Elements(nonzero);
    forall i, j | 0 <= i < j < |names| ensures TextLess(names[i], names[j]) {
      assert !RowLess(rows[j], rows[i]) && names[i] != names[j];
      TextTrichotomy(names[i], names[j]);
    }
  }

  lemma TextTrichotomy(a: string, b: string)
    ensures a == b || TextLess(a, b) || TextLess(b, a)
  {
    TextIsStrictTotal();
  }

  // ----- weighted sums -----

  /** Sum of value times weight of key. */
  function Weighted(rows: seq<Row>, weight: string -> int): int {
    if rows == [] then 0
    else
      var n := |rows| - 1;
      Weighted(rows[..n], weight) + weight(rows[n].0) * rows[n].1
  }

  ghost function OverKeys(rows: seq<Row>, keys: seq<string>, weight: string -> int): int {
    if keys == [] then 0
    else weight(keys[0]) * Total(rows, keys[0]) + OverKeys(rows, keys[1..], weight)
  }

  lemma {:induction false} OverKeysStep(rows: seq<Row>, keys: seq<string>, weight: string -> int)
    requires rows != [] && Distinct(keys)
    ensures var n := |rows| - 1;
            OverKeys(rows, keys, weight)
            == OverKeys(rows[..n], keys, weight) + if rows[n].0 in keys then weight(rows[n].0) * rows[n].1 else 0
  {
    var n := |rows| - 1;
    if keys != [] {
      OverKeysStep(rows, keys[1..], weight);
      assert rows[n].0 in keys <==> rows[n].0 == keys[0] || rows[n].0 in keys[1..];
      assert keys[0] !in keys[1..];
      if rows[n].0 == keys[0] {
        var t, v, w := Total(rows[..n], keys[0]), rows[n].1, weight(keys[0]);
        assert w * (t + v) == w * t + w * v;
      }
    }
  }

  /** Regrouping: a weighted sum may be taken key by key. */
  lemma {:induction false} WeightedByKeys(rows: seq<Row>, keys: seq<string>, weight: string -> int)
    requires Distinct(keys) && forall r :: r in rows ==> r.0 in keys
    ensures Weighted(rows, weight) == OverKeys(rows, keys, weight)
  {
    if rows == [] {
      OverNoRows(keys, weight);
    } else {
      var n := |rows| - 1;
      WeightedByKeys(rows[..n], keys, weight);
      OverKeysStep(rows, keys, weight);
      assert rows[n] in rows;
    }
  }

  lemma {:induction false} OverNoRows(keys: seq<string>, weight: string -> int)
    ensures OverKeys([], keys, weight) == 0
  {
    if keys != [] { OverNoRows(keys[1..], weight); }
  }

  lemma {:induction false} OverKeysAdds(a: seq<Row>, b: seq<Row>, c: seq<Row>, keys: seq<string>, weight: string -> int)
    requires forall k :: Total(c, k) == Total(a, k) + Total(b, k)
    ensures OverKeys(c, keys, weight) == OverKeys(a, keys, weight) + OverKeys(b, keys, weight)
  {
    if keys != [] {
      OverKeysAdds(a, b, c, keys[1..], weight);
      var s, t, w := Total(a, keys[0]), Total(b, keys[0]), weight(keys[0]);
      assert w * (s + t) == w * s + w * t;
    }
  }

  /** Weighted sums see only totals: they are additive over merged rows. */
  lemma WeightedMerge(a: seq<Row>, b: seq<Row>, weight: string -> int)
    requires Normal(a)
    ensures Weighted(Merge(a, b), weight) == Weighted(a, weight) + Weighted(b, weight)
  {
    var c := Merge(a, b);
    MergeTotals(a, b);
    TextIsStrictTotal();
    var names := Elements(Keys(a)) + Elements(Keys(b)) + Elements(Keys(c));
    var keys := SortedSet(names);
    assert forall k :: k in names ==> k in keys;
    forall r | r in a || r in b || r in c ensures r.0 in keys {
      assert r.0 in Keys(a) || r.0 in Keys(b) || r.0 in Keys(c);
    }
    WeightedByKeys(a, keys, weight);
    WeightedByKeys(b, keys, weight);
    WeightedByKeys(c, keys, weight);
    OverKeysAdds(a, b, c, keys, weight);
  }
}
