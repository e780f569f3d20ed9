/**
 * What the extractors need from pandas' `groupby` and `unique`: the rows of
 * one key, the keys a grouping visits, the distinct values of a column, and
 * the accumulate-by-prepending step every extraction loop performs.
 */
module Groups {
  import opened Tables
  import opened Flatten

  /** The rows whose `keyCol` cell is `k`, in table order. */
  function Select(rows: seq<Row>, keyCol: string, k: Value): (r: seq<Row>)
    ensures |r| <= |rows|
  {
    if rows == [] then []
    else (if Cell(rows[0], keyCol) == k then [rows[0]] else []) + Select(rows[1..], keyCol, k)
  }

  /** `Select` keeps exactly the rows of key `k`. */
  lemma {:induction false} SelectMembers(rows: seq<Row>, keyCol: string, k: Value)
    ensures forall j :: 0 <= j < |Select(rows, keyCol, k)| ==>
      Select(rows, keyCol, k)[j] in rows && Cell(Select(rows, keyCol, k)[j], keyCol) == k
    ensures forall j :: 0 <= j < |rows| && Cell(rows[j], keyCol) == k ==> rows[j] in Select(rows, keyCol, k)
  {
    if rows != [] {
      SelectMembers(rows[1..], keyCol, k);
      var head: seq<Row> := if Cell(rows[0], keyCol) == k then [rows[0]] else [];
      var rest := Select(rows[1..], keyCol, k);
      assert Select(rows, keyCol, k) == head + rest;
      forall j | 0 <= j < |rows| && Cell(rows[j], keyCol) == k ensures rows[j] in head + rest {
        if j > 0 {
          assert rows[j] == rows[1..][j - 1];
        }
      }
    }
  }

  /** `plane_id_df` for key `k`: the table restricted to the rows of that key, all columns kept. */
  function GroupOf(t: Table, keyCol: string, k: Value): (g: Table)
    ensures g.columns == t.columns
    ensures forall j :: 0 <= j < |g.rows| ==> g.rows[j] in t.rows && Cell(g.rows[j], keyCol) == k
    ensures forall j :: 0 <= j < |t.rows| && Cell(t.rows[j], keyCol) == k ==> t.rows[j] in g.rows
  {
    SelectMembers(t.rows, keyCol, k);
    Table(t.columns, Select(t.rows, keyCol, k))
  }

  /** How many of the first `i` rows have key `k`: where row `i` lands in its group. */
  function Rank(rows: seq<Row>, keyCol: string, k: Value, i: nat): nat
    requires i <= |rows|
  {
    if i == 0 then 0
    else (if Cell(rows[0], keyCol) == k then 1 else 0) + Rank(rows[1..], keyCol, k, i - 1)
  }

  /** The rank grows by one exactly at the rows of key `k`. */
  lemma {:induction false} RankStep(rows: seq<Row>, keyCol: string, k: Value, i: nat)
    requires i < |rows|
    ensures Rank(rows, keyCol, k, i + 1) == Rank(rows, keyCol, k, i) + (if Cell(rows[i], keyCol) == k then 1 else 0)
  {
    if i > 0 {
      RankStep(rows[1..], keyCol, k, i - 1);
      assert rows[1..][i - 1] == rows[i];
    }
  }

  lemma {:induction false} SelectCount(rows: seq<Row>, keyCol: string, k: Value)
    ensures |Select(rows, keyCol, k)| == Rank(rows, keyCol, k, |rows|)
  {
    if rows != [] {
      SelectCount(rows[1..], keyCol, k);
    }
  }

  lemma {:induction false} SelectAt(rows: seq<Row>, keyCol: string, k: Value, i: nat)
    requires i < |rows| && Cell(rows[i], keyCol) == k
    ensures Rank(rows, keyCol, k, i) < |Select(rows, keyCol, k)|
    ensures Select(rows, keyCol, k)[Rank(rows, keyCol, k, i)] == rows[i]
  {
    var head: seq<Row> := if Cell(rows[0], keyCol) == k then [rows[0]] else [];
    var rest := Select(rows[1..], keyCol, k);
    assert Select(rows, keyCol, k) == head + rest;
    if i > 0 {
      SelectAt(rows[1..], keyCol, k, i - 1);
      assert rows[1..][i - 1] == rows[i];
      var p := Rank(rows[1..], keyCol, k, i - 1);
      assert Rank(rows, keyCol, k, i) == |head| + p;
      assert (head + rest)[|head| + p] == rest[p];
    }
  }

  /** No row before `i` has key `k`. */
  predicate FirstOfKey(rows: seq<Row>, keyCol: string, k: Value, i: int) {
    0 <= i < |rows| && Cell(rows[i], keyCol) == k && forall i' :: 0 <= i' < i ==> Cell(rows[i'], keyCol) != k
  }

  lemma {:induction false} RankBeforeFirst(rows: seq<Row>, keyCol: string, k: Value, i: nat)
    requires FirstOfKey(rows, keyCol, k, i)
    ensures Rank(rows, keyCol, k, i) == 0
  {
    if i > 0 {
      assert Cell(rows[0], keyCol) != k;
      assert FirstOfKey(rows[1..], keyCol, k, i - 1) by {
        forall i' | 0 <= i' < i - 1 ensures Cell(rows[1..][i'], keyCol) != k {
          assert rows[1..][i'] == rows[i' + 1];
        }
      }
      RankBeforeFirst(rows[1..], keyCol, k, i - 1);
    }
  }

  /**
   * The group of key `k` holds the rows of that key, each once, in table
   * order: row `i` of key `k` is the group's row `Rank(i)`, the group has as
   * many rows as the table has rows of that key, and its first row is the
   * table's first row of that key (the row `group.iloc[0]` reads).
   */
  lemma GroupOfInOrder(t: Table, keyCol: string, k: Value)
    ensures |GroupOf(t, keyCol, k).rows| == Rank(t.rows, keyCol, k, |t.rows|)
    ensures forall i {:trigger Rank(t.rows, keyCol, k, i)} :: 0 <= i < |t.rows| && Cell(t.rows[i], keyCol) == k ==>
      Rank(t.rows, keyCol, k, i) < |GroupOf(t, keyCol, k).rows| && GroupOf(t, keyCol, k).rows[Rank(t.rows, keyCol, k, i)] == t.rows[i]
    ensures forall i :: FirstOfKey(t.rows, keyCol, k, i) ==>
      |GroupOf(t, keyCol, k).rows| > 0 && GroupOf(t, keyCol, k).rows[0] == t.rows[i]
  {
    SelectCount(t.rows, keyCol, k);
    forall i | 0 <= i < |t.rows| && Cell(t.rows[i], keyCol) == k
      ensures Rank(t.rows, keyCol, k, i) < |GroupOf(t, keyCol, k).rows|
      ensures GroupOf(t, keyCol, k).rows[Rank(t.rows, keyCol, k, i)] == t.rows[i]
    {
      SelectAt(t.rows, keyCol, k, i);
    }
    forall i | FirstOfKey(t.rows, keyCol, k, i)
      ensures |GroupOf(t, keyCol, k).rows| > 0 && GroupOf(t, keyCol, k).rows[0] == t.rows[i]
    {
      SelectAt(t.rows, keyCol, k, i);
      RankBeforeFirst(t.rows, keyCol, k, i);
    }
  }

  predicate KeyOccurs(t: Table, keyCol: string, k: Value) {
    exists i :: 0 <= i < |t.rows| && Cell(t.rows[i], keyCol) == k
  }

  /**
   * `order` lists each non-null key of `keyCol` exactly once: the groups
   * `groupby` visits (null keys are dropped). pandas visits them sorted; the
   * model takes any such order.
   */
  predicate IsGroupOrder(t: Table, keyCol: string, order: seq<Value>) {
    && Distinct(order)
    && (forall k :: k in order ==> k != Missing && KeyOccurs(t, keyCol, k))
    && (forall i :: 0 <= i < |t.rows| && Cell(t.rows[i], keyCol) != Missing ==> Cell(t.rows[i], keyCol) in order)
  }

  /** `Series.unique()`: the distinct values in order of first appearance (NaN counts as one). */
  function Unique(vs: seq<Value>): (u: seq<Value>)
    ensures Distinct(u)
    ensures forall v :: v in u <==> v in vs
    ensures |u| <= |vs|
  {
    if vs == [] then []
    else
      var prev := Unique(vs[..|vs| - 1]);
      var last := vs[|vs| - 1];
      assert forall v :: v in vs <==> v in vs[..|vs| - 1] || v == last by {
        assert vs == vs[..|vs| - 1] + [last];
      }
      if last in prev then prev
      else
        assert forall i :: 0 <= i < |prev| ==> prev[i] != last;
        prev + [last]
  }

  /** A column holds a single distinct value exactly when it is non-empty and constant. */
  lemma {:induction false} UniqueSingleton(vs: seq<Value>)
    ensures |Unique(vs)| == 1 <==> |vs| > 0 && forall i :: 0 <= i < |vs| ==> vs[i] == vs[0]
  {
    var u := Unique(vs);
    if |vs| > 0 && forall i :: 0 <= i < |vs| ==> vs[i] == vs[0] {
      assert vs[0] in u;
      forall q | 0 <= q < |u| ensures u[q] == vs[0] {
        assert u[q] in vs;
      }
      DistinctNotConstant(u, vs[0]);
    }
    if |u| == 1 {
      assert u[0] in vs;
      forall i | 0 <= i < |vs| ensures vs[i] == vs[0] {
        assert vs[i] in u && vs[0] in u;
      }
    }
  }

  /** A duplicate-free sequence of two or more elements holds a value other than `x`. */
  lemma DistinctNotConstant(u: seq<Value>, x: Value)
    requires Distinct(u)
    ensures |u| > 1 ==> exists q :: 0 <= q < |u| && u[q] != x
  {
    if |u| > 1 && u[0] == x {
      assert u[1] != x;
    }
  }

  /** The non-null values of `vs`, order kept. */
  function DropMissing(vs: seq<Value>): (r: seq<Value>)
    ensures forall v :: v in r <==> v in vs && v != Missing
    ensures Distinct(vs) ==> Distinct(r)
  {
    if vs == [] then []
    else
      var rest := DropMissing(vs[1..]);
      assert Distinct(vs) ==> Distinct(vs[1..]) && vs[0] !in vs[1..];
      if vs[0] == Missing then rest
      else
        assert Distinct(vs) ==> vs[0] !in rest;
        DistinctCons(vs[0], rest);
        [vs[0]] + rest
  }

  /** The groups of `keyCol` in order of first appearance. */
  function GroupKeys(t: Table, keyCol: string): seq<Value> {
    DropMissing(Unique(Column(t, keyCol)))
  }

  /** A group order exists for every table, so requiring one excludes no input. */
  lemma GroupKeysIsGroupOrder(t: Table, keyCol: string)
    ensures IsGroupOrder(t, keyCol, GroupKeys(t, keyCol))
  {
    var col := Column(t, keyCol);
    forall k ensures k in GroupKeys(t, keyCol) <==> k != Missing && KeyOccurs(t, keyCol, k) {
      if k in col {
        var i :| 0 <= i < |col| && col[i] == k;
        assert Cell(t.rows[i], keyCol) == k;
      }
      if KeyOccurs(t, keyCol, k) {
        var i :| 0 <= i < |t.rows| && Cell(t.rows[i], keyCol) == k;
        assert col[i] == k;
      }
    }
  }

  /** Tables whose key columns agree have the same group orders. */
  lemma SameKeysSameOrders(t: Table, u: Table, keyCol: string, order: seq<Value>)
    requires |t.rows| == |u.rows|
    requires forall i :: 0 <= i < |t.rows| ==> Cell(t.rows[i], keyCol) == Cell(u.rows[i], keyCol)
    requires IsGroupOrder(t, keyCol, order)
    ensures IsGroupOrder(u, keyCol, order)
  {
    forall k ensures KeyOccurs(t, keyCol, k) <==> KeyOccurs(u, keyCol, k) {
      if KeyOccurs(t, keyCol, k) {
        var i :| 0 <= i < |t.rows| && Cell(t.rows[i], keyCol) == k;
        assert Cell(u.rows[i], keyCol) == k;
      }
      if KeyOccurs(u, keyCol, k) {
        var i :| 0 <= i < |u.rows| && Cell(u.rows[i], keyCol) == k;
        assert Cell(t.rows[i], keyCol) == k;
      }
    }
  }

  /**
   * One `if pd.notna(group[col]).all(): acc = pd.concat([partial, acc])` step:
   * reading an absent column raises, a group with a null cell is skipped, and
   * otherwise the group's partial table goes in front of what has accumulated.
   */
  function Contribute(acc: Table, g: Table, col: string, partial: Result<Table>): (r: Result<Table>)
    ensures col !in g.columns ==> r == Err(KeyError)
    ensures col in g.columns && !AllPresent(g, col) ==> r == Ok(acc)
    ensures col in g.columns && AllPresent(g, col) ==> (r.Ok? <==> partial.Ok?)
    ensures col in g.columns && AllPresent(g, col) && partial.Ok? ==>
      && r.value.rows == partial.value.rows + acc.rows
      && |partial.value.columns| <= |r.value.columns|
      && r.value.columns[..|partial.value.columns|] == partial.value.columns
  {
    if col !in g.columns then Err(KeyError)
    else if !AllPresent(g, col) then Ok(acc)
    else
      var p :- partial;
      Ok(Concat(p, acc))
  }

  /** `b`'s rows end with `a`'s: accumulation only ever prepends. */
  predicate GrowsFront(a: Table, b: Table) {
    |a.rows| <= |b.rows| && b.rows[|b.rows| - |a.rows|..] == a.rows
  }

  lemma GrowsFrontTrans(a: Table, b: Table, c: Table)
    requires GrowsFront(a, b) && GrowsFront(b, c)
    ensures GrowsFront(a, c)
  {
    assert c.rows[|c.rows| - |a.rows|..] == c.rows[|c.rows| - |b.rows|..][|b.rows| - |a.rows|..];
  }

  /** Every row's key cell names a group of `t` listed in `keys` whose `col` cells are all non-null. */
  predicate FromGuardedGroups(acc: Table, t: Table, keyCol: string, col: string, keys: seq<Value>) {
    forall j :: 0 <= j < |acc.rows| ==>
      Cell(acc.rows[j], keyCol) in keys && AllPresent(GroupOf(t, keyCol, Cell(acc.rows[j], keyCol)), col)
  }

  /** The accumulated table has no columns and no rows, or has the key column first. */
  predicate KeyFirst(acc: Table, keyCol: string) {
    (acc.columns == [] && acc.rows == []) || (|acc.columns| > 0 && acc.columns[0] == keyCol)
  }

  /** A contribution keeps the provenance, key-first and prepend facts of its accumulator. */
  lemma ContributeKeeps(acc: Table, t: Table, keyCol: string, col: string, keys: seq<Value>, k: Value, partial: Result<Table>)
    requires FromGuardedGroups(acc, t, keyCol, col, keys) && KeyFirst(acc, keyCol)
    requires k in keys
    requires partial.Ok? ==> |partial.value.columns| > 0 && partial.value.columns[0] == keyCol
    requires partial.Ok? ==> forall j :: 0 <= j < |partial.value.rows| ==> Cell(partial.value.rows[j], keyCol) == k
    requires Contribute(acc, GroupOf(t, keyCol, k), col, partial).Ok?
    ensures var r := Contribute(acc, GroupOf(t, keyCol, k), col, partial).value;
      FromGuardedGroups(r, t, keyCol, col, keys) && KeyFirst(r, keyCol) && GrowsFront(acc, r)
  {
    var g := GroupOf(t, keyCol, k);
    var r := Contribute(acc, g, col, partial).value;
    if AllPresent(g, col) {
      var p := partial.value;
      forall j | 0 <= j < |r.rows|
        ensures Cell(r.rows[j], keyCol) in keys && AllPresent(GroupOf(t, keyCol, Cell(r.rows[j], keyCol)), col)
      {
        if j < |p.rows| {
          assert r.rows[j] == p.rows[j];
        } else {
          assert r.rows[j] == acc.rows[j - |p.rows|];
        }
      }
      assert r.columns[0] == p.columns[0];
      assert r.rows[|r.rows| - |acc.rows|..] == acc.rows;
    }
  }
}
