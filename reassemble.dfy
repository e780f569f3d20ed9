/**
 * The reassembler (`concat_mounting_plane_dfs`, `merge`): partial tables are
 * left-joined back onto the main table on the columns the two tables share,
 * and the nested columns they replace are dropped.
 */
module Reassemble {
  import opened Tables
  import opened Schema

  /** The columns of `cols` that `other` also has, in `cols`' order (pandas' default join keys). */
  function Shared(cols: seq<string>, other: seq<string>): (r: seq<string>)
    ensures forall c :: c in r <==> c in cols && c in other
  {
    if cols == [] then []
    else if cols[0] in other then [cols[0]] + Shared(cols[1..], other)
    else Shared(cols[1..], other)
  }

  predicate KeysMatch(a: Row, b: Row, keys: seq<string>) {
    forall k :: k in keys ==> Cell(a, k) == Cell(b, k)
  }

  /** The right rows whose key cells equal the left row's (NaN matches NaN), in right order. */
  function Matches(l: Row, rs: seq<Row>, keys: seq<string>): (ms: seq<Row>)
    ensures |ms| <= |rs|
    ensures forall j :: 0 <= j < |ms| ==> ms[j] in rs && KeysMatch(l, ms[j], keys)
    ensures forall k :: 0 <= k < |rs| && KeysMatch(l, rs[k], keys) ==> rs[k] in ms
  {
    if rs == [] then []
    else if KeysMatch(l, rs[0], keys) then [rs[0]] + Matches(l, rs[1..], keys)
    else Matches(l, rs[1..], keys)
  }

  /** The cells a right row adds to a joined row: those of columns the left table lacks. */
  function Extra(r: Row, leftCols: seq<string>): (e: Row)
    ensures forall c :: c in e ==> c in r && c !in leftCols
  {
    map c | c in r && c !in leftCols :: r[c]
  }

  /** The rows agree on every column of `cols`. */
  predicate Agree(a: Row, b: Row, cols: seq<string>) {
    forall c :: c in cols ==> Cell(a, c) == Cell(b, c)
  }

  /** Some row of `rows` agrees with `r` on `cols`. */
  predicate Kept(r: Row, rows: seq<Row>, cols: seq<string>) {
    exists j :: 0 <= j < |rows| && Agree(rows[j], r, cols)
  }

  /** Every row of `a` reappears in `b`, agreeing with it on `cols`. */
  predicate KeepsRows(a: Table, b: Table, cols: seq<string>) {
    forall i :: 0 <= i < |a.rows| ==> Kept(a.rows[i], b.rows, cols)
  }

  /**
   * `out` is left row `l` joined with right row `m`: the right row's cell for
   * every column the left table lacks, the left row's cell everywhere else.
   */
  ghost predicate JoinedFrom(out: Row, l: Row, m: Row, leftCols: seq<string>) {
    forall c :: Cell(out, c) == if c in m && c !in leftCols then m[c] else Cell(l, c)
  }

  /**
   * The joined rows one left row yields: the row alone (right columns NaN)
   * when nothing matches, else one row per match.
   */
  function MergeRow(l: Row, rs: seq<Row>, keys: seq<string>, leftCols: seq<string>): (block: seq<Row>)
    ensures |block| == Width(l, rs, keys)
    ensures forall j :: 0 <= j < |block| ==> Agree(block[j], l, leftCols)
    ensures |Matches(l, rs, keys)| == 0 ==> block == [l]
    ensures forall j :: 0 <= j < |Matches(l, rs, keys)| ==> JoinedFrom(block[j], l, Matches(l, rs, keys)[j], leftCols)
  {
    var ms := Matches(l, rs, keys);
    if |ms| == 0 then [l]
    else seq(|ms|, j requires 0 <= j < |ms| => l + Extra(ms[j], leftCols))
  }

  function MergeRows(ls: seq<Row>, rs: seq<Row>, keys: seq<string>, leftCols: seq<string>): seq<Row> {
    if ls == [] then [] else MergeRow(ls[0], rs, keys, leftCols) + MergeRows(ls[1..], rs, keys, leftCols)
  }

  /** How many joined rows a left row yields: one per match, and one when there is none. */
  function Width(l: Row, rs: seq<Row>, keys: seq<string>): nat {
    if |Matches(l, rs, keys)| == 0 then 1 else |Matches(l, rs, keys)|
  }

  /** Where left row `i`'s joined rows start: the widths of the left rows before it, added up. */
  function Offset(ls: seq<Row>, rs: seq<Row>, keys: seq<string>, i: nat): nat
    requires i <= |ls|
  {
    if i == 0 then 0 else Width(ls[0], rs, keys) + Offset(ls[1..], rs, keys, i - 1)
  }

  /** At position `at`, `out` holds left row `l` joined with each of its matches in order, or `l` alone. */
  ghost predicate BlockAt(out: seq<Row>, at: nat, l: Row, rs: seq<Row>, keys: seq<string>, leftCols: seq<string>) {
    var ms := Matches(l, rs, keys);
    && at + Width(l, rs, keys) <= |out|
    && (|ms| == 0 ==> out[at] == l)
    && forall j :: 0 <= j < |ms| ==> JoinedFrom(out[at + j], l, ms[j], leftCols)
  }

  /**
   * The rows of a left join: the left rows in order, each followed in place by
   * its joined rows, nothing else.
   */
  ghost predicate LeftJoinOf(out: seq<Row>, ls: seq<Row>, rs: seq<Row>, keys: seq<string>, leftCols: seq<string>) {
    && |out| == Offset(ls, rs, keys, |ls|)
    && forall i :: 0 <= i < |ls| ==> BlockAt(out, Offset(ls, rs, keys, i), ls[i], rs, keys, leftCols)
  }

  /** No left row has two matches. */
  predicate UniqueMatches(l: Table, r: Table) {
    forall i :: 0 <= i < |l.rows| ==> |Matches(l.rows[i], r.rows, Shared(l.columns, r.columns))| <= 1
  }

  /**
   * `l.merge(r, how='left')`: joined on the columns both tables have; a
   * MergeError when they have none.
   */
  function LeftMerge(l: Table, r: Table): (m: Result<Table>)
    ensures m.Ok? <==> |Shared(l.columns, r.columns)| > 0
    ensures m.Ok? ==> |l.columns| <= |m.value.columns| && m.value.columns[..|l.columns|] == l.columns
    ensures m.Ok? ==> forall c :: c in m.value.columns <==> c in l.columns || c in r.columns
    ensures m.Ok? ==> LeftJoinOf(m.value.rows, l.rows, r.rows, Shared(l.columns, r.columns), l.columns)
    ensures m.Ok? ==> |m.value.rows| >= |l.rows|
    ensures m.Ok? && UniqueMatches(l, r) ==> |m.value.rows| == |l.rows|
    ensures m.Ok? ==> KeepsRows(l, m.value, l.columns)
    ensures m.Ok? ==> KeepsRows(m.value, l, l.columns)
  {
    var keys := Shared(l.columns, r.columns);
    if |keys| == 0 then Err(MergeError)
    else
      var rows := MergeRows(l.rows, r.rows, keys, l.columns);
      MergeRowsLayout(l.rows, r.rows, keys, l.columns);
      MergeRowsCount(l.rows, r.rows, keys, l.columns);
      MergeRowsKeepLeft(l.rows, r.rows, keys, l.columns);
      MergeRowsFromLeft(l.rows, r.rows, keys, l.columns);
      Ok(Table(l.columns + Without(r.columns, l.columns), rows))
  }

  /** The recursive join lays its rows out as `LeftJoinOf` describes. */
  lemma {:induction false} MergeRowsLayout(ls: seq<Row>, rs: seq<Row>, keys: seq<string>, leftCols: seq<string>)
    ensures LeftJoinOf(MergeRows(ls, rs, keys, leftCols), ls, rs, keys, leftCols)
  {
    if ls != [] {
      MergeRowsLayout(ls[1..], rs, keys, leftCols);
      var head := MergeRow(ls[0], rs, keys, leftCols);
      var rest := MergeRows(ls[1..], rs, keys, leftCols);
      assert MergeRows(ls, rs, keys, leftCols) == head + rest;
      forall i | 0 <= i < |ls| ensures BlockAt(head + rest, Offset(ls, rs, keys, i), ls[i], rs, keys, leftCols) {
        if i == 0 {
          BlockHead(head, rest, ls[0], rs, keys, leftCols);
        } else {
          assert ls[1..][i - 1] == ls[i];
          BlockShift(head, rest, Offset(ls[1..], rs, keys, i - 1), ls[i], rs, keys, leftCols);
        }
      }
    }
  }

  lemma BlockHead(head: seq<Row>, rest: seq<Row>, l: Row, rs: seq<Row>, keys: seq<string>, leftCols: seq<string>)
    requires head == MergeRow(l, rs, keys, leftCols)
    ensures BlockAt(head + rest, 0, l, rs, keys, leftCols)
  {
    var ms := Matches(l, rs, keys);
    forall j | 0 <= j < |ms| ensures JoinedFrom((head + rest)[j], l, ms[j], leftCols) {
      assert (head + rest)[j] == head[j];
    }
  }

  lemma BlockShift(head: seq<Row>, rest: seq<Row>, at: nat, l: Row, rs: seq<Row>, keys: seq<string>, leftCols: seq<string>)
    requires BlockAt(rest, at, l, rs, keys, leftCols)
    ensures BlockAt(head + rest, |head| + at, l, rs, keys, leftCols)
  {
    var ms := Matches(l, rs, keys);
    assert (head + rest)[|head| + at] == rest[at];
    forall j | 0 <= j < |ms| ensures JoinedFrom((head + rest)[|head| + at + j], l, ms[j], leftCols) {
      assert (head + rest)[|head| + at + j] == rest[at + j];
    }
  }

  /** At least one joined row per left row; exactly one when no left row has two matches. */
  lemma {:induction false} MergeRowsCount(ls: seq<Row>, rs: seq<Row>, keys: seq<string>, leftCols: seq<string>)
    ensures |MergeRows(ls, rs, keys, leftCols)| >= |ls|
    ensures (forall i :: 0 <= i < |ls| ==> |Matches(ls[i], rs, keys)| <= 1) ==>
      |MergeRows(ls, rs, keys, leftCols)| == |ls|
  {
    if ls != [] {
      MergeRowsCount(ls[1..], rs, keys, leftCols);
      assert forall i :: 0 <= i < |ls[1..]| ==> ls[1..][i] == ls[i + 1];
    }
  }

  /** Every left row survives the join (left outer join). */
  lemma {:induction false} MergeRowsKeepLeft(ls: seq<Row>, rs: seq<Row>, keys: seq<string>, leftCols: seq<string>)
    ensures forall i :: 0 <= i < |ls| ==> Kept(ls[i], MergeRows(ls, rs, keys, leftCols), leftCols)
  {
    if ls != [] {
      MergeRowsKeepLeft(ls[1..], rs, keys, leftCols);
      var head := MergeRow(ls[0], rs, keys, leftCols);
      var rest := MergeRows(ls[1..], rs, keys, leftCols);
      var out := head + rest;
      assert MergeRows(ls, rs, keys, leftCols) == out;
      forall i | 0 <= i < |ls| ensures Kept(ls[i], out, leftCols) {
        if i == 0 {
          assert out[0] == head[0];
          assert Agree(out[0], ls[0], leftCols);
        } else {
          assert ls[1..][i - 1] == ls[i];
          KeptInSuffix(ls[i], head, rest, leftCols);
        }
      }
    } else {
      assert MergeRows(ls, rs, keys, leftCols) == [];
    }
  }

  lemma KeptInSuffix(r: Row, head: seq<Row>, rest: seq<Row>, cols: seq<string>)
    requires Kept(r, rest, cols)
    ensures Kept(r, head + rest, cols)
  {
    var j :| 0 <= j < |rest| && Agree(rest[j], r, cols);
    assert (head + rest)[|head| + j] == rest[j];
  }

  /** Every joined row comes from a left row: the join invents no rows. */
  lemma {:induction false} MergeRowsFromLeft(ls: seq<Row>, rs: seq<Row>, keys: seq<string>, leftCols: seq<string>)
    ensures forall j :: 0 <= j < |MergeRows(ls, rs, keys, leftCols)| ==>
      Kept(MergeRows(ls, rs, keys, leftCols)[j], ls, leftCols)
  {
    if ls != [] {
      MergeRowsFromLeft(ls[1..], rs, keys, leftCols);
      var head := MergeRow(ls[0], rs, keys, leftCols);
      var rest := MergeRows(ls[1..], rs, keys, leftCols);
      var out := head + rest;
      assert MergeRows(ls, rs, keys, leftCols) == out;
      forall j | 0 <= j < |out| ensures Kept(out[j], ls, leftCols) {
        if j < |head| {
          assert out[j] == head[j];
          assert Agree(out[j], ls[0], leftCols);
        } else {
          var tail := ls[1..];
          assert out[j] == rest[j - |head|];
          var i :| 0 <= i < |tail| && Agree(rest[j - |head|], tail[i], leftCols);
          assert tail[i] == ls[i + 1];
          assert Agree(out[j], ls[i + 1], leftCols);
        }
      }
    } else {
      assert MergeRows(ls, rs, keys, leftCols) == [];
    }
  }

  /** Keeping rows composes through two joins, on the first table's columns. */
  lemma KeepsRowsTrans(a: Table, b: Table, c: Table, colsA: seq<string>, colsB: seq<string>)
    requires KeepsRows(a, b, colsA) && KeepsRows(b, c, colsB)
    requires forall x :: x in colsA ==> x in colsB
    ensures KeepsRows(a, c, colsA)
  {
    forall i | 0 <= i < |a.rows| ensures Kept(a.rows[i], c.rows, colsA) {
      var j :| 0 <= j < |b.rows| && Agree(b.rows[j], a.rows[i], colsA);
      var k :| 0 <= k < |c.rows| && Agree(c.rows[k], b.rows[j], colsB);
      assert Agree(c.rows[k], a.rows[i], colsA);
    }
  }

  /** Dropping columns keeps every row on the columns that remain. */
  lemma KeepsRowsDrop(a: Table, b: Table, cols: seq<string>, cs: seq<string>)
    requires KeepsRows(a, b, cols)
    requires Drop(b, cs).Ok?
    ensures KeepsRows(a, Drop(b, cs).value, Without(cols, cs))
  {
    var d := Drop(b, cs).value;
    forall i | 0 <= i < |a.rows| ensures Kept(a.rows[i], d.rows, Without(cols, cs)) {
      var j :| 0 <= j < |b.rows| && Agree(b.rows[j], a.rows[i], cols);
      assert Agree(d.rows[j], a.rows[i], Without(cols, cs));
    }
  }

  /** The three nested mounting-plane columns the joined edge columns replace. */
  const NestedPlaneCols: seq<string> := [PenetrationsCol, ExteriorEdgesCol, InteriorRingsCol]

  /** `pd.concat([poly_exter_df, poly_inter_df])` joined onto the main table. */
  function PolygonMain(inter: Table, exter: Table, main: Table): Result<Table> {
    LeftMerge(main, Concat(exter, inter))
  }

  /** The polygon-joined table with the penetration edges joined on when there are any. */
  function WithPenetrations(pen: Table, pm: Table): (r: Result<Table>)
    ensures |pen.rows| == 0 ==> r == Ok(pm)
    ensures r.Ok? <==> |pen.rows| == 0 || |Shared(pm.columns, pen.columns)| > 0
    ensures r.Ok? ==> |pm.columns| <= |r.value.columns| && r.value.columns[..|pm.columns|] == pm.columns
    ensures r.Ok? ==> |r.value.rows| >= |pm.rows| && KeepsRows(pm, r.value, pm.columns)
    ensures r.Ok? && (|pen.rows| == 0 || UniqueMatches(pm, pen)) ==> |r.value.rows| == |pm.rows|
  {
    if |pen.rows| != 0 then LeftMerge(pm, pen)
    else
      assert KeepsRows(pm, pm, pm.columns) by {
        forall i | 0 <= i < |pm.rows| ensures Kept(pm.rows[i], pm.rows, pm.columns) {
          assert Agree(pm.rows[i], pm.rows[i], pm.columns);
        }
      }
      Ok(pm)
  }

  /**
   * `concat_mounting_plane_dfs(pen_df, poly_inter_df, poly_exter_df, df_main)`:
   * ring edges joined onto the main table, then the penetration edges when
   * there are any, then the nested columns dropped. A failed join leaves the
   * source's result variable unbound, so it is a failure here too; a failed
   * drop leaves the joined table bound, and that table is the result.
   */
  function ConcatMountingPlaneDfs(pen: Table, inter: Table, exter: Table, main: Table): (r: Result<Table>)
    ensures |Shared(main.columns, Concat(exter, inter).columns)| == 0 ==> r == Err(MergeError)
    ensures r.Ok? <==> (PolygonMain(inter, exter, main).Ok? &&
                        WithPenetrations(pen, PolygonMain(inter, exter, main).value).Ok?)
    ensures r.Ok? && Drop(WithPenetrations(pen, PolygonMain(inter, exter, main).value).value, NestedPlaneCols).Err? ==>
      r == WithPenetrations(pen, PolygonMain(inter, exter, main).value)
    ensures r.Ok? && (forall c :: c in NestedPlaneCols ==> c in main.columns) ==>
      forall c :: c in NestedPlaneCols ==> c !in r.value.columns
    ensures r.Ok? ==> forall c :: c in main.columns && c !in NestedPlaneCols ==> c in r.value.columns
    ensures r.Ok? ==> |r.value.rows| >= |main.rows|
    ensures (r.Ok? && UniqueMatches(main, Concat(exter, inter)) &&
             (|pen.rows| == 0 || UniqueMatches(PolygonMain(inter, exter, main).value, pen))) ==>
      |r.value.rows| == |main.rows|
    ensures r.Ok? ==> KeepsRows(main, r.value, Without(main.columns, NestedPlaneCols))
    ensures r.Ok? ==> NestedDropped(r.value, WithPenetrations(pen, PolygonMain(inter, exter, main).value).value)
  {
    var pm :- PolygonMain(inter, exter, main);
    var fin :- WithPenetrations(pen, pm);
    MainRowsSurvive(main, pm, fin);
    PrefixMembers(main.columns, pm.columns);
    PrefixMembers(pm.columns, fin.columns);
    DropNestedFacts(main, fin);
    Ok(DropNested(fin))
  }

  /** The joined table with the nested columns dropped; when the drop raises, the joined table as it is. */
  function DropNested(fin: Table): Table {
    match Drop(fin, NestedPlaneCols)
    case Ok(out) => out
    case Err(_) => fin
  }

  /**
   * `out` is the joined table `fin` row for row and cell for cell, except that
   * the nested columns are gone when `fin` has all three.
   */
  ghost predicate NestedDropped(out: Table, fin: Table) {
    var dropped := Drop(fin, NestedPlaneCols).Ok?;
    && out.columns == (if dropped then Without(fin.columns, NestedPlaneCols) else fin.columns)
    && |out.rows| == |fin.rows|
    && forall i, c :: 0 <= i < |fin.rows| ==>
         Cell(out.rows[i], c) == if dropped && c in NestedPlaneCols then Missing else Cell(fin.rows[i], c)
  }

  /** What the final drop keeps of the joined table and of the main rows within it. */
  lemma DropNestedFacts(main: Table, fin: Table)
    requires forall c :: c in main.columns ==> c in fin.columns
    requires KeepsRows(main, fin, main.columns)
    ensures Drop(fin, NestedPlaneCols).Err? ==> DropNested(fin) == fin
    ensures (forall c :: c in NestedPlaneCols ==> c in main.columns) ==>
      forall c :: c in NestedPlaneCols ==> c !in DropNested(fin).columns
    ensures forall c :: c in main.columns && c !in NestedPlaneCols ==> c in DropNested(fin).columns
    ensures KeepsRows(main, DropNested(fin), Without(main.columns, NestedPlaneCols))
    ensures NestedDropped(DropNested(fin), fin)
  {
    if Drop(fin, NestedPlaneCols).Ok? {
      KeepsRowsDrop(main, fin, main.columns, NestedPlaneCols);
    } else {
      KeepsRowsNarrow(main, fin, main.columns, Without(main.columns, NestedPlaneCols));
    }
  }

  /** A column list's prefix has no column the list lacks. */
  lemma PrefixMembers(short: seq<string>, long: seq<string>)
    requires |short| <= |long| && long[..|short|] == short
    ensures forall x :: x in short ==> x in long
  {
    forall x | x in short ensures x in long {
      var k :| 0 <= k < |short| && short[k] == x;
      assert long[k] == x;
    }
  }

  lemma MainRowsSurvive(main: Table, pm: Table, fin: Table)
    requires |main.columns| <= |pm.columns| && pm.columns[..|main.columns|] == main.columns
    requires KeepsRows(main, pm, main.columns) && KeepsRows(pm, fin, pm.columns)
    ensures KeepsRows(main, fin, main.columns)
  {
    PrefixMembers(main.columns, pm.columns);
    KeepsRowsTrans(main, pm, fin, main.columns, pm.columns);
  }

  /** Rows kept on some columns are kept on fewer. */
  lemma KeepsRowsNarrow(a: Table, b: Table, cols: seq<string>, sub: seq<string>)
    requires KeepsRows(a, b, cols)
    requires forall x :: x in sub ==> x in cols
    ensures KeepsRows(a, b, sub)
  {
    forall i | 0 <= i < |a.rows| ensures Kept(a.rows[i], b.rows, sub) {
      var j :| 0 <= j < |b.rows| && Agree(b.rows[j], a.rows[i], cols);
      assert Agree(b.rows[j], a.rows[i], sub);
    }
  }

  /**
   * `merge(obstructions_ring_edges_df, df_observation_main)`: without edge
   * rows the (empty) edge table itself is returned, not the main table; with
   * them, the left join of the main table with the edges, the nested edge
   * column dropped. A failed join or drop leaves the result unbound.
   */
  function MergeObstructions(edges: Table, main: Table): (r: Result<Table>)
    ensures |edges.rows| == 0 ==> r == Ok(edges)
    ensures |edges.rows| > 0 ==>
      (r.Ok? <==> (|Shared(main.columns, edges.columns)| > 0 &&
                   (ObstructionEdgesCol in main.columns || ObstructionEdgesCol in edges.columns)))
    ensures |edges.rows| > 0 && r.Ok? ==> ObstructionEdgesCol !in r.value.columns
    ensures |edges.rows| > 0 && r.Ok? ==>
      |r.value.rows| == |LeftMerge(main, edges).value.rows| &&
      forall i, c :: 0 <= i < |r.value.rows| ==>
        Cell(r.value.rows[i], c) == (if c == ObstructionEdgesCol then Missing else Cell(LeftMerge(main, edges).value.rows[i], c))
    ensures |edges.rows| > 0 && r.Ok? ==> |r.value.rows| >= |main.rows|
    ensures |edges.rows| > 0 && r.Ok? && UniqueMatches(main, edges) ==> |r.value.rows| == |main.rows|
    ensures |edges.rows| > 0 && r.Ok? ==> KeepsRows(main, r.value, Without(main.columns, [ObstructionEdgesCol]))
  {
    if |edges.rows| != 0 then
      MergeDropFacts(edges, main);
      var m :- LeftMerge(main, edges);
      Drop(m, [ObstructionEdgesCol])
    else Ok(edges)
  }

  /** What joining the edges and dropping their nested column give, whenever both succeed. */
  lemma MergeDropFacts(edges: Table, main: Table)
    ensures var lm := LeftMerge(main, edges);
      (lm.Ok? && Drop(lm.value, [ObstructionEdgesCol]).Ok?) <==>
      (|Shared(main.columns, edges.columns)| > 0 &&
       (ObstructionEdgesCol in main.columns || ObstructionEdgesCol in edges.columns))
    ensures var lm := LeftMerge(main, edges);
      lm.Ok? && Drop(lm.value, [ObstructionEdgesCol]).Ok? ==>
        var out := Drop(lm.value, [ObstructionEdgesCol]).value;
        && ObstructionEdgesCol !in out.columns
        && |out.rows| == |lm.value.rows| >= |main.rows|
        && (UniqueMatches(main, edges) ==> |out.rows| == |main.rows|)
        && KeepsRows(main, out, Without(main.columns, [ObstructionEdgesCol]))
  {
    var lm := LeftMerge(main, edges);
    if lm.Ok? {
      var m := lm.value;
      if Drop(m, [ObstructionEdgesCol]).Ok? {
        KeepsRowsDrop(main, m, main.columns, [ObstructionEdgesCol]);
      }
    }
  }
}
