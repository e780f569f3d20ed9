/**
 * The generic flattener (`flatten_json`): explode one nested column of a row
 * table and normalise the exploded values into a new flat table.
 */
module Flatten {
  import opened Tables
  import opened Normalize

  /** Some field of `fs` is named `k`. */
  predicate HasKey(fs: seq<Field>, k: string) {
    exists i :: 0 <= i < |fs| && fs[i].key == k
  }

  /** `list(d)` of a dict: its keys, each once, in order of first appearance. */
  function DictKeys(fs: seq<Field>): (ks: seq<string>)
    ensures Distinct(ks)
    ensures forall k :: k in ks <==> HasKey(fs, k)
    ensures |fs| > 0 ==> |ks| > 0
  {
    var names := seq(|fs|, i requires 0 <= i < |fs| => fs[i].key);
    var ks := AppendNew([], names);
    forall k | k in ks ensures exists i :: 0 <= i < |fs| && fs[i].key == k {
      var i :| 0 <= i < |names| && names[i] == k;
    }
    forall i | 0 <= i < |fs| ensures fs[i].key in ks {
      assert names[i] == fs[i].key;
    }
    ks
  }

  /**
   * The values `explode` puts in place of one cell: the elements of a
   * non-empty list, the keys of a non-empty dict, NaN for an empty list or
   * dict (both are list-like to pandas), else the cell itself.
   */
  function ExplodeCell(v: Value): (r: seq<Value>)
    ensures |r| >= 1
    ensures v.List? && |v.items| > 0 ==> r == v.items
    ensures v.Obj? && |v.fields| > 0 ==>
      |r| == |DictKeys(v.fields)| && forall j :: 0 <= j < |r| ==> r[j] == Str(DictKeys(v.fields)[j])
    ensures v == List([]) || v == Obj([]) ==> r == [Missing]
    ensures !v.List? && !v.Obj? ==> r == [v]
  {
    match v
    case List(items) => if |items| == 0 then [Missing] else items
    case Obj(fs) =>
      if |fs| == 0 then [Missing]
      else
        var ks := DictKeys(fs);
        seq(|ks|, j requires 0 <= j < |ks| => Str(ks[j]))
    case _ => [v]
  }

  /** One input row exploded: a copy of the row per value of `ExplodeCell`. */
  function ExplodeRow(r: Row, col: string): (rs: seq<Row>)
    ensures |rs| == |ExplodeCell(Cell(r, col))|
  {
    var cells := ExplodeCell(Cell(r, col));
    seq(|cells|, j requires 0 <= j < |cells| => if col in r then r[col := cells[j]] else r)
  }

  function ExplodeRows(rows: seq<Row>, col: string): seq<Row> {
    if rows == [] then [] else ExplodeRow(rows[0], col) + ExplodeRows(rows[1..], col)
  }

  /** The number of rows `explode` makes of `rows`. */
  function TotalWidth(rows: seq<Row>, col: string): nat {
    if rows == [] then 0 else |ExplodeCell(Cell(rows[0], col))| + TotalWidth(rows[1..], col)
  }

  /** The exploded column, read top to bottom. */
  function ExplodedValues(rows: seq<Row>, col: string): seq<Value> {
    if rows == [] then [] else ExplodeCell(Cell(rows[0], col)) + ExplodedValues(rows[1..], col)
  }

  /** `t.explode(col)`: every other column is duplicated for each list element. */
  function Explode(t: Table, col: string): (r: Table)
    ensures r.columns == t.columns
    ensures WellFormed(t) ==> WellFormed(r)
  {
    var r := Table(t.columns, ExplodeRows(t.rows, col));
    if WellFormed(t) then ExplodeKeepsWellFormed(t, col); r else r
  }

  lemma ExplodeKeepsWellFormed(t: Table, col: string)
    requires WellFormed(t)
    ensures WellFormed(Table(t.columns, ExplodeRows(t.rows, col)))
  {
    var out := ExplodeRows(t.rows, col);
    ExplodeFromSomeRow(t.rows, col);
    forall j, c | 0 <= j < |out| && c in out[j] ensures c in t.columns {
      var i :| 0 <= i < |t.rows| && CopyExcept(out[j], t.rows[i], col);
      if c != col {
        assert c in out[j] - {col};
      }
    }
  }

  function Column(t: Table, c: string): (vs: seq<Value>)
    ensures |vs| == |t.rows| && forall i :: 0 <= i < |t.rows| ==> vs[i] == Cell(t.rows[i], c)
  {
    seq(|t.rows|, i requires 0 <= i < |t.rows| => Cell(t.rows[i], c))
  }

  /** One output row per list element (one for a scalar or an empty list), in order. */
  lemma {:induction false} ExplodeCount(rows: seq<Row>, col: string)
    ensures |ExplodeRows(rows, col)| == TotalWidth(rows, col) >= |rows|
  {
    if rows != [] { ExplodeCount(rows[1..], col); }
  }

  /** The exploded column holds exactly the list elements, row after row. */
  lemma {:induction false} ExplodeColumn(rows: seq<Row>, col: string)
    ensures Column(Table([], ExplodeRows(rows, col)), col) == ExplodedValues(rows, col)
  {
    if rows != [] {
      ExplodeColumn(rows[1..], col);
      ColumnAppend(ExplodeRow(rows[0], col), ExplodeRows(rows[1..], col), col);
      ExplodeRowColumn(rows[0], col);
    }
  }

  lemma ColumnAppend(a: seq<Row>, b: seq<Row>, col: string)
    ensures Column(Table([], a + b), col) == Column(Table([], a), col) + Column(Table([], b), col)
  {
  }

  lemma ExplodeRowColumn(r: Row, col: string)
    ensures Column(Table([], ExplodeRow(r, col)), col) == ExplodeCell(Cell(r, col))
  {
    forall k | 0 <= k < |ExplodeRow(r, col)| {
      ExplodeRowCopy(r, col, k);
    }
  }

  /** Row `out` is a copy of row `r` except, possibly, in column `col`. */
  predicate CopyExcept(out: Row, r: Row, col: string) {
    out - {col} == r - {col} && (col in out ==> col in r)
  }

  /** How many exploded rows the first `i` input rows make: where input row `i`'s copies start. */
  function Offset(rows: seq<Row>, col: string, i: nat): nat
    requires i <= |rows|
  {
    if i == 0 then 0 else |ExplodeCell(Cell(rows[0], col))| + Offset(rows[1..], col, i - 1)
  }

  /** The output position of the copy of input row `i` for its `j`-th exploded value. */
  function Slot(rows: seq<Row>, col: string, i: nat, j: nat): nat
    requires i <= |rows|
  {
    Offset(rows, col, i) + j
  }

  /**
   * Input row `i`'s copies sit together, in order, after the copies of the
   * rows before it: the copy for its `j`-th exploded value is the row itself
   * except in the exploded column, which holds that value.
   */
  lemma ExplodeProvenance(rows: seq<Row>, col: string)
    ensures |ExplodeRows(rows, col)| == TotalWidth(rows, col)
    ensures forall i, j {:trigger Slot(rows, col, i, j)} ::
      0 <= i < |rows| && 0 <= j < |ExplodeCell(Cell(rows[i], col))| ==>
        && Slot(rows, col, i, j) < TotalWidth(rows, col)
        && CopyExcept(ExplodeRows(rows, col)[Slot(rows, col, i, j)], rows[i], col)
        && Cell(ExplodeRows(rows, col)[Slot(rows, col, i, j)], col) == ExplodeCell(Cell(rows[i], col))[j]
  {
    ExplodeCount(rows, col);
    forall i: nat, j: nat | i < |rows| && j < |ExplodeCell(Cell(rows[i], col))|
      ensures && Slot(rows, col, i, j) < TotalWidth(rows, col)
              && CopyExcept(ExplodeRows(rows, col)[Slot(rows, col, i, j)], rows[i], col)
              && Cell(ExplodeRows(rows, col)[Slot(rows, col, i, j)], col) == ExplodeCell(Cell(rows[i], col))[j]
    {
      ExplodeAt(rows, col, i, j);
      ExplodeRowCopy(rows[i], col, j);
    }
  }

  /** Copy `j` of row `r` is `r` with the exploded column set to its `j`-th value (absent if `r` lacks it). */
  lemma ExplodeRowCopy(r: Row, col: string, j: nat)
    requires j < |ExplodeCell(Cell(r, col))|
    ensures ExplodeRow(r, col)[j] - {col} == r - {col}
    ensures col in ExplodeRow(r, col)[j] <==> col in r
    ensures CopyExcept(ExplodeRow(r, col)[j], r, col)
    ensures Cell(ExplodeRow(r, col)[j], col) == ExplodeCell(Cell(r, col))[j]
  {
    var rj := ExplodeRow(r, col)[j];
    if col in r {
      assert rj == r[col := ExplodeCell(Cell(r, col))[j]];
      assert rj - {col} == r - {col};
    }
  }

  /** Output row `Slot(rows, col, i, j)` is the `j`-th copy of input row `i`. */
  lemma {:induction false} ExplodeAt(rows: seq<Row>, col: string, i: nat, j: nat)
    requires i < |rows| && j < |ExplodeCell(Cell(rows[i], col))|
    ensures Slot(rows, col, i, j) < |ExplodeRows(rows, col)|
    ensures ExplodeRows(rows, col)[Slot(rows, col, i, j)] == ExplodeRow(rows[i], col)[j]
  {
    ExplodeRowsChain(rows, col);
    BlocksStart(rows, col, i);
    BlocksAt(rows, col, i);
    ChainAtBlock(ExplodeRows(rows, col), Blocks(rows, col), Offset(rows, col, i), i, j, ExplodeRow(rows[i], col));
  }

  /** The copies of each input row, one block per row. */
  function Blocks(rows: seq<Row>, col: string): (bs: seq<seq<Row>>)
    ensures |bs| == |rows|
  {
    if rows == [] then [] else [ExplodeRow(rows[0], col)] + Blocks(rows[1..], col)
  }

  lemma {:induction false} BlocksAt(rows: seq<Row>, col: string, i: nat)
    requires i < |rows|
    ensures Blocks(rows, col)[i] == ExplodeRow(rows[i], col)
  {
    if i > 0 {
      BlocksAt(rows[1..], col, i - 1);
      assert rows[1..][i - 1] == rows[i];
    }
  }

  lemma {:induction false} ExplodeRowsChain(rows: seq<Row>, col: string)
    ensures ExplodeRows(rows, col) == Chain(Blocks(rows, col))
  {
    if rows != [] {
      ExplodeRowsChain(rows[1..], col);
      var bs := Blocks(rows, col);
      assert bs[0] == ExplodeRow(rows[0], col) && bs[1..] == Blocks(rows[1..], col);
    }
  }

  lemma {:induction false} BlocksStart(rows: seq<Row>, col: string, i: nat)
    requires i <= |rows|
    ensures Offset(rows, col, i) == ChainStart(Blocks(rows, col), i)
  {
    if i > 0 {
      BlocksStart(rows[1..], col, i - 1);
      var bs := Blocks(rows, col);
      assert bs[0] == ExplodeRow(rows[0], col) && bs[1..] == Blocks(rows[1..], col);
    }
  }

  /** Every exploded row is a copy of some input row except in the exploded column. */
  lemma ExplodeFromSomeRow(rows: seq<Row>, col: string)
    ensures forall k :: 0 <= k < |ExplodeRows(rows, col)| ==>
      exists i :: 0 <= i < |rows| && CopyExcept(ExplodeRows(rows, col)[k], rows[i], col)
  {
    ExplodeProvenance(rows, col);
    forall k | 0 <= k < |ExplodeRows(rows, col)|
      ensures exists i :: 0 <= i < |rows| && CopyExcept(ExplodeRows(rows, col)[k], rows[i], col)
    {
      var i, j := ExplodeSlot(rows, col, k);
      assert k == Slot(rows, col, i, j);
    }
  }

  /** The input row, and its exploded value, that output row `k` comes from. */
  lemma {:induction false} ExplodeSlot(rows: seq<Row>, col: string, k: nat) returns (i: nat, j: nat)
    requires k < TotalWidth(rows, col)
    ensures i < |rows| && j < |ExplodeCell(Cell(rows[i], col))| && k == Slot(rows, col, i, j)
  {
    var w := |ExplodeCell(Cell(rows[0], col))|;
    if k < w {
      i, j := 0, k;
    } else {
      var i', j' := ExplodeSlot(rows[1..], col, k - w);
      i, j := i' + 1, j';
      assert rows[1..][i'] == rows[i];
    }
  }

  function Join(parts: seq<string>, sep: string): string {
    if parts == [] then ""
    else if |parts| == 1 then parts[0]
    else parts[0] + sep + Join(parts[1..], sep)
  }

  /** `col_name + '_' + '_'.join(record_path) + '_'`. */
  function RecordPrefix(col: string, path: seq<string>): string {
    col + "_" + Join(path, "_") + "_"
  }

  /** The first row's `len()` of the nested column, if the table has such a row and the cell has a length. */
  function FirstLen(t: Table, col: string): Result<nat> {
    if col !in t.columns then Err(KeyError)
    else if |t.rows| == 0 then Err(IndexError)
    else Len(Cell(t.rows[0], col))
  }

  /** The body of `flatten_json` before its catch-all. */
  function TryFlatten(t: Table, col: string, path: seq<string>, meta: seq<string>): Result<Table> {
    var n :- FirstLen(t, col);
    if n == 0 then Ok(Empty)
    else
      var items := Column(Explode(t, col), col);
      if |path| > 0 && |meta| > 0 then RecordNormalize(items, path, meta, RecordPrefix(col, path))
      else Ok(PlainNormalize(items))
  }

  /**
   * `flatten_json(t, col, path, meta)`: any failure gives the empty table. Only
   * the first row's list decides whether anything is produced.
   */
  function FlattenJson(t: Table, col: string, path: seq<string>, meta: seq<string>): (r: Table)
    ensures WellFormed(r)
    ensures FirstLen(t, col).Err? || FirstLen(t, col) == Ok(0) ==> r == Empty
    ensures |path| > 0 && |meta| > 0 ==>
      forall c :: c in r.columns ==> c in meta || StartsWith(c, RecordPrefix(col, path))
    ensures |path| > 0 && |meta| > 0 && r != Empty ==>
      |meta| <= |r.columns| && r.columns[|r.columns| - |meta|..] == meta
    ensures (|path| == 0 || |meta| == 0) && FirstLen(t, col).Ok? && FirstLen(t, col).value > 0 ==>
      && |r.rows| == TotalWidth(t.rows, col)
      && forall c :: c in r.columns <==>
           exists i :: 0 <= i < |ExplodedValues(t.rows, col)| && c in Keys(PlainRecord(ExplodedValues(t.rows, col)[i]))
    ensures (|path| == 0 || |meta| == 0) && FirstLen(t, col).Ok? && FirstLen(t, col).value > 0 ==>
      r == PlainNormalize(ExplodedValues(t.rows, col))
    ensures |path| > 0 && |meta| > 0 && FirstLen(t, col).Ok? && FirstLen(t, col).value > 0 ==>
      var rn := RecordNormalize(ExplodedValues(t.rows, col), path, meta, RecordPrefix(col, path));
      (rn.Ok? ==> r == rn.value) && (rn.Err? ==> r == Empty)
  {
    ExplodeCount(t.rows, col);
    ExplodeColumn(t.rows, col);
    match TryFlatten(t, col, path, meta)
    case Ok(x) => x
    case Err(_) => Empty
  }

  /** A label that is no metadata column and shorter than the record prefix is no column of the flattened table. */
  lemma FlattenJsonLacks(t: Table, col: string, path: seq<string>, meta: seq<string>, x: string)
    requires |path| > 0 && |meta| > 0 && x !in meta && |x| < |RecordPrefix(col, path)|
    ensures x !in FlattenJson(t, col, path, meta).columns
  {
  }
}
