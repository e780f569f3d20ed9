/**
 * Row tables: the in-memory shape every stage of the roof-model pipeline
 * consumes and produces (a pandas DataFrame, stated explicitly).
 *
 * A table has an ordered list of column names and a sequence of rows; a row
 * maps column names to values, and a column a row does not mention reads as
 * `Missing` (NaN). The column operations here are the few DataFrame calls the
 * pipeline relies on: `drop`, `rename`, `add_prefix`, `insert(0, ...)`,
 * `concat` and the sentinel `replace`.
 */
module Tables {

  /** The exceptions the pipeline's pandas calls can raise. */
  datatype Error =
    | KeyError        // a column or a nested key is absent
    | IndexError      // the first row of a table without rows
    | TypeError       // len() of a number, indexing a non-object, ...
    | ValueError      // insert of an existing column, conflicting metadata name
    | MergeError      // a merge with no column in common
    | UnsupportedVersion

  datatype Result<+T> = Ok(value: T) | Err(error: Error) {
    predicate IsFailure() { Err? }
    function PropagateFailure<U>(): Result<U> requires Err? { Err(error) }
    function Extract(): T requires Ok? { value }
  }

  /** A JSON value; `Missing` stands for null and NaN alike. Objects keep their key order. */
  datatype Value =
    | Missing
    | Str(s: string)
    | Num(x: real)
    | Bool(b: bool)
    | Obj(fields: seq<Field>)
    | List(items: seq<Value>)

  datatype Field = Field(key: string, val: Value)

  type Row = map<string, Value>

  datatype Table = Table(columns: seq<string>, rows: seq<Row>)

  /** `pd.DataFrame()`: no columns, no rows. */
  const Empty: Table := Table([], [])

  function Cell(r: Row, c: string): Value {
    if c in r then r[c] else Missing
  }

  predicate Distinct<T(==)>(s: seq<T>) {
    forall i, j :: 0 <= i < j < |s| ==> s[i] != s[j]
  }

  /** Column labels are unique and every row only mentions columns of the table. */
  predicate WellFormed(t: Table) {
    && Distinct(t.columns)
    && forall i, c :: 0 <= i < |t.rows| && c in t.rows[i] ==> c in t.columns
  }

  /** `pd.notna(t[c]).all()` once the column is known to exist. */
  predicate AllPresent(t: Table, c: string) {
    forall i :: 0 <= i < |t.rows| ==> Cell(t.rows[i], c) != Missing
  }

  /** Python `len()` of a cell: lists, dicts and strings have one, numbers and NaN raise. */
  function Len(v: Value): (r: Result<nat>)
    ensures r.Ok? <==> (v.List? || v.Obj? || v.Str?)
    ensures v.List? ==> r == Ok(|v.items|)
  {
    match v
    case List(items) => Ok(|items|)
    case Obj(fs) => Ok(|fs|)
    case Str(s) => Ok(|s|)
    case _ => Err(TypeError)
  }

  /** Value of key `k` in an object; a repeated key resolves to its last occurrence, as in `json.load`. */
  function Lookup(fs: seq<Field>, k: string): (r: Option<Value>)
    ensures r.None? <==> forall i :: 0 <= i < |fs| ==> fs[i].key != k
    ensures r.Some? ==> exists i :: 0 <= i < |fs| && fs[i].key == k && fs[i].val == r.value
  {
    if fs == [] then None
    else if fs[|fs| - 1].key == k then Some(fs[|fs| - 1].val)
    else Lookup(fs[..|fs| - 1], k)
  }

  datatype Option<+T> = None | Some(value: T)

  // ---------------------------------------------------------------------------
  // Column lists

  /** The columns of `cols` that are not in `drop`, in their order. */
  function Without(cols: seq<string>, drop: seq<string>): (r: seq<string>)
    ensures forall c :: c in r <==> c in cols && c !in drop
    ensures Distinct(cols) ==> Distinct(r)
  {
    if cols == [] then []
    else if cols[0] in drop then Without(cols[1..], drop)
    else [cols[0]] + Without(cols[1..], drop)
  }

  /** `cols` followed by the names of `names` it does not have yet, in first-appearance order. */
  function AppendNew(cols: seq<string>, names: seq<string>): (r: seq<string>)
    ensures |cols| <= |r| && r[..|cols|] == cols
    ensures forall c :: c in r <==> c in cols || c in names
    ensures Distinct(cols) ==> Distinct(r)
    decreases names
  {
    if names == [] then cols
    else AppendNew(if names[0] in cols then cols else cols + [names[0]], names[1..])
  }

  // ---------------------------------------------------------------------------
  // DataFrame operations

  /** `t.drop(cs, axis=1)`: raises KeyError unless every named column exists. */
  function Drop(t: Table, cs: seq<string>): (r: Result<Table>)
    ensures r.Ok? <==> forall c :: c in cs ==> c in t.columns
    ensures r.Ok? ==> r.value.columns == Without(t.columns, cs) && |r.value.rows| == |t.rows|
    ensures r.Ok? ==> forall i, c :: 0 <= i < |t.rows| ==>
      Cell(r.value.rows[i], c) == if c in cs then Missing else Cell(t.rows[i], c)
    ensures r.Ok? && WellFormed(t) ==> WellFormed(r.value)
  {
    if exists c :: c in cs && c !in t.columns then Err(KeyError)
    else
      var gone := set c | c in cs;
      Ok(Table(Without(t.columns, cs), seq(|t.rows|, i requires 0 <= i < |t.rows| => t.rows[i] - gone)))
  }

  lemma DistinctCons<T>(h: T, rest: seq<T>)
    ensures Distinct(rest) && h !in rest ==> Distinct([h] + rest)
  {
  }

  /** Column list after renaming `src` to `dst`, an existing `dst` label giving way. */
  function RenameColumns(cols: seq<string>, src: string, dst: string): (r: seq<string>)
    requires src != dst
    ensures forall c :: c in r <==> (c in cols && c != src && c != dst) || (c == dst && src in cols)
    ensures Distinct(cols) ==> Distinct(r)
    ensures |cols| > 0 && cols[0] != src && cols[0] != dst ==> |r| > 0 && r[0] == cols[0]
  {
    if cols == [] then []
    else
      var rest := RenameColumns(cols[1..], src, dst);
      assert Distinct(cols) ==> Distinct(cols[1..]) && cols[0] !in cols[1..];
      if cols[0] == dst then rest
      else
        var h := if cols[0] == src then dst else cols[0];
        assert Distinct(cols) ==> h !in rest;
        DistinctCons(h, rest);
        [h] + rest
  }

  /** The cells of row `r` after column `src` is renamed to `dst`. */
  function RenameRow(r: Row, src: string, dst: string): Row {
    if src in r then (r - {src, dst})[dst := r[src]] else r - {dst}
  }

  /**
   * `t.rename(columns={src: dst})`: a no-op when `src` is not a column; otherwise
   * the `src` column carries the name `dst` afterwards.
   */
  function Rename(t: Table, src: string, dst: string): (r: Table)
    ensures |r.rows| == |t.rows|
    ensures src !in t.columns || src == dst ==> r == t
    ensures src in t.columns && src != dst ==>
      && (forall c :: c in r.columns <==> (c in t.columns && c != src && c != dst) || c == dst)
      && dst in r.columns && src !in r.columns
      && forall i, c :: 0 <= i < |t.rows| ==>
           Cell(r.rows[i], c) == if c == dst then Cell(t.rows[i], src)
                                 else if c == src then Missing
                                 else Cell(t.rows[i], c)
    ensures |t.columns| > 0 && t.columns[0] != src && t.columns[0] != dst ==>
      |r.columns| > 0 && r.columns[0] == t.columns[0]
    ensures WellFormed(t) ==> WellFormed(r)
  {
    if src !in t.columns || src == dst then t
    else Table(RenameColumns(t.columns, src, dst),
               seq(|t.rows|, i requires 0 <= i < |t.rows| => RenameRow(t.rows[i], src, dst)))
  }

  function PrefixAll(p: string, cols: seq<string>): (r: seq<string>)
    ensures |r| == |cols| && forall i :: 0 <= i < |cols| ==> r[i] == p + cols[i]
    ensures forall c :: c in cols ==> p + c in r
    ensures Distinct(cols) ==> Distinct(r)
  {
    if cols == [] then []
    else
      var rest := PrefixAll(p, cols[1..]);
      assert forall i :: 0 <= i < |rest| ==> rest[i][..|p|] == p && rest[i][|p|..] == cols[1..][i];
      [p + cols[0]] + rest
  }

  function PrefixRow(p: string, r: Row): (r': Row)
    ensures forall c :: c in r <==> p + c in r'
    ensures forall c :: c in r ==> r'[p + c] == r[c]
    ensures forall k :: k in r' ==> |p| <= |k| && k[..|p|] == p
  {
    map k | k in (set c | c in r :: p + c) :: r[k[|p|..]]
  }

  /** `t.add_prefix(p)`: every column label gets `p` in front, values untouched. */
  function AddPrefix(t: Table, p: string): (r: Table)
    ensures r.columns == PrefixAll(p, t.columns) && |r.rows| == |t.rows|
    ensures forall i :: 0 <= i < |t.rows| ==> r.rows[i] == PrefixRow(p, t.rows[i])
    ensures WellFormed(t) ==> WellFormed(r)
  {
    var r := Table(PrefixAll(p, t.columns), seq(|t.rows|, i requires 0 <= i < |t.rows| => PrefixRow(p, t.rows[i])));
    if WellFormed(t) then AddPrefixKeepsWellFormed(t, p, r); r else r
  }

  lemma AddPrefixKeepsWellFormed(t: Table, p: string, r: Table)
    requires WellFormed(t)
    requires r.columns == PrefixAll(p, t.columns) && |r.rows| == |t.rows|
    requires forall i :: 0 <= i < |t.rows| ==> r.rows[i] == PrefixRow(p, t.rows[i])
    ensures WellFormed(r)
  {
    forall i, k | 0 <= i < |r.rows| && k in r.rows[i] ensures k in r.columns {
      var c := k[|p|..];
      assert k == k[..|p|] + c == p + c;
      assert c in t.rows[i];
      assert c in t.columns;
    }
  }

  /** `t.insert(0, c, v)`: a new first column holding `v` in every row; ValueError if `c` exists. */
  function Insert0(t: Table, c: string, v: Value): (r: Result<Table>)
    ensures r.Ok? <==> c !in t.columns
    ensures r.Ok? ==> r.value.columns == [c] + t.columns && |r.value.rows| == |t.rows|
    ensures r.Ok? ==> forall i :: 0 <= i < |t.rows| ==> r.value.rows[i] == t.rows[i][c := v]
    ensures r.Ok? && WellFormed(t) ==> WellFormed(r.value)
  {
    if c in t.columns then Err(ValueError)
    else Ok(Table([c] + t.columns, seq(|t.rows|, i requires 0 <= i < |t.rows| => t.rows[i][c := v])))
  }

  /**
   * Prefixing every label with a string longer than `c`, then inserting `c`
   * in front, always succeeds and keeps every cell under its prefixed label.
   */
  lemma PrefixedKeyed(t: Table, p: string, c: string, v: Value)
    requires |p| > |c|
    ensures Insert0(AddPrefix(t, p), c, v).Ok?
    ensures var r := Insert0(AddPrefix(t, p), c, v).value;
      && r.columns == [c] + PrefixAll(p, t.columns)
      && |r.rows| == |t.rows|
      && forall i :: 0 <= i < |t.rows| ==>
           && Cell(r.rows[i], c) == v
           && forall k :: k in t.rows[i] ==> Cell(r.rows[i], p + k) == t.rows[i][k]
  {
    var prefixed := AddPrefix(t, p);
    assert c !in prefixed.columns by {
      forall j | 0 <= j < |prefixed.columns| ensures prefixed.columns[j] != c {
        assert |prefixed.columns[j]| >= |p|;
      }
    }
    var r := Insert0(prefixed, c, v).value;
    forall i, k | 0 <= i < |t.rows| && k in t.rows[i] ensures Cell(r.rows[i], p + k) == t.rows[i][k] {
      assert r.rows[i] == PrefixRow(p, t.rows[i])[c := v];
      assert |p + k| > |c|;
    }
  }

  /** `pd.concat([a, b])`: the rows of `a` then those of `b`, the columns of `a` then `b`'s new ones. */
  function Concat(a: Table, b: Table): (r: Table)
    ensures r.rows == a.rows + b.rows
    ensures |a.columns| <= |r.columns| && r.columns[..|a.columns|] == a.columns
    ensures forall c :: c in r.columns <==> c in a.columns || c in b.columns
    ensures WellFormed(a) && WellFormed(b) ==> WellFormed(r)
  {
    Table(AppendNew(a.columns, b.columns), a.rows + b.rows)
  }

  // ---------------------------------------------------------------------------
  // Blocks laid end to end (what `explode` and `json_normalize` make of per-row results)

  /** The blocks of `bs`, one after the other. */
  function Chain<T>(bs: seq<seq<T>>): seq<T> {
    if bs == [] then [] else bs[0] + Chain(bs[1..])
  }

  /** Where block `i` starts in `Chain(bs)`. */
  function ChainStart<T>(bs: seq<seq<T>>, i: nat): nat
    requires i <= |bs|
  {
    if i == 0 then 0 else |bs[0]| + ChainStart(bs[1..], i - 1)
  }

  /** Element `j` of block `i` sits at `ChainStart(bs, i) + j`. */
  lemma {:induction false} ChainAt<T>(bs: seq<seq<T>>, i: nat, j: nat)
    requires i < |bs| && j < |bs[i]|
    ensures ChainStart(bs, i) + j < |Chain(bs)| && Chain(bs)[ChainStart(bs, i) + j] == bs[i][j]
  {
    assert Chain(bs) == bs[0] + Chain(bs[1..]);
    if i > 0 {
      ChainAt(bs[1..], i - 1, j);
      assert bs[1..][i - 1] == bs[i];
    }
  }

  /** `ChainAt` with every quantity named, for callers whose terms are costly to unfold. */
  lemma ChainAtBlock<T>(chain: seq<T>, bs: seq<seq<T>>, start: nat, i: nat, j: nat, block: seq<T>)
    requires i < |bs| && start == ChainStart(bs, i) && chain == Chain(bs) && bs[i] == block && j < |block|
    ensures start + j < |chain| && chain[start + j] == block[j]
  {
    ChainAt(bs, i, j);
  }

  /** Every position of `Chain(bs)` is element `j` of some block `i`. */
  lemma {:induction false} ChainSlot<T>(bs: seq<seq<T>>, n: nat) returns (i: nat, j: nat)
    requires n < |Chain(bs)|
    ensures i < |bs| && j < |bs[i]| && n == ChainStart(bs, i) + j
  {
    assert Chain(bs) == bs[0] + Chain(bs[1..]);
    if n < |bs[0]| {
      i, j := 0, n;
    } else {
      var i', j' := ChainSlot(bs[1..], n - |bs[0]|);
      i, j := i' + 1, j';
      assert bs[1..][i'] == bs[i];
    }
  }

  // ---------------------------------------------------------------------------
  // Building a table from flattened records (`pd.DataFrame(list_of_dicts)`)

  function Keys(ps: seq<(string, Value)>): (r: seq<string>)
    ensures |r| == |ps| && forall i :: 0 <= i < |ps| ==> r[i] == ps[i].0
  {
    if ps == [] then [] else [ps[0].0] + Keys(ps[1..])
  }

  /** A dict built from key/value pairs: a repeated key keeps its last value. */
  function ToRow(ps: seq<(string, Value)>): (r: Row)
    ensures forall k :: k in r <==> k in Keys(ps)
  {
    if ps == [] then map[]
    else
      KeysSnoc(ps);
      ToRow(ps[..|ps| - 1])[ps[|ps| - 1].0 := ps[|ps| - 1].1]
  }

  lemma KeysSnoc(ps: seq<(string, Value)>)
    requires ps != []
    ensures Keys(ps) == Keys(ps[..|ps| - 1]) + [ps[|ps| - 1].0]
  {
    var front := Keys(ps[..|ps| - 1]) + [ps[|ps| - 1].0];
    assert |Keys(ps)| == |front|;
    forall i | 0 <= i < |ps| ensures Keys(ps)[i] == front[i] {
      if i < |ps| - 1 {
        assert front[i] == Keys(ps[..|ps| - 1])[i] == ps[..|ps| - 1][i].0;
      }
    }
  }

  /** The column union of a list of records, in order of first appearance. */
  function RecordColumns(rs: seq<seq<(string, Value)>>): (r: seq<string>)
    ensures Distinct(r)
    ensures forall c :: c in r <==> exists i :: 0 <= i < |rs| && c in Keys(rs[i])
  {
    if rs == [] then []
    else
      var prev := RecordColumns(rs[..|rs| - 1]);
      assert forall i :: 0 <= i < |rs| - 1 ==> rs[..|rs| - 1][i] == rs[i];
      AppendNew(prev, Keys(rs[|rs| - 1]))
  }

  /** `pd.DataFrame(records)`: one row per record. */
  function FromRecords(rs: seq<seq<(string, Value)>>): (t: Table)
    ensures WellFormed(t) && |t.rows| == |rs|
    ensures t.columns == RecordColumns(rs)
    ensures forall i :: 0 <= i < |rs| ==> t.rows[i] == ToRow(rs[i])
  {
    var t := Table(RecordColumns(rs), seq(|rs|, i requires 0 <= i < |rs| => ToRow(rs[i])));
    assert forall i, c :: 0 <= i < |t.rows| && c in t.rows[i] ==> c in t.columns by {
      forall i, c | 0 <= i < |t.rows| && c in t.rows[i] ensures c in t.columns {
        assert c in Keys(rs[i]);
      }
    }
    t
  }

  // ---------------------------------------------------------------------------
  // Sentinel normalisation (`df.replace(['', list, None, 'None', 'none'], np.nan)`)

  predicate IsSentinel(v: Value) {
    v == Missing || v == Str("") || v == Str("None") || v == Str("none")
  }

  function Desentinel(v: Value): (r: Value)
    ensures r == Missing <==> IsSentinel(v)
    ensures !IsSentinel(v) ==> r == v
  {
    if IsSentinel(v) then Missing else v
  }

  /**
   * Every top-level cell equal to "", "None", "none" (or already null) becomes
   * Missing. The `list` entry of the source's replacement list is the Python type
   * object, which no cell equals, so lists (even empty ones) are kept.
   */
  function ReplaceSentinels(t: Table): (r: Table)
    ensures r.columns == t.columns && |r.rows| == |t.rows|
    ensures forall i, c :: 0 <= i < |t.rows| ==> Cell(r.rows[i], c) == Desentinel(Cell(t.rows[i], c))
    ensures WellFormed(t) ==> WellFormed(r)
  {
    Table(t.columns, seq(|t.rows|, i requires 0 <= i < |t.rows| =>
      map c | c in t.rows[i] :: Desentinel(t.rows[i][c])))
  }

  lemma {:induction false} ReplaceSentinelsIdempotent(t: Table)
    ensures ReplaceSentinels(ReplaceSentinels(t)) == ReplaceSentinels(t)
  {
    var once := ReplaceSentinels(t);
    var twice := ReplaceSentinels(once);
    forall i | 0 <= i < |t.rows| ensures twice.rows[i] == once.rows[i] {
      assert twice.rows[i].Keys == once.rows[i].Keys;
      forall c | c in once.rows[i] ensures twice.rows[i][c] == once.rows[i][c] {
        assert Desentinel(once.rows[i][c]) == once.rows[i][c];
      }
    }
  }
}
