/**
 * The part of `pd.json_normalize` the flattener uses, over the explicit value tree:
 *
 *  - record flattening: nested objects become dotted column names
 *    (`startPoint.x`), lists and scalars are kept as cell values;
 *  - the plain form (no record path, no metadata): one row per element;
 *  - the record-path form: descend a path of keys inside each element, one row
 *    per record found there, record columns prefixed, metadata columns taken
 *    from the element the records came from.
 */
module Normalize {
  import opened Tables

  function StartsWith(s: string, p: string): bool {
    |p| <= |s| && s[..|p|] == p
  }

  /** A flat record: no value is an object any more. */
  predicate Flat(ps: seq<(string, Value)>) {
    forall i :: 0 <= i < |ps| ==> !ps[i].1.Obj?
  }

  /**
   * Fields `i..` of a nested object, in order, each key written below `prefix`;
   * an object-valued field is expanded in place.
   */
  function Expand(prefix: string, fs: seq<Field>, i: nat): (r: seq<(string, Value)>)
    requires i <= |fs|
    ensures Flat(r)
    ensures forall j :: 0 <= j < |r| ==> StartsWith(r[j].0, prefix)
    decreases Obj(fs), |fs| - i
  {
    if i == |fs| then []
    else
      var head := match fs[i].val
        case Obj(sub) => Expand(prefix + fs[i].key + ".", sub, 0)
        case _ => [(prefix + fs[i].key, fs[i].val)];
      var rest := Expand(prefix, fs, i + 1);
      assert forall j :: 0 <= j < |head| ==> StartsWith(head[j].0, prefix) by {
        forall j | 0 <= j < |head| ensures StartsWith(head[j].0, prefix) {
          var q := prefix + fs[i].key;
          assert q[..|prefix|] == prefix;
          if fs[i].val.Obj? {
            assert StartsWith(head[j].0, q + ".");
            assert head[j].0[..|prefix|] == (q + ".")[..|prefix|];
          }
        }
      }
      head + rest
  }

  /** The top-level fields of a record whose value is not an object, in order. */
  function TopScalars(fs: seq<Field>): (r: seq<(string, Value)>)
    ensures Flat(r)
    ensures forall j :: 0 <= j < |r| ==> exists i :: 0 <= i < |fs| && fs[i].key == r[j].0 && fs[i].val == r[j].1
  {
    if fs == [] then []
    else
      var rest := TopScalars(fs[1..]);
      assert forall j :: 0 <= j < |rest| ==> exists i :: 0 <= i < |fs| && fs[i].key == rest[j].0 && fs[i].val == rest[j].1 by {
        forall j | 0 <= j < |rest|
          ensures exists i :: 0 <= i < |fs| && fs[i].key == rest[j].0 && fs[i].val == rest[j].1
        {
          var i :| 0 <= i < |fs[1..]| && fs[1..][i].key == rest[j].0 && fs[1..][i].val == rest[j].1;
          assert fs[i + 1] == fs[1..][i];
        }
      }
      if fs[0].val.Obj? then rest else [(fs[0].key, fs[0].val)] + rest
  }

  /** The object-valued top-level fields of a record from index `i` on, expanded below `key.`. */
  function TopNested(fs: seq<Field>, i: nat): (r: seq<(string, Value)>)
    requires i <= |fs|
    ensures Flat(r)
    decreases |fs| - i
  {
    if i == |fs| then []
    else
      (match fs[i].val
       case Obj(sub) => Expand(fs[i].key + ".", sub, 0)
       case _ => [])
      + TopNested(fs, i + 1)
  }

  /**
   * `nested_to_record` of one record: the top-level scalar fields keep their
   * places, the nested objects follow, flattened to dotted names.
   */
  function FlattenRecord(fs: seq<Field>): (r: seq<(string, Value)>)
    ensures Flat(r)
  {
    TopScalars(fs) + TopNested(fs, 0)
  }

  /**
   * `(name, x)` is a leaf of the object `fs`: a top-level field `name` whose
   * value `x` is not an object, or, below an object-valued field `k`, a leaf
   * `q` of that object, named `k + "." + q`.
   */
  predicate IsLeaf(fs: seq<Field>, name: string, x: Value)
    decreases Obj(fs), 1
  {
    exists i :: 0 <= i < |fs| && LeafVia(fs, i, name, x)
  }

  /**
   * `nested_to_record` loses nothing and invents nothing: a pair is in the
   * flattened record exactly when it is a leaf of the record, so every scalar
   * field is kept as it is and every nested leaf appears under its dotted path.
   */
  lemma FlattenRecordLeaves(fs: seq<Field>)
    ensures forall p :: p in FlattenRecord(fs) <==> IsLeaf(fs, p.0, p.1)
  {
    forall p ensures p in FlattenRecord(fs) <==> IsLeaf(fs, p.0, p.1) {
      FlattenRecordLeaf(fs, p);
    }
  }

  lemma FlattenRecordLeaf(fs: seq<Field>, p: (string, Value))
    ensures p in FlattenRecord(fs) <==> IsLeaf(fs, p.0, p.1)
  {
    assert p in FlattenRecord(fs) <==> p in TopScalars(fs) || p in TopNested(fs, 0);
    if p in FlattenRecord(fs) {
      FlattenedIsLeaf(fs, p);
    }
    if IsLeaf(fs, p.0, p.1) {
      LeafIsFlattened(fs, p);
    }
  }

  lemma FlattenedIsLeaf(fs: seq<Field>, p: (string, Value))
    requires p in TopScalars(fs) || p in TopNested(fs, 0)
    ensures IsLeaf(fs, p.0, p.1)
  {
    if p in TopNested(fs, 0) {
      NestedIsLeaf(fs, p);
    } else {
      TopScalarsMembers(fs, p);
      var j :| 0 <= j < |fs| && !fs[j].val.Obj? && p == (fs[j].key, fs[j].val);
      assert LeafVia(fs, j, p.0, p.1);
    }
  }

  lemma NestedIsLeaf(fs: seq<Field>, p: (string, Value))
    requires p in TopNested(fs, 0)
    ensures IsLeaf(fs, p.0, p.1)
  {
    TopNestedMembers(fs, 0, p);
    var j :| 0 <= j < |fs| && fs[j].val.Obj? && p in Expand(fs[j].key + ".", fs[j].val.fields, 0);
    ExpandLeaves(fs[j].key + ".", fs[j].val.fields, p);
    assert LeafVia(fs, j, p.0, p.1);
  }

  lemma LeafIsFlattened(fs: seq<Field>, p: (string, Value))
    requires IsLeaf(fs, p.0, p.1)
    ensures p in TopScalars(fs) || p in TopNested(fs, 0)
  {
    var j :| 0 <= j < |fs| && LeafVia(fs, j, p.0, p.1);
    if fs[j].val.Obj? {
      NestedLeafIsFlattened(fs, j, p);
    } else {
      TopScalarsMembers(fs, p);
    }
  }

  lemma NestedLeafIsFlattened(fs: seq<Field>, j: nat, p: (string, Value))
    requires j < |fs| && fs[j].val.Obj? && LeafVia(fs, j, p.0, p.1)
    ensures p in TopNested(fs, 0)
  {
    ExpandLeaves(fs[j].key + ".", fs[j].val.fields, p);
    TopNestedMembers(fs, 0, p);
  }

  /** One field's contribution to `Expand(prefix, ...)`. */
  predicate FieldYields(prefix: string, f: Field, p: (string, Value)) {
    || (!f.val.Obj? && p == (prefix + f.key, f.val))
    || (f.val.Obj? && p in Expand(prefix + f.key + ".", f.val.fields, 0))
  }

  lemma {:induction false} ExpandMembers(prefix: string, fs: seq<Field>, i: nat, p: (string, Value))
    requires i <= |fs|
    ensures p in Expand(prefix, fs, i) <==> exists j :: i <= j < |fs| && FieldYields(prefix, fs[j], p)
    decreases |fs| - i
  {
    if i < |fs| {
      ExpandMembers(prefix, fs, i + 1, p);
      var head := if fs[i].val.Obj? then Expand(prefix + fs[i].key + ".", fs[i].val.fields, 0)
                  else [(prefix + fs[i].key, fs[i].val)];
      var rest := Expand(prefix, fs, i + 1);
      assert Expand(prefix, fs, i) == head + rest;
      assert p in head <==> FieldYields(prefix, fs[i], p);
      if exists j :: i <= j < |fs| && FieldYields(prefix, fs[j], p) {
        var j :| i <= j < |fs| && FieldYields(prefix, fs[j], p);
        assert j == i || (i + 1 <= j < |fs| && FieldYields(prefix, fs[j], p));
      }
    }
  }

  /** `Expand(prefix, fs, 0)` holds exactly the leaves of `fs`, each written below `prefix`. */
  lemma {:induction false} ExpandLeaves(prefix: string, fs: seq<Field>, p: (string, Value))
    ensures p in Expand(prefix, fs, 0) <==> StartsWith(p.0, prefix) && IsLeaf(fs, p.0[|prefix|..], p.1)
    decreases Obj(fs)
  {
    ExpandMembers(prefix, fs, 0, p);
    if p in Expand(prefix, fs, 0) {
      var j :| 0 <= j < |fs| && FieldYields(prefix, fs[j], p);
      var key := fs[j].key;
      if fs[j].val.Obj? {
        ExpandLeaves(prefix + key + ".", fs[j].val.fields, p);
        StartsWithConcat(p.0, prefix, key + ".");
        assert prefix + key + "." == prefix + (key + ".");
      } else {
        assert p.0[..|prefix|] == prefix && p.0[|prefix|..] == key;
      }
      assert LeafVia(fs, j, p.0[|prefix|..], p.1);
    }
    if StartsWith(p.0, prefix) && IsLeaf(fs, p.0[|prefix|..], p.1) {
      var name := p.0[|prefix|..];
      assert IsLeaf(fs, name, p.1);
      var j :| 0 <= j < |fs| && LeafVia(fs, j, name, p.1);
      var key := fs[j].key;
      assert p.0 == prefix + name;
      if fs[j].val.Obj? {
        ExpandLeaves(prefix + key + ".", fs[j].val.fields, p);
        StartsWithConcat(p.0, prefix, key + ".");
        assert prefix + key + "." == prefix + (key + ".");
      }
      assert FieldYields(prefix, fs[j], p);
    }
  }

  /** The `i`-th disjunct of `IsLeaf`. */
  predicate LeafVia(fs: seq<Field>, i: nat, name: string, x: Value)
    requires i < |fs|
    decreases Obj(fs), 0
  {
    || (!fs[i].val.Obj? && name == fs[i].key && x == fs[i].val)
    || (fs[i].val.Obj? && StartsWith(name, fs[i].key + ".") && IsLeaf(fs[i].val.fields, name[|fs[i].key| + 1..], x))
  }

  lemma StartsWithConcat(s: string, a: string, b: string)
    ensures StartsWith(s, a + b) <==> StartsWith(s, a) && StartsWith(s[|a|..], b)
    ensures StartsWith(s, a + b) ==> s[|a + b|..] == s[|a|..][|b|..]
  {
    if StartsWith(s, a) && StartsWith(s[|a|..], b) {
      assert s[..|a + b|] == s[..|a|] + s[|a|..][..|b|];
    }
    if StartsWith(s, a + b) {
      assert s[..|a|] == (a + b)[..|a|];
      assert s[|a|..][..|b|] == s[..|a + b|][|a|..];
    }
  }

  lemma {:induction false} TopScalarsMembers(fs: seq<Field>, p: (string, Value))
    ensures p in TopScalars(fs) <==> exists i :: 0 <= i < |fs| && !fs[i].val.Obj? && p == (fs[i].key, fs[i].val)
  {
    if fs != [] {
      TopScalarsMembers(fs[1..], p);
      if exists i :: 0 <= i < |fs| && !fs[i].val.Obj? && p == (fs[i].key, fs[i].val) {
        var i :| 0 <= i < |fs| && !fs[i].val.Obj? && p == (fs[i].key, fs[i].val);
        if i > 0 { assert fs[1..][i - 1] == fs[i]; }
      }
      if exists i :: 0 <= i < |fs[1..]| && !fs[1..][i].val.Obj? && p == (fs[1..][i].key, fs[1..][i].val) {
        var i :| 0 <= i < |fs[1..]| && !fs[1..][i].val.Obj? && p == (fs[1..][i].key, fs[1..][i].val);
        assert fs[1..][i] == fs[i + 1];
      }
    }
  }

  lemma {:induction false} TopNestedMembers(fs: seq<Field>, i: nat, p: (string, Value))
    requires i <= |fs|
    ensures p in TopNested(fs, i) <==>
      exists j :: i <= j < |fs| && fs[j].val.Obj? && p in Expand(fs[j].key + ".", fs[j].val.fields, 0)
    decreases |fs| - i
  {
    if i < |fs| {
      TopNestedMembers(fs, i + 1, p);
      var head := if fs[i].val.Obj? then Expand(fs[i].key + ".", fs[i].val.fields, 0) else [];
      assert TopNested(fs, i) == head + TopNested(fs, i + 1);
      if exists j :: i <= j < |fs| && fs[j].val.Obj? && p in Expand(fs[j].key + ".", fs[j].val.fields, 0) {
        var j :| i <= j < |fs| && fs[j].val.Obj? && p in Expand(fs[j].key + ".", fs[j].val.fields, 0);
        assert j == i || i + 1 <= j;
      }
    }
  }

  function AsFields(ps: seq<(string, Value)>): (fs: seq<Field>)
    ensures |fs| == |ps| && forall i :: 0 <= i < |ps| ==> fs[i] == Field(ps[i].0, ps[i].1)
  {
    seq(|ps|, i requires 0 <= i < |ps| => Field(ps[i].0, ps[i].1))
  }

  /** A record without nested objects is left as it is ("idempotent for flat records"). */
  lemma {:induction false} FlattenFlatRecord(fs: seq<Field>)
    requires forall i :: 0 <= i < |fs| ==> !fs[i].val.Obj?
    ensures FlattenRecord(fs) == seq(|fs|, i requires 0 <= i < |fs| => (fs[i].key, fs[i].val))
  {
    TopNestedOfFlat(fs, 0);
    TopScalarsOfFlat(fs);
  }

  lemma {:induction false} TopNestedOfFlat(fs: seq<Field>, i: nat)
    requires i <= |fs|
    requires forall j :: 0 <= j < |fs| ==> !fs[j].val.Obj?
    ensures TopNested(fs, i) == []
    decreases |fs| - i
  {
    if i < |fs| { TopNestedOfFlat(fs, i + 1); }
  }

  lemma {:induction false} TopScalarsOfFlat(fs: seq<Field>)
    requires forall j :: 0 <= j < |fs| ==> !fs[j].val.Obj?
    ensures TopScalars(fs) == seq(|fs|, i requires 0 <= i < |fs| => (fs[i].key, fs[i].val))
  {
    if fs != [] { TopScalarsOfFlat(fs[1..]); }
  }

  /** Flattening a flattened record changes nothing. */
  lemma FlattenRecordIdempotent(fs: seq<Field>)
    ensures FlattenRecord(AsFields(FlattenRecord(fs))) == FlattenRecord(fs)
  {
    var ps := FlattenRecord(fs);
    FlattenFlatRecord(AsFields(ps));
  }

  // ---------------------------------------------------------------------------
  // Plain normalisation: no record path, no metadata

  function PlainRecord(v: Value): (r: seq<(string, Value)>)
    ensures Flat(r)
  {
    match v
    case Obj(fs) => FlattenRecord(fs)
    case _ => []
  }

  function PlainRecords(items: seq<Value>): (r: seq<seq<(string, Value)>>)
    ensures |r| == |items| && forall i :: 0 <= i < |items| ==> r[i] == PlainRecord(items[i])
  {
    seq(|items|, i requires 0 <= i < |items| => PlainRecord(items[i]))
  }

  /**
   * `json_normalize(data)` without a record path: element `i` becomes row `i`;
   * an object is flattened, anything else gives a row with no cells.
   */
  function PlainNormalize(items: seq<Value>): (t: Table)
    ensures WellFormed(t) && |t.rows| == |items|
    ensures forall i :: 0 <= i < |items| ==> t.rows[i] == ToRow(PlainRecord(items[i]))
    ensures forall c :: c in t.columns <==> exists i :: 0 <= i < |items| && c in Keys(PlainRecord(items[i]))
  {
    var rs := PlainRecords(items);
    var t := FromRecords(rs);
    assert forall c :: c in t.columns ==> exists i :: 0 <= i < |items| && c in Keys(PlainRecord(items[i])) by {
      forall c | c in t.columns ensures exists i :: 0 <= i < |items| && c in Keys(PlainRecord(items[i])) {
        var i :| 0 <= i < |rs| && c in Keys(rs[i]);
      }
    }
    t
  }

  // ---------------------------------------------------------------------------
  // Record-path normalisation

  /**
   * What one step of the record path yields below `v` for `key`. On the last
   * step the value must be a list (or null, which gives no records); on the way
   * down an object counts as a one-element list and an empty string iterates
   * to nothing. A missing key, or indexing something that is not an object,
   * raises.
   */
  function Children(v: Value, key: string, last: bool): Result<seq<Value>> {
    match v
    case Obj(fs) =>
      (match Lookup(fs, key)
       case None => Err(KeyError)
       case Some(c) =>
         if last then
           (match c
            case List(items) => Ok(items)
            case Missing => Ok([])
            case _ => Err(TypeError))
         else
           (match c
            case Obj(_) => Ok([c])
            case List(items) => Ok(items)
            case Str(s) => if |s| == 0 then Ok([]) else Err(TypeError)
            case _ => Err(TypeError)))
    case _ => Err(TypeError)
  }

  function ChildrenAll(objs: seq<Value>, key: string, last: bool): Result<seq<Value>> {
    if objs == [] then Ok([])
    else
      var first :- Children(objs[0], key, last);
      var rest :- ChildrenAll(objs[1..], key, last);
      Ok(first + rest)
  }

  /** The records at the end of `path` below each of `objs`, in document order. */
  function PullRecords(objs: seq<Value>, path: seq<string>): Result<seq<Value>>
    requires |path| > 0
    decreases |path|
  {
    var next :- ChildrenAll(objs, path[0], |path| == 1);
    if |path| == 1 then Ok(next) else PullRecords(next, path[1..])
  }

  /** Each record flattened; a record that is not an object is refused. */
  function FlattenRecords(recs: seq<Value>): (r: Result<seq<seq<(string, Value)>>>)
    ensures r.Ok? <==> forall k :: 0 <= k < |recs| ==> recs[k].Obj?
    ensures r.Ok? ==> |r.value| == |recs|
    ensures r.Ok? ==> forall k :: 0 <= k < |recs| ==> r.value[k] == FlattenRecord(recs[k].fields)
  {
    if recs == [] then Ok([])
    else if !recs[0].Obj? then Err(TypeError)
    else
      var rest :- FlattenRecords(recs[1..]);
      Ok([FlattenRecord(recs[0].fields)] + rest)
  }

  function MetaValue(v: Value, m: string): Value {
    if v.Obj? then (match Lookup(v.fields, m) case Some(x) => x case None => Missing) else Missing
  }

  /** The metadata cells an element contributes: a key it lacks gives Missing (errors='ignore'). */
  function MetaRow(v: Value, meta: seq<string>): (r: Row)
    ensures forall k :: k in r <==> k in meta
  {
    map m | m in meta :: MetaValue(v, m)
  }

  /**
   * For every element in order: its flattened records, and for each of them
   * the element's metadata row.
   */
  function Gather(items: seq<Value>, path: seq<string>, meta: seq<string>)
    : (r: Result<(seq<seq<(string, Value)>>, seq<Row>)>)
    requires |path| > 0
    ensures r.Ok? ==> |r.value.0| == |r.value.1|
  {
    if items == [] then Ok(([], []))
    else
      var recs :- PullRecords([items[0]], path);
      var flat :- FlattenRecords(recs);
      var rest :- Gather(items[1..], path, meta);
      var metas := seq(|flat|, _ => MetaRow(items[0], meta));
      Ok((flat + rest.0, metas + rest.1))
  }

  /** The records at the end of `path` below element `v` (none when the path cannot be followed). */
  function Recs(v: Value, path: seq<string>): seq<Value>
    requires |path| > 0
  {
    match PullRecords([v], path)
    case Ok(rs) => rs
    case Err(_) => []
  }

  /** The path can be followed below `v` and every record found there is an object. */
  predicate Pullable(v: Value, path: seq<string>)
    requires |path| > 0
  {
    PullRecords([v], path).Ok? && forall k :: 0 <= k < |Recs(v, path)| ==> Recs(v, path)[k].Obj?
  }

  predicate AllPullable(items: seq<Value>, path: seq<string>)
    requires |path| > 0
  {
    forall i :: 0 <= i < |items| ==> Pullable(items[i], path)
  }

  /** How many records the first `i` elements yield: where element `i`'s records start. */
  function RecOffset(items: seq<Value>, path: seq<string>, i: nat): nat
    requires |path| > 0 && i <= |items|
  {
    if i == 0 then 0 else |Recs(items[0], path)| + RecOffset(items[1..], path, i - 1)
  }

  /** The output row of element `i`'s `k`-th record. */
  function RecSlot(items: seq<Value>, path: seq<string>, i: nat, k: nat): nat
    requires |path| > 0 && i <= |items|
  {
    RecOffset(items, path, i) + k
  }

  /** The row `json_normalize` makes of element `v`'s `k`-th record: prefixed record cells, then the element's metadata. */
  function RecordRow(v: Value, path: seq<string>, meta: seq<string>, prefix: string, k: nat): Row
    requires |path| > 0 && k < |Recs(v, path)| && Recs(v, path)[k].Obj?
  {
    PrefixRow(prefix, ToRow(FlattenRecord(Recs(v, path)[k].fields))) + MetaRow(v, meta)
  }

  /** Gathering succeeds exactly when every element yields object records, one per record found. */
  lemma {:induction false} GatherOk(items: seq<Value>, path: seq<string>, meta: seq<string>)
    requires |path| > 0
    ensures Gather(items, path, meta).Ok? <==> AllPullable(items, path)
    ensures Gather(items, path, meta).Ok? ==> |Gather(items, path, meta).value.0| == RecOffset(items, path, |items|)
  {
    if items != [] {
      GatherOk(items[1..], path, meta);
      GatherCons(items, path, meta);
      AllPullableCons(items, path);
    }
  }

  lemma GatherCons(items: seq<Value>, path: seq<string>, meta: seq<string>)
    requires |path| > 0 && items != []
    ensures Gather(items, path, meta).Ok? <==> Pullable(items[0], path) && Gather(items[1..], path, meta).Ok?
    ensures Gather(items, path, meta).Ok? ==>
      |Gather(items, path, meta).value.0| == |Recs(items[0], path)| + |Gather(items[1..], path, meta).value.0|
  {
    var pr := PullRecords([items[0]], path);
    if pr.Ok? {
      assert Recs(items[0], path) == pr.value;
      var fr := FlattenRecords(pr.value);
      assert fr.Ok? <==> Pullable(items[0], path);
      if fr.Ok? && Gather(items[1..], path, meta).Ok? {
        var rest := Gather(items[1..], path, meta).value;
        var metas := seq(|fr.value|, _ => MetaRow(items[0], meta));
        assert Gather(items, path, meta) == Ok((fr.value + rest.0, metas + rest.1));
      }
    }
  }

  lemma AllPullableCons(items: seq<Value>, path: seq<string>)
    requires |path| > 0 && items != []
    ensures AllPullable(items, path) <==> Pullable(items[0], path) && AllPullable(items[1..], path)
  {
    if Pullable(items[0], path) && AllPullable(items[1..], path) {
      forall i | 0 <= i < |items| ensures Pullable(items[i], path) {
        if i > 0 { assert items[i] == items[1..][i - 1]; }
      }
    }
    if AllPullable(items, path) {
      forall i | 0 <= i < |items[1..]| ensures Pullable(items[1..][i], path) {
        assert items[1..][i] == items[i + 1];
      }
    }
  }

  /** Element `v`'s records, each flattened (a record that is not an object counts as empty). */
  function RecBlock(v: Value, path: seq<string>): (b: seq<seq<(string, Value)>>)
    requires |path| > 0
    ensures |b| == |Recs(v, path)|
    ensures forall k :: 0 <= k < |b| && Recs(v, path)[k].Obj? ==> b[k] == FlattenRecord(Recs(v, path)[k].fields)
  {
    var recs := Recs(v, path);
    seq(|recs|, k requires 0 <= k < |recs| => if recs[k].Obj? then FlattenRecord(recs[k].fields) else [])
  }

  /** Element `v`'s metadata row, once per record. */
  function MetaBlock(v: Value, path: seq<string>, meta: seq<string>): (b: seq<Row>)
    requires |path| > 0
    ensures |b| == |Recs(v, path)| && forall k :: 0 <= k < |b| ==> b[k] == MetaRow(v, meta)
  {
    seq(|Recs(v, path)|, _ => MetaRow(v, meta))
  }

  function RecBlocks(items: seq<Value>, path: seq<string>): (bs: seq<seq<seq<(string, Value)>>>)
    requires |path| > 0
    ensures |bs| == |items|
  {
    if items == [] then [] else [RecBlock(items[0], path)] + RecBlocks(items[1..], path)
  }

  function MetaBlocks(items: seq<Value>, path: seq<string>, meta: seq<string>): (bs: seq<seq<Row>>)
    requires |path| > 0
    ensures |bs| == |items|
  {
    if items == [] then [] else [MetaBlock(items[0], path, meta)] + MetaBlocks(items[1..], path, meta)
  }

  lemma {:induction false} BlocksAtItem(items: seq<Value>, path: seq<string>, meta: seq<string>, i: nat)
    requires |path| > 0 && i < |items|
    ensures RecBlocks(items, path)[i] == RecBlock(items[i], path)
    ensures MetaBlocks(items, path, meta)[i] == MetaBlock(items[i], path, meta)
  {
    if i > 0 {
      BlocksAtItem(items[1..], path, meta, i - 1);
      assert items[1..][i - 1] == items[i];
    }
  }

  /** What `Gather` builds: each element's records, laid end to end, and its metadata alongside. */
  lemma {:induction false} GatherChain(items: seq<Value>, path: seq<string>, meta: seq<string>)
    requires |path| > 0 && Gather(items, path, meta).Ok?
    ensures Gather(items, path, meta).value.0 == Chain(RecBlocks(items, path))
    ensures Gather(items, path, meta).value.1 == Chain(MetaBlocks(items, path, meta))
  {
    if items != [] {
      GatherStep(items, path, meta);
      GatherChain(items[1..], path, meta);
    }
  }

  lemma GatherStep(items: seq<Value>, path: seq<string>, meta: seq<string>)
    requires |path| > 0 && items != [] && Gather(items, path, meta).Ok?
    ensures Gather(items[1..], path, meta).Ok?
    ensures Gather(items, path, meta).value.0 == RecBlock(items[0], path) + Gather(items[1..], path, meta).value.0
    ensures Gather(items, path, meta).value.1 == MetaBlock(items[0], path, meta) + Gather(items[1..], path, meta).value.1
  {
    var recs := PullRecords([items[0]], path).value;
    assert Recs(items[0], path) == recs;
    var flat := FlattenRecords(recs).value;
    var rest := Gather(items[1..], path, meta).value;
    var metas := seq(|flat|, _ => MetaRow(items[0], meta));
    assert Gather(items, path, meta).value == (flat + rest.0, metas + rest.1);
    assert metas == MetaBlock(items[0], path, meta);
    assert flat == RecBlock(items[0], path);
  }

  /** Element `i`'s records start at `RecOffset(items, path, i)`. */
  lemma {:induction false} RecOffsetStart(items: seq<Value>, path: seq<string>, i: nat)
    requires |path| > 0 && i <= |items|
    ensures RecOffset(items, path, i) == ChainStart(RecBlocks(items, path), i)
  {
    if i > 0 {
      RecOffsetStart(items[1..], path, i - 1);
      assert RecBlocks(items, path)[0] == RecBlock(items[0], path);
      assert RecBlocks(items, path)[1..] == RecBlocks(items[1..], path);
    }
  }

  /** Element `i`'s metadata rows start at `RecOffset(items, path, i)`. */
  lemma {:induction false} MetaOffsetStart(items: seq<Value>, path: seq<string>, meta: seq<string>, i: nat)
    requires |path| > 0 && i <= |items|
    ensures RecOffset(items, path, i) == ChainStart(MetaBlocks(items, path, meta), i)
  {
    if i > 0 {
      MetaOffsetStart(items[1..], path, meta, i - 1);
      assert MetaBlocks(items, path, meta)[0] == MetaBlock(items[0], path, meta);
      assert MetaBlocks(items, path, meta)[1..] == MetaBlocks(items[1..], path, meta);
    }
  }

  /** Element `i`'s `k`-th record is gathered at `RecSlot(items, path, i, k)`, with element `i`'s metadata. */
  lemma {:induction false} GatherAt(items: seq<Value>, path: seq<string>, meta: seq<string>, i: nat, k: nat)
    requires |path| > 0 && Gather(items, path, meta).Ok?
    requires i < |items| && k < |Recs(items[i], path)|
    ensures Recs(items[i], path)[k].Obj?
    ensures RecSlot(items, path, i, k) < |Gather(items, path, meta).value.0|
    ensures Gather(items, path, meta).value.0[RecSlot(items, path, i, k)] == FlattenRecord(Recs(items[i], path)[k].fields)
    ensures Gather(items, path, meta).value.1[RecSlot(items, path, i, k)] == MetaRow(items[i], meta)
  {
    GatherOk(items, path, meta);
    assert Pullable(items[i], path);
    GatherChain(items, path, meta);
    RecOffsetStart(items, path, i);
    MetaOffsetStart(items, path, meta, i);
    BlocksAtItem(items, path, meta, i);
    var g := Gather(items, path, meta).value;
    var rb := RecBlock(items[i], path);
    var mb := MetaBlock(items[i], path, meta);
    assert |rb| == |Recs(items[i], path)| && rb[k] == FlattenRecord(Recs(items[i], path)[k].fields);
    ChainAtBlock(g.0, RecBlocks(items, path), RecOffset(items, path, i), i, k, rb);
    ChainAtBlock(g.1, MetaBlocks(items, path, meta), RecOffset(items, path, i), i, k, mb);
  }

  /** Every gathered record is some element's `k`-th record. */
  lemma {:induction false} GatherSlot(items: seq<Value>, path: seq<string>, meta: seq<string>, j: nat) returns (i: nat, k: nat)
    requires |path| > 0 && Gather(items, path, meta).Ok?
    requires j < |Gather(items, path, meta).value.0|
    ensures i < |items| && k < |Recs(items[i], path)| && j == RecSlot(items, path, i, k)
  {
    GatherOk(items, path, meta);
    GatherChain(items, path, meta);
    i, k := ChainSlot(RecBlocks(items, path), j);
    assert Pullable(items[i], path);
    BlocksAtItem(items, path, meta, i);
    RecOffsetStart(items, path, i);
  }

  /** Every gathered metadata row is that of some element. */
  lemma GatherMeta(items: seq<Value>, path: seq<string>, meta: seq<string>)
    requires |path| > 0 && Gather(items, path, meta).Ok?
    ensures var g := Gather(items, path, meta).value;
      forall j :: 0 <= j < |g.1| ==> exists i :: 0 <= i < |items| && g.1[j] == MetaRow(items[i], meta)
  {
    var g := Gather(items, path, meta).value;
    forall j | 0 <= j < |g.1| ensures exists i :: 0 <= i < |items| && g.1[j] == MetaRow(items[i], meta) {
      var i, k := GatherSlot(items, path, meta, j);
      GatherAt(items, path, meta, i, k);
    }
  }

  /** No metadata name is also the prefixed name of a record key. */
  predicate NoClash(items: seq<Value>, path: seq<string>, meta: seq<string>, prefix: string)
    requires |path| > 0
  {
    forall i, k, m {:trigger RecSlot(items, path, i, k), m in meta} ::
      0 <= i < |items| && 0 <= k < |Recs(items[i], path)| && Recs(items[i], path)[k].Obj? && m in meta ==>
        m !in PrefixRow(prefix, ToRow(FlattenRecord(Recs(items[i], path)[k].fields)))
  }

  /** A name is a prefixed record column exactly when some record's prefixed row has it. */
  lemma PrefixedRecordColumn(rs: seq<seq<(string, Value)>>, prefix: string, m: string)
    ensures m in PrefixAll(prefix, RecordColumns(rs)) <==> exists j :: 0 <= j < |rs| && m in PrefixRow(prefix, ToRow(rs[j]))
  {
    var cols := RecordColumns(rs);
    if m in PrefixAll(prefix, cols) {
      var q :| 0 <= q < |cols| && PrefixAll(prefix, cols)[q] == m;
      var j :| 0 <= j < |rs| && cols[q] in Keys(rs[j]);
      assert m == prefix + cols[q];
    }
    if exists j :: 0 <= j < |rs| && m in PrefixRow(prefix, ToRow(rs[j])) {
      var j :| 0 <= j < |rs| && m in PrefixRow(prefix, ToRow(rs[j]));
      var c := m[|prefix|..];
      assert m == prefix + c;
      assert c in cols;
    }
  }

  /** The clash test of `RecordNormalize` fails exactly when some metadata name is a prefixed record key. */
  lemma GatherClash(items: seq<Value>, path: seq<string>, meta: seq<string>, prefix: string)
    requires |path| > 0 && Gather(items, path, meta).Ok?
    ensures (exists m :: m in meta && m in PrefixAll(prefix, RecordColumns(Gather(items, path, meta).value.0)))
      <==> !NoClash(items, path, meta, prefix)
  {
    var g := Gather(items, path, meta).value;
    if exists m :: m in meta && m in PrefixAll(prefix, RecordColumns(g.0)) {
      var m :| m in meta && m in PrefixAll(prefix, RecordColumns(g.0));
      PrefixedRecordColumn(g.0, prefix, m);
      var j :| 0 <= j < |g.0| && m in PrefixRow(prefix, ToRow(g.0[j]));
      var i, k := GatherSlot(items, path, meta, j);
      GatherAt(items, path, meta, i, k);
    }
    if !NoClash(items, path, meta, prefix) {
      var i, k, m :| 0 <= i < |items| && 0 <= k < |Recs(items[i], path)| && Recs(items[i], path)[k].Obj? && m in meta
        && m in PrefixRow(prefix, ToRow(FlattenRecord(Recs(items[i], path)[k].fields)));
      GatherAt(items, path, meta, i, k);
      var j := RecSlot(items, path, i, k);
      PrefixedRecordColumn(g.0, prefix, m);
    }
  }

  /**
   * `json_normalize(data, record_path=path, meta=meta, record_prefix=prefix,
   * errors='ignore')`: the record table with every column prefixed, then one
   * column per metadata name. Repeated metadata names, or a metadata name equal
   * to a prefixed record column, raise.
   */
  function RecordNormalize(items: seq<Value>, path: seq<string>, meta: seq<string>, prefix: string): (r: Result<Table>)
    requires |path| > 0
    ensures r.Ok? ==> WellFormed(r.value)
    ensures r.Ok? ==> forall c :: c in r.value.columns ==> c in meta || StartsWith(c, prefix)
    ensures r.Ok? ==> |meta| <= |r.value.columns| && r.value.columns[|r.value.columns| - |meta|..] == meta
    ensures r.Ok? ==> forall j, m :: 0 <= j < |r.value.rows| && m in meta ==> MetaFrom(r.value.rows[j], m, items, meta)
    ensures !Distinct(meta) ==> r == Err(ValueError)
    ensures r.Ok? <==> Distinct(meta) && AllPullable(items, path) && NoClash(items, path, meta, prefix)
    ensures r.Ok? ==> |r.value.rows| == RecOffset(items, path, |items|)
    ensures r.Ok? ==> forall i, k {:trigger RecSlot(items, path, i, k)} :: 0 <= i < |items| && 0 <= k < |Recs(items[i], path)| ==>
      && Recs(items[i], path)[k].Obj?
      && RecSlot(items, path, i, k) < |r.value.rows|
      && r.value.rows[RecSlot(items, path, i, k)] == RecordRow(items[i], path, meta, prefix, k)
  {
    GatherOk(items, path, meta);
    if !Distinct(meta) then Err(ValueError)
    else
      match Gather(items, path, meta)
      case Err(e) => Err(e)
      case Ok(g) =>
        var recs := AddPrefix(FromRecords(g.0), prefix);
        GatherClash(items, path, meta, prefix);
        if exists m :: m in meta && m in recs.columns then Err(ValueError)
        else
          RecordTableFacts(items, path, meta, prefix);
          Ok(RecordTable(items, path, meta, prefix))
  }

  /** The record table: prefixed record cells, then each record's metadata. */
  function RecordTable(items: seq<Value>, path: seq<string>, meta: seq<string>, prefix: string): Table
    requires |path| > 0 && Gather(items, path, meta).Ok?
  {
    var g := Gather(items, path, meta).value;
    WithMeta(AddPrefix(FromRecords(g.0), prefix), g.1, meta)
  }

  lemma RecordTableFacts(items: seq<Value>, path: seq<string>, meta: seq<string>, prefix: string)
    requires |path| > 0 && Gather(items, path, meta).Ok? && Distinct(meta) && NoClash(items, path, meta, prefix)
    ensures var t := RecordTable(items, path, meta, prefix);
      && WellFormed(t)
      && (forall c :: c in t.columns ==> c in meta || StartsWith(c, prefix))
      && |meta| <= |t.columns| && t.columns[|t.columns| - |meta|..] == meta
      && (forall j, m :: 0 <= j < |t.rows| && m in meta ==> MetaFrom(t.rows[j], m, items, meta))
      && |t.rows| == RecOffset(items, path, |items|)
      && forall i, k {:trigger RecSlot(items, path, i, k)} :: 0 <= i < |items| && 0 <= k < |Recs(items[i], path)| ==>
        && Recs(items[i], path)[k].Obj?
        && RecSlot(items, path, i, k) < |t.rows|
        && t.rows[RecSlot(items, path, i, k)] == RecordRow(items[i], path, meta, prefix, k)
  {
    var g := Gather(items, path, meta).value;
    var recs := AddPrefix(FromRecords(g.0), prefix);
    GatherOk(items, path, meta);
    GatherClash(items, path, meta, prefix);
    PrefixedColumns(FromRecords(g.0).columns, prefix);
    GatherMeta(items, path, meta);
    var t := WithMeta(recs, g.1, meta);
    assert forall j :: 0 <= j < |g.1| ==> forall k :: k in g.1[j] <==> k in meta by {
      forall j | 0 <= j < |g.1| ensures forall k :: k in g.1[j] <==> k in meta {
        var i :| 0 <= i < |items| && g.1[j] == MetaRow(items[i], meta);
      }
    }
    RecordNormalizeFacts(recs, g.1, meta, prefix);
    MetaCellsFromItems(t, g.1, items, meta);
    RecordRows(items, path, meta, prefix);
  }

  /** Each record's row of the record table: its prefixed cells followed by its element's metadata. */
  lemma RecordRows(items: seq<Value>, path: seq<string>, meta: seq<string>, prefix: string)
    requires |path| > 0 && Gather(items, path, meta).Ok?
    ensures var t := RecordTable(items, path, meta, prefix);
      forall i, k {:trigger RecSlot(items, path, i, k)} :: 0 <= i < |items| && 0 <= k < |Recs(items[i], path)| ==>
        && Recs(items[i], path)[k].Obj?
        && RecSlot(items, path, i, k) < |t.rows|
        && t.rows[RecSlot(items, path, i, k)] == RecordRow(items[i], path, meta, prefix, k)
  {
    var g := Gather(items, path, meta).value;
    var recs := AddPrefix(FromRecords(g.0), prefix);
    forall i, k | 0 <= i < |items| && 0 <= k < |Recs(items[i], path)|
      ensures && Recs(items[i], path)[k].Obj?
              && RecSlot(items, path, i, k) < |recs.rows|
              && recs.rows[RecSlot(items, path, i, k)] + g.1[RecSlot(items, path, i, k)] == RecordRow(items[i], path, meta, prefix, k)
    {
      GatherAt(items, path, meta, i, k);
    }
  }

  /** The record table with each row's metadata cells added and the metadata columns appended. */
  function WithMeta(recs: Table, metas: seq<Row>, meta: seq<string>): Table
    requires |metas| == |recs.rows|
  {
    Table(recs.columns + meta, seq(|recs.rows|, j requires 0 <= j < |recs.rows| => recs.rows[j] + metas[j]))
  }

  lemma RecordNormalizeFacts(recs: Table, metas: seq<Row>, meta: seq<string>, prefix: string)
    requires WellFormed(recs)
    requires forall c :: c in recs.columns ==> StartsWith(c, prefix)
    requires |metas| == |recs.rows| && Distinct(meta)
    requires forall j :: 0 <= j < |metas| ==> forall k :: k in metas[j] <==> k in meta
    requires forall m :: m in meta ==> m !in recs.columns
    ensures var t := WithMeta(recs, metas, meta);
      && WellFormed(t)
      && (forall c :: c in t.columns ==> c in meta || StartsWith(c, prefix))
      && forall j, m :: 0 <= j < |t.rows| && m in meta ==> Cell(t.rows[j], m) == Cell(metas[j], m)
  {
    var t := WithMeta(recs, metas, meta);
    DistinctAppend(recs.columns, meta);
    forall j, c | 0 <= j < |t.rows| && c in t.rows[j] ensures c in t.columns {
      assert c in recs.rows[j] || c in metas[j];
    }
  }

  /** The metadata cell `m` of `row` is that of some input element. */
  predicate MetaFrom(row: Row, m: string, items: seq<Value>, meta: seq<string>) {
    exists i :: 0 <= i < |items| && Cell(row, m) == Cell(MetaRow(items[i], meta), m)
  }

  /** Each row's metadata cells are those of the element its records came from. */
  lemma MetaCellsFromItems(t: Table, metas: seq<Row>, items: seq<Value>, meta: seq<string>)
    requires |metas| == |t.rows|
    requires forall j :: 0 <= j < |metas| ==> exists i :: 0 <= i < |items| && metas[j] == MetaRow(items[i], meta)
    requires forall j, m :: 0 <= j < |t.rows| && m in meta ==> Cell(t.rows[j], m) == Cell(metas[j], m)
    ensures forall j, m :: 0 <= j < |t.rows| && m in meta ==> MetaFrom(t.rows[j], m, items, meta)
  {
    forall j, m | 0 <= j < |t.rows| && m in meta ensures MetaFrom(t.rows[j], m, items, meta) {
      var i :| 0 <= i < |items| && metas[j] == MetaRow(items[i], meta);
      assert Cell(t.rows[j], m) == Cell(MetaRow(items[i], meta), m);
    }
  }

  lemma PrefixedColumns(cols: seq<string>, prefix: string)
    ensures forall c :: c in PrefixAll(prefix, cols) ==> StartsWith(c, prefix)
  {
    forall c | c in PrefixAll(prefix, cols) ensures StartsWith(c, prefix) {
      var i :| 0 <= i < |cols| && PrefixAll(prefix, cols)[i] == c;
      assert c == prefix + cols[i];
    }
  }

  lemma DistinctAppend<T>(a: seq<T>, b: seq<T>)
    requires Distinct(a) && Distinct(b)
    requires forall x :: x in b ==> x !in a
    ensures Distinct(a + b)
  {
    forall i, j | 0 <= i < j < |a + b| ensures (a + b)[i] != (a + b)[j] {
      if i < |a| && j >= |a| {
        assert (a + b)[j] == b[j - |a|];
        assert (a + b)[i] in a;
      }
    }
  }
}
