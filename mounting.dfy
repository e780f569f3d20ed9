/**
 * The mounting-plane extractor (`get_mounting_dfs`, `get_mounting_planes`):
 * the main table is cleaned and version-checked, then grouped by plane id, and
 * each plane's penetration edges, exterior-ring edges and interior-ring edges
 * are flattened into three tables that grow by prepending.
 */
module Mounting {
  import opened Tables
  import opened Normalize
  import opened Flatten
  import opened Schema
  import opened Groups

  // ---------------------------------------------------------------------------
  // One plane's partial tables

  const PenetrationPath: seq<string> := ["ring", "edges"]
  const PenetrationMeta: seq<string> := ["id", "obstructionId"]
  const InteriorPath: seq<string> := ["edges"]
  const InteriorMeta: seq<string> := ["windingDirection"]

  /** The flattened penetration edges of one plane, before the clean-up. */
  function PenetrationFlat(g: Table): Table {
    FlattenJson(g, PenetrationsCol, PenetrationPath, PenetrationMeta)
  }

  /**
   * `temp_pen_df`: the edges' own id column dropped (raising when it is not
   * there), the penetration's `id` and `obstructionId` renamed into the
   * penetration namespace, and the plane id put in front.
   */
  function PenetrationEdges(g: Table, key: Value): (r: Result<Table>)
    ensures r.Ok? <==> PenetrationEdgeId in PenetrationFlat(g).columns
    ensures r.Ok? ==> |r.value.columns| > 0 && r.value.columns[0] == PlaneKey
    ensures r.Ok? ==> forall c :: c in r.value.columns <==>
      || c in [PlaneKey, PenetrationEdgeId, PenetrationEdgeObstructionId]
      || (c in PenetrationFlat(g).columns && c !in PenetrationRenamed)
    ensures r.Ok? ==> "id" !in r.value.columns && "obstructionId" !in r.value.columns
    ensures r.Ok? ==> |r.value.rows| == |PenetrationFlat(g).rows|
    ensures r.Ok? ==> forall i :: 0 <= i < |r.value.rows| ==>
      && Cell(r.value.rows[i], PlaneKey) == key
      && Cell(r.value.rows[i], PenetrationEdgeId) == Cell(PenetrationFlat(g).rows[i], "id")
      && Cell(r.value.rows[i], PenetrationEdgeObstructionId) == Cell(PenetrationFlat(g).rows[i], "obstructionId")
    ensures r.Ok? ==> forall i, c :: 0 <= i < |r.value.rows| && c != PlaneKey && c !in PenetrationRenamed ==>
      Cell(r.value.rows[i], c) == Cell(PenetrationFlat(g).rows[i], c)
  {
    var flat := PenetrationFlat(g);
    var dropped :- Drop(flat, [PenetrationEdgeId]);
    assert PenetrationEdgeId in [PenetrationEdgeId];
    var named := Rename(Rename(dropped, "id", PenetrationEdgeId), "obstructionId", PenetrationEdgeObstructionId);
    PenetrationFlatShape(g);
    PenetrationEdgesFacts(flat, dropped, named);
    PenetrationFrame(flat, dropped, named);
    var keyed := Insert0(named, PlaneKey, key);
    PenetrationKeyed(flat, named, key, keyed.value);
    keyed
  }

  /** The labels the penetration clean-up removes or takes over. */
  const PenetrationRenamed: seq<string> := ["id", "obstructionId", PenetrationEdgeId, PenetrationEdgeObstructionId]

  /** The renames leave every other column and cell of the flattened penetrations as it was. */
  lemma PenetrationFrame(flat: Table, dropped: Table, named: Table)
    requires "id" in flat.columns && "obstructionId" in flat.columns
    requires Drop(flat, [PenetrationEdgeId]) == Ok(dropped)
    requires named == Rename(Rename(dropped, "id", PenetrationEdgeId), "obstructionId", PenetrationEdgeObstructionId)
    ensures forall c :: c in named.columns <==>
      || c == PenetrationEdgeId || c == PenetrationEdgeObstructionId
      || (c in flat.columns && c !in PenetrationRenamed)
    ensures forall i, c :: 0 <= i < |flat.rows| && c !in PenetrationRenamed ==>
      Cell(named.rows[i], c) == Cell(flat.rows[i], c)
  {
    DropRenameRenameFrame(flat, dropped, named, "id", "obstructionId", PenetrationEdgeId, PenetrationEdgeObstructionId);
  }

  /** Dropping `a2`, then renaming `a` to `a2` and `b` to `b2`, touches no other column or cell. */
  lemma DropRenameRenameFrame(flat: Table, dropped: Table, named: Table, a: string, b: string, a2: string, b2: string)
    requires a != b && a != a2 && a != b2 && b != a2 && b != b2 && a2 != b2
    requires a in flat.columns && b in flat.columns
    requires Drop(flat, [a2]) == Ok(dropped)
    requires named == Rename(Rename(dropped, a, a2), b, b2)
    ensures forall c :: c in named.columns <==> c == a2 || c == b2 || (c in flat.columns && c !in [a, b, a2, b2])
    ensures forall i, c :: 0 <= i < |flat.rows| && c !in [a, b, a2, b2] ==> Cell(named.rows[i], c) == Cell(flat.rows[i], c)
  {
    DropRenameRenameColumns(flat, dropped, named, a, b, a2, b2);
    DropRenameRenameCells(flat, dropped, named, a, b, a2, b2);
  }

  lemma DropRenameRenameColumns(flat: Table, dropped: Table, named: Table, a: string, b: string, a2: string, b2: string)
    requires a != b && a != a2 && a != b2 && b != a2 && b != b2 && a2 != b2
    requires a in flat.columns && b in flat.columns
    requires Drop(flat, [a2]) == Ok(dropped)
    requires named == Rename(Rename(dropped, a, a2), b, b2)
    ensures forall c :: c in named.columns <==> c == a2 || c == b2 || (c in flat.columns && c !in [a, b, a2, b2])
  {
    var once := Rename(dropped, a, a2);
    DropColumn(flat, a2, a);
    DropColumn(flat, a2, b);
    RenameColumn(dropped, a, a2, b);
    forall c ensures c in named.columns <==> c == a2 || c == b2 || (c in flat.columns && c !in [a, b, a2, b2]) {
      DropColumn(flat, a2, c);
      RenameColumn(dropped, a, a2, c);
      RenameColumn(once, b, b2, c);
    }
  }

  lemma DropRenameRenameCells(flat: Table, dropped: Table, named: Table, a: string, b: string, a2: string, b2: string)
    requires a != b && a != a2 && a != b2 && b != a2 && b != b2 && a2 != b2
    requires Drop(flat, [a2]) == Ok(dropped)
    requires named == Rename(Rename(dropped, a, a2), b, b2)
    ensures forall i, c :: 0 <= i < |flat.rows| && c !in [a, b, a2, b2] ==> Cell(named.rows[i], c) == Cell(flat.rows[i], c)
  {
    var once := Rename(dropped, a, a2);
    forall i, c | 0 <= i < |flat.rows| && c !in [a, b, a2, b2]
      ensures Cell(named.rows[i], c) == Cell(flat.rows[i], c)
    {
      assert c != a && c != b && c != a2 && c != b2;
      DropCell(flat, a2, i, c);
      RenameCell(dropped, a, a2, i, c);
      RenameCell(once, b, b2, i, c);
    }
  }

  /** Dropping one column keeps exactly the others. */
  lemma DropColumn(t: Table, x: string, c: string)
    requires Drop(t, [x]).Ok?
    ensures c in Drop(t, [x]).value.columns <==> c in t.columns && c != x
  {
    assert Drop(t, [x]).value.columns == Without(t.columns, [x]);
  }

  /** Dropping one column keeps every other cell. */
  lemma DropCell(t: Table, x: string, i: int, c: string)
    requires Drop(t, [x]).Ok? && 0 <= i < |t.rows| && c != x
    ensures |Drop(t, [x]).value.rows| == |t.rows| && Cell(Drop(t, [x]).value.rows[i], c) == Cell(t.rows[i], c)
  {
  }

  /** A rename of a present column adds its new label and removes its old one. */
  lemma RenameColumn(t: Table, src: string, dst: string, c: string)
    requires src in t.columns && src != dst
    ensures c in Rename(t, src, dst).columns <==> c == dst || (c in t.columns && c != src)
  {
  }

  /** A rename keeps every cell under any other label. */
  lemma RenameCell(t: Table, src: string, dst: string, i: int, c: string)
    requires src != dst && 0 <= i < |t.rows| && c != src && c != dst
    ensures |Rename(t, src, dst).rows| == |t.rows| && Cell(Rename(t, src, dst).rows[i], c) == Cell(t.rows[i], c)
  {
  }

  /** The flattened penetrations have no plane-id column, and carry the penetration's own ids unless empty. */
  lemma PenetrationFlatShape(g: Table)
    ensures PlaneKey !in PenetrationFlat(g).columns
    ensures PenetrationFlat(g) != Empty ==> "id" in PenetrationFlat(g).columns && "obstructionId" in PenetrationFlat(g).columns
  {
    PenetrationFlatNoPlaneKey(g);
    PenetrationFlatIds(g);
  }

  lemma PenetrationFlatNoPlaneKey(g: Table)
    ensures PlaneKey !in PenetrationFlat(g).columns
  {
    assert |RecordPrefix(PenetrationsCol, PenetrationPath)| > |PlaneKey|;
    FlattenJsonLacks(g, PenetrationsCol, PenetrationPath, PenetrationMeta, PlaneKey);
  }

  lemma PenetrationFlatIds(g: Table)
    ensures PenetrationFlat(g) != Empty ==> "id" in PenetrationFlat(g).columns && "obstructionId" in PenetrationFlat(g).columns
  {
    var flat := PenetrationFlat(g);
    if flat != Empty {
      assert flat.columns[|flat.columns| - 2] == "id";
      assert flat.columns[|flat.columns| - 1] == "obstructionId";
    }
  }

  lemma PenetrationEdgesFacts(flat: Table, dropped: Table, named: Table)
    requires PlaneKey !in flat.columns
    requires "id" in flat.columns && "obstructionId" in flat.columns
    requires PenetrationEdgeId in flat.columns
    requires Drop(flat, [PenetrationEdgeId]) == Ok(dropped)
    requires named == Rename(Rename(dropped, "id", PenetrationEdgeId), "obstructionId", PenetrationEdgeObstructionId)
    ensures PlaneKey !in named.columns
    ensures |named.rows| == |flat.rows|
    ensures forall i :: 0 <= i < |flat.rows| ==>
      && Cell(named.rows[i], PenetrationEdgeId) == Cell(flat.rows[i], "id")
      && Cell(named.rows[i], PenetrationEdgeObstructionId) == Cell(flat.rows[i], "obstructionId")
  {
    var once := Rename(dropped, "id", PenetrationEdgeId);
    assert "obstructionId" in once.columns;
  }

  lemma PenetrationKeyed(flat: Table, named: Table, key: Value, keyed: Table)
    requires |named.rows| == |flat.rows|
    requires forall i :: 0 <= i < |flat.rows| ==>
      && Cell(named.rows[i], PenetrationEdgeId) == Cell(flat.rows[i], "id")
      && Cell(named.rows[i], PenetrationEdgeObstructionId) == Cell(flat.rows[i], "obstructionId")
    requires forall i, c :: 0 <= i < |flat.rows| && c !in PenetrationRenamed ==>
      Cell(named.rows[i], c) == Cell(flat.rows[i], c)
    requires Insert0(named, PlaneKey, key) == Ok(keyed)
    ensures |keyed.columns| > 0 && keyed.columns[0] == PlaneKey
    ensures |keyed.rows| == |flat.rows|
    ensures forall i :: 0 <= i < |keyed.rows| ==>
      && Cell(keyed.rows[i], PlaneKey) == key
      && Cell(keyed.rows[i], PenetrationEdgeId) == Cell(flat.rows[i], "id")
      && Cell(keyed.rows[i], PenetrationEdgeObstructionId) == Cell(flat.rows[i], "obstructionId")
    ensures forall i, c :: 0 <= i < |keyed.rows| && c != PlaneKey && c !in PenetrationRenamed ==>
      Cell(keyed.rows[i], c) == Cell(flat.rows[i], c)
  {
    forall i | 0 <= i < |keyed.rows|
      ensures Cell(keyed.rows[i], PlaneKey) == key
      ensures Cell(keyed.rows[i], PenetrationEdgeId) == Cell(flat.rows[i], "id")
      ensures Cell(keyed.rows[i], PenetrationEdgeObstructionId) == Cell(flat.rows[i], "obstructionId")
      ensures forall c :: c != PlaneKey && c !in PenetrationRenamed ==> Cell(keyed.rows[i], c) == Cell(flat.rows[i], c)
    {
      assert keyed.rows[i] == named.rows[i][PlaneKey := key];
    }
  }

  /** `temp_exter_df`: the flattened edges under the exterior-ring prefix, the plane id in front. */
  function ExteriorEdges(g: Table, key: Value): (r: Result<Table>)
    ensures var flat := FlattenJson(g, ExteriorEdgesCol, [], []);
      && r.Ok?
      && r.value.columns == [PlaneKey] + PrefixAll(ExteriorEdgePrefix, flat.columns)
      && |r.value.rows| == |flat.rows|
      && forall i :: 0 <= i < |flat.rows| ==>
           && Cell(r.value.rows[i], PlaneKey) == key
           && forall c :: c in flat.rows[i] ==> Cell(r.value.rows[i], ExteriorEdgePrefix + c) == flat.rows[i][c]
  {
    var flat := FlattenJson(g, ExteriorEdgesCol, [], []);
    PrefixedKeyed(flat, ExteriorEdgePrefix, PlaneKey, key);
    Insert0(AddPrefix(flat, ExteriorEdgePrefix), PlaneKey, key)
  }

  /** The flattened interior-ring edges of one plane, each with its ring's winding direction. */
  function InteriorFlat(g: Table): Table {
    FlattenJson(g, InteriorRingsCol, InteriorPath, InteriorMeta)
  }

  /** `temp_inter_df`: the plane id in front, the winding direction renamed into the interior-ring namespace. */
  function InteriorEdges(g: Table, key: Value): (r: Result<Table>)
    ensures r.Ok?
    ensures |r.value.columns| > 0 && r.value.columns[0] == PlaneKey
    ensures "windingDirection" !in r.value.columns
    ensures "windingDirection" in InteriorFlat(g).columns ==> forall c :: c in r.value.columns <==>
      c == PlaneKey || c == InteriorWinding || (c in InteriorFlat(g).columns && c != "windingDirection")
    ensures "windingDirection" !in InteriorFlat(g).columns ==> r.value == Table([PlaneKey], [])
    ensures |r.value.rows| == |InteriorFlat(g).rows|
    ensures forall i :: 0 <= i < |r.value.rows| ==>
      && Cell(r.value.rows[i], PlaneKey) == key
      && Cell(r.value.rows[i], InteriorWinding) == Cell(InteriorFlat(g).rows[i], "windingDirection")
    ensures forall i, c :: 0 <= i < |r.value.rows| && c !in [PlaneKey, InteriorWinding, "windingDirection"] ==>
      Cell(r.value.rows[i], c) == Cell(InteriorFlat(g).rows[i], c)
  {
    var flat := InteriorFlat(g);
    InteriorFlatShape(g);
    var keyed := Insert0(flat, PlaneKey, key).value;
    var named := Rename(keyed, "windingDirection", InteriorWinding);
    InteriorEdgesFacts(flat, key, keyed, named);
    Ok(named)
  }

  /** The flattened interior rings have no plane-id column, and carry the winding direction unless empty. */
  lemma InteriorFlatShape(g: Table)
    ensures PlaneKey !in InteriorFlat(g).columns
    ensures InteriorFlat(g) != Empty ==> "windingDirection" in InteriorFlat(g).columns
  {
    var flat := InteriorFlat(g);
    assert |RecordPrefix(InteriorRingsCol, InteriorPath)| > |PlaneKey|;
    if flat != Empty {
      assert flat.columns[|flat.columns| - 1] == "windingDirection";
    }
  }

  lemma InteriorEdgesFacts(flat: Table, key: Value, keyed: Table, named: Table)
    requires PlaneKey !in flat.columns
    requires flat != Empty ==> "windingDirection" in flat.columns
    requires Insert0(flat, PlaneKey, key) == Ok(keyed)
    requires named == Rename(keyed, "windingDirection", InteriorWinding)
    ensures |named.columns| > 0 && named.columns[0] == PlaneKey
    ensures |named.rows| == |flat.rows|
    ensures "windingDirection" !in named.columns
    ensures "windingDirection" in flat.columns ==> forall c :: c in named.columns <==>
      c == PlaneKey || c == InteriorWinding || (c in flat.columns && c != "windingDirection")
    ensures "windingDirection" !in flat.columns ==> named == Table([PlaneKey], [])
    ensures forall i :: 0 <= i < |named.rows| ==>
      && Cell(named.rows[i], PlaneKey) == key
      && Cell(named.rows[i], InteriorWinding) == Cell(flat.rows[i], "windingDirection")
    ensures forall i, c :: 0 <= i < |named.rows| && c !in [PlaneKey, InteriorWinding, "windingDirection"] ==>
      Cell(named.rows[i], c) == Cell(flat.rows[i], c)
  {
    assert keyed.columns[0] == PlaneKey;
    if "windingDirection" !in flat.columns {
      assert flat == Empty;
    }
    forall i | 0 <= i < |named.rows|
      ensures Cell(named.rows[i], PlaneKey) == key
      ensures Cell(named.rows[i], InteriorWinding) == Cell(flat.rows[i], "windingDirection")
      ensures forall c :: c !in [PlaneKey, InteriorWinding, "windingDirection"] ==> Cell(named.rows[i], c) == Cell(flat.rows[i], c)
    {
      assert keyed.rows[i] == flat.rows[i][PlaneKey := key];
    }
  }

  // ---------------------------------------------------------------------------
  // The loop over planes

  /** The three tables `get_mounting_dfs` returns: penetration, interior-ring and exterior-ring edges. */
  datatype Parts = Parts(pen: Table, inter: Table, exter: Table)

  /** The accumulators after some planes, and whether an exception ended the loop. */
  datatype Progress = Progress(parts: Parts, stopped: bool)

  const NoParts: Parts := Parts(Empty, Empty, Empty)

  /**
   * One plane's turn of the loop: penetrations, then the exterior ring, then
   * the interior rings; an exception stops the loop and keeps whatever the
   * accumulators already hold, including this plane's earlier additions.
   */
  function PlaneStep(acc: Parts, t: Table, key: Value): Progress {
    var g := GroupOf(t, PlaneKey, key);
    match Contribute(acc.pen, g, PenetrationsCol, PenetrationEdges(g, key))
    case Err(_) => Progress(acc, true)
    case Ok(pen) =>
      match Contribute(acc.exter, g, ExteriorEdgesCol, ExteriorEdges(g, key))
      case Err(_) => Progress(acc.(pen := pen), true)
      case Ok(exter) =>
        match Contribute(acc.inter, g, InteriorRingsCol, InteriorEdges(g, key))
        case Err(_) => Progress(Parts(pen, acc.inter, exter), true)
        case Ok(inter) => Progress(Parts(pen, inter, exter), false)
  }

  /** The loop run over the planes `keys`, in order, up to the first exception. */
  function Accumulate(t: Table, keys: seq<Value>): Progress
    decreases |keys|
  {
    if keys == [] then Progress(NoParts, false)
    else
      var s := Accumulate(t, keys[..|keys| - 1]);
      if s.stopped then s else PlaneStep(s.parts, t, keys[|keys| - 1])
  }

  /**
   * What the accumulators promise about the planes `keys` of `t`: each table
   * is empty or has the plane id as its first column, and each of its rows
   * carries the id of a plane in `keys` whose nested column had no null cell.
   */
  predicate Sound(p: Parts, t: Table, keys: seq<Value>) {
    && FromGuardedGroups(p.pen, t, PlaneKey, PenetrationsCol, keys) && KeyFirst(p.pen, PlaneKey)
    && FromGuardedGroups(p.exter, t, PlaneKey, ExteriorEdgesCol, keys) && KeyFirst(p.exter, PlaneKey)
    && FromGuardedGroups(p.inter, t, PlaneKey, InteriorRingsCol, keys) && KeyFirst(p.inter, PlaneKey)
  }

  /** `b` extends each of `a`'s tables at the front only. */
  predicate Extends(a: Parts, b: Parts) {
    GrowsFront(a.pen, b.pen) && GrowsFront(a.exter, b.exter) && GrowsFront(a.inter, b.inter)
  }

  lemma PlaneStepSound(acc: Parts, t: Table, keys: seq<Value>, key: Value)
    requires Sound(acc, t, keys) && key in keys
    ensures Sound(PlaneStep(acc, t, key).parts, t, keys)
    ensures Extends(acc, PlaneStep(acc, t, key).parts)
  {
    var g := GroupOf(t, PlaneKey, key);
    assert GrowsFront(acc.pen, acc.pen) && GrowsFront(acc.exter, acc.exter) && GrowsFront(acc.inter, acc.inter);
    var pp := Contribute(acc.pen, g, PenetrationsCol, PenetrationEdges(g, key));
    if pp.Ok? {
      ContributeKeeps(acc.pen, t, PlaneKey, PenetrationsCol, keys, key, PenetrationEdges(g, key));
      var xp := Contribute(acc.exter, g, ExteriorEdgesCol, ExteriorEdges(g, key));
      if xp.Ok? {
        ContributeKeeps(acc.exter, t, PlaneKey, ExteriorEdgesCol, keys, key, ExteriorEdges(g, key));
        var ip := Contribute(acc.inter, g, InteriorRingsCol, InteriorEdges(g, key));
        if ip.Ok? {
          ContributeKeeps(acc.inter, t, PlaneKey, InteriorRingsCol, keys, key, InteriorEdges(g, key));
        }
      }
    }
  }

  lemma SoundWiden(p: Parts, t: Table, keys: seq<Value>, all: seq<Value>)
    requires Sound(p, t, keys)
    requires forall k :: k in keys ==> k in all
    ensures Sound(p, t, all)
  {
  }

  /** The accumulators only ever hold rows of guarded planes already visited, plane id first. */
  lemma {:induction false} AccumulateSound(t: Table, keys: seq<Value>)
    ensures Sound(Accumulate(t, keys).parts, t, keys)
    decreases |keys|
  {
    if keys != [] {
      var front := keys[..|keys| - 1];
      AccumulateSound(t, front);
      SoundWiden(Accumulate(t, front).parts, t, front, keys);
      if !Accumulate(t, front).stopped {
        PlaneStepSound(Accumulate(t, front).parts, t, keys, keys[|keys| - 1]);
      }
    }
  }

  /** A later plane never removes or reorders an earlier plane's rows: it only prepends. */
  lemma {:induction false} AccumulateExtends(t: Table, keys: seq<Value>, n: nat)
    requires n <= |keys|
    ensures Extends(Accumulate(t, keys[..n]).parts, Accumulate(t, keys).parts)
    decreases |keys|
  {
    var p := Accumulate(t, keys[..n]).parts;
    if n == |keys| {
      assert keys[..n] == keys;
      assert GrowsFront(p.pen, p.pen) && GrowsFront(p.exter, p.exter) && GrowsFront(p.inter, p.inter);
    } else {
      var front := keys[..|keys| - 1];
      assert front[..n] == keys[..n];
      AccumulateExtends(t, front, n);
      var q := Accumulate(t, front).parts;
      var s := Accumulate(t, keys).parts;
      AccumulateSound(t, front);
      if !Accumulate(t, front).stopped {
        SoundWiden(q, t, front, keys);
        PlaneStepSound(q, t, keys, keys[|keys| - 1]);
      } else {
        assert GrowsFront(q.pen, s.pen) && GrowsFront(q.exter, s.exter) && GrowsFront(q.inter, s.inter);
      }
      GrowsFrontTrans(p.pen, q.pen, s.pen);
      GrowsFrontTrans(p.exter, q.exter, s.exter);
      GrowsFrontTrans(p.inter, q.inter, s.inter);
    }
  }

  /** Once an exception has ended the loop, later planes change nothing. */
  lemma {:induction false} AccumulateStopped(t: Table, keys: seq<Value>, n: nat)
    requires n <= |keys| && Accumulate(t, keys[..n]).stopped
    ensures Accumulate(t, keys) == Accumulate(t, keys[..n])
    decreases |keys|
  {
    if n == |keys| {
      assert keys[..n] == keys;
    } else {
      var front := keys[..|keys| - 1];
      assert front[..n] == keys[..n];
      AccumulateStopped(t, front, n);
    }
  }

  /**
   * `get_mounting_dfs(df_main)`: grouping by plane id raises when the column is
   * absent; otherwise the planes are visited in `order`, and an exception in
   * the loop is caught and ends it.
   */
  method MountingDfs(t: Table, order: seq<Value>) returns (r: Result<Parts>)
    requires IsGroupOrder(t, PlaneKey, order)
    ensures PlaneKey !in t.columns ==> r == Err(KeyError)
    ensures PlaneKey in t.columns ==> r == Ok(Accumulate(t, order).parts)
    ensures r.Ok? ==> Sound(r.value, t, order)
  {
    if PlaneKey !in t.columns {
      return Err(KeyError);
    }
    AccumulateSound(t, order);
    var pen, inter, exter := Empty, Empty, Empty;
    var i := 0;
    assert order[..0] == [];
    while i < |order|
      invariant 0 <= i <= |order|
      invariant Accumulate(t, order[..i]) == Progress(Parts(pen, inter, exter), false)
    {
      var key := order[i];
      var g := GroupOf(t, PlaneKey, key);
      assert order[..i + 1][..i] == order[..i];
      var p := Contribute(pen, g, PenetrationsCol, PenetrationEdges(g, key));
      if p.Err? {
        AccumulateStopped(t, order, i + 1);
        return Ok(Parts(pen, inter, exter));
      }
      pen := p.value;
      var x := Contribute(exter, g, ExteriorEdgesCol, ExteriorEdges(g, key));
      if x.Err? {
        AccumulateStopped(t, order, i + 1);
        return Ok(Parts(pen, inter, exter));
      }
      exter := x.value;
      var n := Contribute(inter, g, InteriorRingsCol, InteriorEdges(g, key));
      if n.Err? {
        AccumulateStopped(t, order, i + 1);
        return Ok(Parts(pen, inter, exter));
      }
      inter := n.value;
      i := i + 1;
    }
    assert order[..i] == order;
    return Ok(Parts(pen, inter, exter));
  }

  // ---------------------------------------------------------------------------
  // Cleaning and checking the main table

  /** The schema versions the extractor supports. */
  predicate Supported(v: Value) {
    v == Str("v1") || v == Str("v2") || v == Str("v3")
  }

  /**
   * `df_main['version'].unique() not in ['v1', 'v2', 'v3']`: the absent column
   * raises KeyError; no values, or one value outside the list, raises the
   * unsupported-version error; several values make the comparison ambiguous
   * and raise ValueError.
   */
  function CheckVersion(t: Table): (r: Result<Value>)
    ensures VersionCol !in t.columns ==> r == Err(KeyError)
    ensures r.Ok? <==>
      (&& VersionCol in t.columns && |t.rows| > 0 && Supported(Cell(t.rows[0], VersionCol))
       && forall i :: 0 <= i < |t.rows| ==> Cell(t.rows[i], VersionCol) == Cell(t.rows[0], VersionCol))
    ensures r.Ok? ==> r.value == Cell(t.rows[0], VersionCol)
  {
    if VersionCol !in t.columns then Err(KeyError)
    else
      var col := Column(t, VersionCol);
      var u := Unique(col);
      UniqueSingleton(col);
      if |u| == 1 then
        assert u[0] in col && col[0] in u;
        if Supported(u[0]) then Ok(u[0]) else Err(UnsupportedVersion)
      else if |u| == 0 then Err(UnsupportedVersion)
      else Err(ValueError)
  }

  /**
   * `df[col] = df[col].apply(lambda y: np.nan if len(y) == 0 else y)`: a cell
   * of length zero becomes null; a cell without a length (a number or a null)
   * raises TypeError; an absent column raises KeyError.
   */
  function ClearEmpty(t: Table, col: string): (r: Result<Table>)
    ensures col !in t.columns ==> r == Err(KeyError)
    ensures r.Ok? <==> col in t.columns && forall i :: 0 <= i < |t.rows| ==> Len(Cell(t.rows[i], col)).Ok?
    ensures r.Ok? ==> r.value.columns == t.columns && |r.value.rows| == |t.rows|
    ensures r.Ok? ==> forall i, c :: 0 <= i < |t.rows| ==>
      Cell(r.value.rows[i], c) == if c == col && Len(Cell(t.rows[i], col)) == Ok(0) then Missing else Cell(t.rows[i], c)
    ensures r.Ok? && WellFormed(t) ==> WellFormed(r.value)
  {
    if col !in t.columns then Err(KeyError)
    else if exists i :: 0 <= i < |t.rows| && Len(Cell(t.rows[i], col)).Err? then Err(TypeError)
    else Ok(Table(t.columns, seq(|t.rows|, i requires 0 <= i < |t.rows| =>
      if Len(Cell(t.rows[i], col)) == Ok(0) then t.rows[i][col := Missing] else t.rows[i])))
  }

  /**
   * The main table as `get_mounting_planes` hands it to `get_mounting_dfs`:
   * sentinels nulled, the version checked, and (only when every penetration
   * cell is non-null) empty penetration lists nulled.
   */
  function PrepareMain(t: Table): (r: Result<Table>)
    ensures VersionCol !in t.columns ==> r == Err(KeyError)
    ensures r.Ok? <==>
      && VersionCol in t.columns && |t.rows| > 0 && Supported(Cell(t.rows[0], VersionCol))
      && (forall i :: 0 <= i < |t.rows| ==> Cell(t.rows[i], VersionCol) == Cell(t.rows[0], VersionCol))
      && PenetrationsCol in t.columns
      && ((forall i :: 0 <= i < |t.rows| ==> Desentinel(Cell(t.rows[i], PenetrationsCol)) != Missing) ==>
            forall i :: 0 <= i < |t.rows| ==> Len(Cell(t.rows[i], PenetrationsCol)).Ok?)
    ensures r.Ok? ==> |t.rows| > 0 && forall i :: 0 <= i < |t.rows| ==>
      Supported(Cell(t.rows[i], VersionCol)) && Cell(t.rows[i], VersionCol) == Cell(t.rows[0], VersionCol)
    ensures r.Ok? ==> r.value.columns == t.columns && |r.value.rows| == |t.rows|
    ensures r.Ok? ==> forall i, c :: 0 <= i < |t.rows| && c != PenetrationsCol ==>
      Cell(r.value.rows[i], c) == Desentinel(Cell(t.rows[i], c))
    ensures r.Ok? ==> forall i, c :: 0 <= i < |t.rows| && IsSentinel(Cell(r.value.rows[i], c)) ==>
      Cell(r.value.rows[i], c) == Missing
    ensures r.Ok? ==> forall i :: 0 <= i < |t.rows| ==>
      var d := Desentinel(Cell(t.rows[i], PenetrationsCol));
      Cell(r.value.rows[i], PenetrationsCol) == if AllPresent(ReplaceSentinels(t), PenetrationsCol) && Len(d) == Ok(0) then Missing else d
    ensures r.Ok? && AllPresent(ReplaceSentinels(t), PenetrationsCol) ==>
      forall i :: 0 <= i < |t.rows| ==> Cell(r.value.rows[i], PenetrationsCol) != List([])
    ensures r.Ok? && WellFormed(t) ==> WellFormed(r.value)
  {
    var m := ReplaceSentinels(t);
    VersionUnderSentinels(t);
    var _ :- CheckVersion(m);
    if PenetrationsCol !in m.columns then Err(KeyError)
    else if AllPresent(m, PenetrationsCol) then ClearEmpty(m, PenetrationsCol)
    else Ok(m)
  }

  /** Nulling sentinels changes no supported version cell, and makes no other cell one. */
  lemma VersionUnderSentinels(t: Table)
    ensures CheckVersion(ReplaceSentinels(t)).Ok? <==>
      && VersionCol in t.columns && |t.rows| > 0 && Supported(Cell(t.rows[0], VersionCol))
      && (forall i :: 0 <= i < |t.rows| ==> Cell(t.rows[i], VersionCol) == Cell(t.rows[0], VersionCol))
  {
    var m := ReplaceSentinels(t);
    if CheckVersion(m).Ok? {
      forall i | 0 <= i < |t.rows| ensures Cell(t.rows[i], VersionCol) == Cell(t.rows[0], VersionCol) {
        assert Cell(m.rows[i], VersionCol) == Desentinel(Cell(t.rows[i], VersionCol));
        assert Cell(m.rows[0], VersionCol) == Desentinel(Cell(t.rows[0], VersionCol));
      }
    }
    if VersionCol in t.columns && |t.rows| > 0 && Supported(Cell(t.rows[0], VersionCol)) &&
       (forall i :: 0 <= i < |t.rows| ==> Cell(t.rows[i], VersionCol) == Cell(t.rows[0], VersionCol)) {
      forall i | 0 <= i < |t.rows| ensures Cell(m.rows[i], VersionCol) == Cell(m.rows[0], VersionCol) {
        assert Cell(m.rows[i], VersionCol) == Desentinel(Cell(t.rows[i], VersionCol));
      }
    }
  }

  /** What `get_mounting_planes` returns: the three edge tables and the cleaned main table. */
  datatype MountingPlanes = MountingPlanes(pen: Table, inter: Table, exter: Table, main: Table)

  /**
   * `get_mounting_planes(data)` from the normalised main table on: any failure
   * leaves the returned names unbound, so the call fails.
   */
  method GetMountingPlanes(t: Table, order: seq<Value>) returns (r: Result<MountingPlanes>)
    requires IsGroupOrder(ReplaceSentinels(t), PlaneKey, order)
    ensures r.Ok? <==> PrepareMain(t).Ok? && PlaneKey in t.columns
    ensures r.Ok? ==> r.value.main == PrepareMain(t).value
    ensures r.Ok? ==> Parts(r.value.pen, r.value.inter, r.value.exter) == Accumulate(r.value.main, order).parts
    ensures r.Ok? ==> Sound(Parts(r.value.pen, r.value.inter, r.value.exter), r.value.main, order)
  {
    var m :- PrepareMain(t);
    SameKeysSameOrders(ReplaceSentinels(t), m, PlaneKey, order);
    var parts :- MountingDfs(m, order);
    return Ok(MountingPlanes(parts.pen, parts.inter, parts.exter, m));
  }
}
