/**
 * The obstruction extractor (`get_obs_df`, `get_obstruction_df`): the
 * obstruction table is cleaned, grouped by obstruction id, each obstruction's
 * ring edges are flattened into one table that grows by prepending, and that
 * table is joined back onto the obstruction table.
 */
module Obstructions {
  import opened Tables
  import opened Flatten
  import opened Schema
  import opened Groups
  import opened Reassemble
  import opened Mounting

  /** `temp_obs_df`: one obstruction's flattened edges under the obstruction prefix, its id in front. */
  function ObstructionEdgeRows(g: Table, key: Value): (r: Result<Table>)
    ensures var flat := FlattenJson(g, ObstructionEdgesCol, [], []);
      && r.Ok?
      && r.value.columns == [ObstructionKey] + PrefixAll(ObstructionEdgePrefix, flat.columns)
      && |r.value.rows| == |flat.rows|
      && forall i :: 0 <= i < |flat.rows| ==>
           && Cell(r.value.rows[i], ObstructionKey) == key
           && forall c :: c in flat.rows[i] ==> Cell(r.value.rows[i], ObstructionEdgePrefix + c) == flat.rows[i][c]
  {
    var flat := FlattenJson(g, ObstructionEdgesCol, [], []);
    PrefixedKeyed(flat, ObstructionEdgePrefix, ObstructionKey, key);
    Insert0(AddPrefix(flat, ObstructionEdgePrefix), ObstructionKey, key)
  }

  /** The edge accumulator after some obstructions, and whether an exception ended the loop. */
  datatype EdgeProgress = EdgeProgress(edges: Table, stopped: bool)

  /** One obstruction's turn of the loop. */
  function ObstructionStep(acc: Table, t: Table, key: Value): EdgeProgress {
    var g := GroupOf(t, ObstructionKey, key);
    match Contribute(acc, g, ObstructionEdgesCol, ObstructionEdgeRows(g, key))
    case Err(_) => EdgeProgress(acc, true)
    case Ok(edges) => EdgeProgress(edges, false)
  }

  /** The loop run over the obstructions `keys`, in order, up to the first exception. */
  function AccumulateEdges(t: Table, keys: seq<Value>): EdgeProgress
    decreases |keys|
  {
    if keys == [] then EdgeProgress(Empty, false)
    else
      var s := AccumulateEdges(t, keys[..|keys| - 1]);
      if s.stopped then s else ObstructionStep(s.edges, t, keys[|keys| - 1])
  }

  /** Rows only come from visited obstructions whose ring edges had no null cell; the id column is first. */
  predicate EdgesSound(edges: Table, t: Table, keys: seq<Value>) {
    FromGuardedGroups(edges, t, ObstructionKey, ObstructionEdgesCol, keys) && KeyFirst(edges, ObstructionKey)
  }

  lemma {:induction false} AccumulateEdgesSound(t: Table, keys: seq<Value>)
    ensures EdgesSound(AccumulateEdges(t, keys).edges, t, keys)
    decreases |keys|
  {
    if keys != [] {
      var front := keys[..|keys| - 1];
      var k := keys[|keys| - 1];
      AccumulateEdgesSound(t, front);
      var s := AccumulateEdges(t, front);
      assert EdgesSound(s.edges, t, keys);
      if !s.stopped {
        var g := GroupOf(t, ObstructionKey, k);
        if Contribute(s.edges, g, ObstructionEdgesCol, ObstructionEdgeRows(g, k)).Ok? {
          ContributeKeeps(s.edges, t, ObstructionKey, ObstructionEdgesCol, keys, k, ObstructionEdgeRows(g, k));
        }
      }
    }
  }

  /** A later obstruction only prepends rows. */
  lemma {:induction false} AccumulateEdgesGrows(t: Table, keys: seq<Value>, n: nat)
    requires n <= |keys|
    ensures GrowsFront(AccumulateEdges(t, keys[..n]).edges, AccumulateEdges(t, keys).edges)
    decreases |keys|
  {
    var p := AccumulateEdges(t, keys[..n]).edges;
    if n == |keys| {
      assert keys[..n] == keys;
      assert p.rows[|p.rows| - |p.rows|..] == p.rows;
    } else {
      var front := keys[..|keys| - 1];
      var k := keys[|keys| - 1];
      assert front[..n] == keys[..n];
      AccumulateEdgesGrows(t, front, n);
      var q := AccumulateEdges(t, front).edges;
      var s := AccumulateEdges(t, keys).edges;
      var g := GroupOf(t, ObstructionKey, k);
      if !AccumulateEdges(t, front).stopped && Contribute(q, g, ObstructionEdgesCol, ObstructionEdgeRows(g, k)).Ok? {
        AccumulateEdgesSound(t, front);
        assert q.rows[|q.rows| - |q.rows|..] == q.rows;
        ContributeKeeps(q, t, ObstructionKey, ObstructionEdgesCol, keys, k, ObstructionEdgeRows(g, k));
      } else {
        assert s == q;
        assert q.rows[|q.rows| - |q.rows|..] == q.rows;
      }
      GrowsFrontTrans(p, q, s);
    }
  }

  lemma {:induction false} AccumulateEdgesStopped(t: Table, keys: seq<Value>, n: nat)
    requires n <= |keys| && AccumulateEdges(t, keys[..n]).stopped
    ensures AccumulateEdges(t, keys) == AccumulateEdges(t, keys[..n])
    decreases |keys|
  {
    if n == |keys| {
      assert keys[..n] == keys;
    } else {
      var front := keys[..|keys| - 1];
      assert front[..n] == keys[..n];
      AccumulateEdgesStopped(t, front, n);
    }
  }

  /** One more obstruction extends the loop by one step, unless it had already stopped. */
  lemma {:induction false} AccumulateEdgesNext(t: Table, keys: seq<Value>, i: nat)
    requires i < |keys|
    ensures var s := AccumulateEdges(t, keys[..i]);
      AccumulateEdges(t, keys[..i + 1]) == if s.stopped then s else ObstructionStep(s.edges, t, keys[i])
  {
    assert keys[..i + 1][..i] == keys[..i];
  }

  /** A step's outcome, read off the contribution it attempted. */
  lemma {:induction false} ObstructionStepOutcome(acc: Table, t: Table, key: Value, g: Table, x: Result<Table>)
    requires g == GroupOf(t, ObstructionKey, key)
    requires x == Contribute(acc, g, ObstructionEdgesCol, ObstructionEdgeRows(g, key))
    ensures ObstructionStep(acc, t, key) == if x.Err? then EdgeProgress(acc, true) else EdgeProgress(x.value, false)
  {
  }

  /**
   * `get_obs_df(df_observation_main)`: an empty table, or one without the
   * obstruction id column (grouping raises and the catch-all returns the
   * accumulator), gives the empty table; otherwise the loop runs until the
   * first exception.
   */
  method ObstructionEdges(t: Table, order: seq<Value>) returns (edges: Table)
    requires IsGroupOrder(t, ObstructionKey, order)
    ensures |t.rows| == 0 || ObstructionKey !in t.columns ==> edges == Empty
    ensures |t.rows| > 0 && ObstructionKey in t.columns ==> edges == AccumulateEdges(t, order).edges
    ensures EdgesSound(edges, t, order)
  {
    edges := Empty;
    if |t.rows| == 0 || ObstructionKey !in t.columns {
      return;
    }
    AccumulateEdgesSound(t, order);
    var i := 0;
    assert order[..0] == [];
    while i < |order|
      invariant 0 <= i <= |order|
      invariant AccumulateEdges(t, order[..i]) == EdgeProgress(edges, false)
    {
      var key := order[i];
      var g := GroupOf(t, ObstructionKey, key);
      var x := Contribute(edges, g, ObstructionEdgesCol, ObstructionEdgeRows(g, key));
      AccumulateEdgesNext(t, order, i);
      ObstructionStepOutcome(edges, t, key, g, x);
      if x.Err? {
        AccumulateEdgesStopped(t, order, i + 1);
        return;
      }
      edges := x.value;
      i := i + 1;
    }
    assert order[..i] == order;
  }

  /** The obstruction table as `get_obstruction_df` hands it on: sentinels nulled, empty edge lists nulled. */
  function PrepareObstructions(t: Table): (r: Result<Table>)
    ensures ObstructionEdgesCol !in t.columns ==> r == Err(KeyError)
    ensures r.Ok? <==> (ObstructionEdgesCol in t.columns &&
                        forall i :: 0 <= i < |t.rows| ==> Len(Desentinel(Cell(t.rows[i], ObstructionEdgesCol))).Ok?)
    ensures r.Ok? ==> forall i :: 0 <= i < |t.rows| ==> Desentinel(Cell(t.rows[i], ObstructionEdgesCol)) != Missing
    ensures r.Ok? ==> r.value.columns == t.columns && |r.value.rows| == |t.rows|
    ensures r.Ok? ==> forall i, c :: 0 <= i < |t.rows| && c != ObstructionEdgesCol ==>
      Cell(r.value.rows[i], c) == Desentinel(Cell(t.rows[i], c))
    ensures r.Ok? ==> forall i :: 0 <= i < |t.rows| ==>
      var d := Desentinel(Cell(t.rows[i], ObstructionEdgesCol));
      Cell(r.value.rows[i], ObstructionEdgesCol) == if Len(d) == Ok(0) then Missing else d
    ensures r.Ok? ==> forall i :: 0 <= i < |t.rows| ==> Cell(r.value.rows[i], ObstructionEdgesCol) != List([])
  {
    var m := ReplaceSentinels(t);
    assert forall i :: 0 <= i < |t.rows| ==> Len(Cell(m.rows[i], ObstructionEdgesCol)).Ok? ==>
      Desentinel(Cell(t.rows[i], ObstructionEdgesCol)) != Missing;
    ClearEmpty(m, ObstructionEdgesCol)
  }

  /** The obstruction table `get_obstruction_df` returns: any failure gives the empty table. */
  function ObstructionDf(t: Table, order: seq<Value>): Table
    requires IsGroupOrder(ReplaceSentinels(t), ObstructionKey, order)
  {
    if |t.rows| == 0 then Empty
    else match PrepareObstructions(t)
      case Err(_) => Empty
      case Ok(m) =>
        var edges := if ObstructionKey in m.columns then AccumulateEdges(m, order).edges else Empty;
        match MergeObstructions(edges, m)
        case Err(_) => Empty
        case Ok(obs) => obs
  }

  /**
   * `get_obstruction_df()` from the normalised obstruction table on: the
   * empty table when there is no obstruction, when cleaning fails or when
   * there is no obstruction id column; the edge accumulator itself when no
   * obstruction produced an edge row; otherwise every obstruction row joined
   * with its edges, the nested column gone.
   */
  method GetObstructionDf(t: Table, order: seq<Value>) returns (obs: Table)
    requires IsGroupOrder(ReplaceSentinels(t), ObstructionKey, order)
    ensures obs == ObstructionDf(t, order)
    ensures |t.rows| == 0 || PrepareObstructions(t).Err? || ObstructionKey !in t.columns ==> obs == Empty
    ensures |t.rows| > 0 && PrepareObstructions(t).Ok? && ObstructionKey in t.columns ==>
      var m := PrepareObstructions(t).value;
      var edges := AccumulateEdges(m, order).edges;
      && (|edges.rows| == 0 ==> obs == edges)
      && (|edges.rows| > 0 ==>
            && ObstructionEdgesCol !in obs.columns
            && |obs.rows| >= |t.rows|
            && KeepsRows(m, obs, Without(t.columns, [ObstructionEdgesCol])))
  {
    obs := Empty;
    if |t.rows| > 0 {
      var prepared := PrepareObstructions(t);
      if prepared.Ok? {
        var m := prepared.value;
        SameKeysSameOrders(ReplaceSentinels(t), m, ObstructionKey, order);
        var edges := ObstructionEdges(m, order);
        var merged := MergeObstructions(edges, m);
        if merged.Ok? {
          obs := merged.value;
        }
      }
    }
    assert obs == ObstructionDf(t, order);
    ObstructionDfShape(t, order);
  }

  /**
   * The cases of the obstruction table: empty when there is no obstruction,
   * when cleaning fails or when there is no obstruction id column; the edge
   * accumulator when it has no row; otherwise the join never fails, and every
   * cleaned obstruction row survives it with the nested column gone.
   */
  lemma ObstructionDfShape(t: Table, order: seq<Value>)
    requires IsGroupOrder(ReplaceSentinels(t), ObstructionKey, order)
    ensures |t.rows| == 0 || PrepareObstructions(t).Err? || ObstructionKey !in t.columns ==>
      ObstructionDf(t, order) == Empty
    ensures |t.rows| > 0 && PrepareObstructions(t).Ok? && ObstructionKey in t.columns ==>
      var m := PrepareObstructions(t).value;
      var edges := AccumulateEdges(m, order).edges;
      var obs := ObstructionDf(t, order);
      && EdgesSound(edges, m, order)
      && (|edges.rows| == 0 ==> obs == edges)
      && (|edges.rows| > 0 ==>
            && MergeObstructions(edges, m).Ok?
            && obs == MergeObstructions(edges, m).value
            && ObstructionEdgesCol !in obs.columns
            && |obs.rows| >= |t.rows|
            && KeepsRows(m, obs, Without(t.columns, [ObstructionEdgesCol])))
  {
    if |t.rows| > 0 && PrepareObstructions(t).Ok? && ObstructionKey in t.columns {
      var m := PrepareObstructions(t).value;
      var edges := AccumulateEdges(m, order).edges;
      SameKeysSameOrders(ReplaceSentinels(t), m, ObstructionKey, order);
      AccumulateEdgesSound(m, order);
      if |edges.rows| > 0 {
        assert ObstructionKey in Shared(m.columns, edges.columns);
      }
    }
  }
}
