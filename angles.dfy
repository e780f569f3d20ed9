/**
 * The angle normaliser (`angel_fix`, `angle_precession`): pitch angles are
 * clamped into [30, 45] and azimuth angles into [90, 270], row by row, on a copy
 * of the mounting-plane table.
 */
module Angles {
  import opened Tables

  const PitchCol := "siteModel_buildings_mountingPlanes_pitchAngle"
  const AzimuthCol := "siteModel_buildings_mountingPlanes_azimuthAngle"

  /** The allowed range for a column: the pitch range for the pitch column, the azimuth range for any other name. */
  function Low(angleName: string): real { if angleName == PitchCol then 30.0 else 90.0 }
  function High(angleName: string): real { if angleName == PitchCol then 45.0 else 270.0 }

  /** `angel_fix(val, angle_name)`: the nearest value of the column's range. */
  function AngleFix(val: real, angleName: string): (r: real)
    ensures Low(angleName) <= r <= High(angleName)
    ensures Low(angleName) <= val <= High(angleName) ==> r == val
    ensures val > High(angleName) ==> r == High(angleName)
    ensures val < Low(angleName) ==> r == Low(angleName)
  {
    if angleName == PitchCol then
      if val > 45.0 then 45.0 else if val < 30.0 then 30.0 else val
    else
      if val > 270.0 then 270.0 else if val < 90.0 then 90.0 else val
  }

  /** A cell after `astype(float)` and the clamp: a NaN compares false both ways and stays NaN. */
  function FixCell(v: Value, col: string): (r: Value)
    ensures v.Num? ==> r == Num(AngleFix(v.x, col))
    ensures !v.Num? ==> r == v
  {
    if v.Num? then Num(AngleFix(v.x, col)) else v
  }

  /** A cell the clamp leaves alone: NaN, or a number already in range. */
  predicate InRange(v: Value, col: string) {
    v == Missing || (v.Num? && Low(col) <= v.x <= High(col))
  }

  /** One row after `df[col].apply(angel_fix)`: column `col` clamped, nothing else touched. */
  function FixRow(r: Row, col: string): (r': Row)
    ensures r'.Keys == r.Keys
    ensures forall c :: c != col ==> Cell(r', c) == Cell(r, c)
    ensures Cell(r', col) == FixCell(Cell(r, col), col)
  {
    if col in r then r[col := FixCell(r[col], col)] else r
  }

  /** `astype(float)` succeeds on the column: it exists and holds numbers or NaN. */
  predicate Numeric(t: Table, col: string) {
    col in t.columns && forall i :: 0 <= i < |t.rows| ==> Cell(t.rows[i], col).Num? || Cell(t.rows[i], col) == Missing
  }

  /**
   * What `angle_precession` returns: when both columns convert, both clamped;
   * otherwise the copy as it was when the conversion raised, which is the input.
   */
  function PreciseAngles(t: Table): Table {
    if Numeric(t, PitchCol) && Numeric(t, AzimuthCol) then
      Table(t.columns, seq(|t.rows|, i requires 0 <= i < |t.rows| => FixRow(FixRow(t.rows[i], PitchCol), AzimuthCol)))
    else t
  }

  /** `df[col] = df[col].apply(lambda x: angel_fix(x, col))` over the rows of the copy. */
  method ClampColumn(rows: seq<Row>, col: string) returns (out: seq<Row>)
    ensures |out| == |rows|
    ensures forall i :: 0 <= i < |rows| ==> out[i] == FixRow(rows[i], col)
  {
    out := rows;
    var i := 0;
    while i < |out|
      invariant 0 <= i <= |out| == |rows|
      invariant forall k :: 0 <= k < i ==> out[k] == FixRow(rows[k], col)
      invariant forall k :: i <= k < |out| ==> out[k] == rows[k]
    {
      if col in out[i] {
        out := out[i := out[i][col := FixCell(out[i][col], col)]];
      }
      i := i + 1;
    }
  }

  /** `angle_precession(final_mount_df)`. */
  method AnglePrecession(t: Table) returns (df: Table)
    ensures df == PreciseAngles(t)
  {
    df := t;
    if !Numeric(t, PitchCol) || !Numeric(t, AzimuthCol) {
      return;
    }
    var rows := ClampColumn(df.rows, PitchCol);
    rows := ClampColumn(rows, AzimuthCol);
    df := Table(df.columns, rows);
  }

  /** Row count, row order, column list and every other column are untouched. */
  lemma PreciseAnglesFrame(t: Table)
    ensures PreciseAngles(t).columns == t.columns && |PreciseAngles(t).rows| == |t.rows|
    ensures forall i, c :: 0 <= i < |t.rows| && c != PitchCol && c != AzimuthCol ==>
      Cell(PreciseAngles(t).rows[i], c) == Cell(t.rows[i], c)
    ensures !Numeric(t, PitchCol) || !Numeric(t, AzimuthCol) ==> PreciseAngles(t) == t
  {
  }

  /** After a successful run every pitch lies in [30, 45] and every azimuth in [90, 270] (or is NaN). */
  lemma PreciseAnglesInRange(t: Table)
    requires Numeric(t, PitchCol) && Numeric(t, AzimuthCol)
    ensures forall i :: 0 <= i < |t.rows| ==>
      InRange(Cell(PreciseAngles(t).rows[i], PitchCol), PitchCol) &&
      InRange(Cell(PreciseAngles(t).rows[i], AzimuthCol), AzimuthCol)
  {
    forall i | 0 <= i < |t.rows|
      ensures InRange(Cell(PreciseAngles(t).rows[i], PitchCol), PitchCol)
      ensures InRange(Cell(PreciseAngles(t).rows[i], AzimuthCol), AzimuthCol)
    {
      var r := PreciseAngles(t).rows[i];
      assert Cell(r, PitchCol) == FixCell(Cell(t.rows[i], PitchCol), PitchCol);
      assert Cell(r, AzimuthCol) == FixCell(Cell(t.rows[i], AzimuthCol), AzimuthCol);
    }
  }

  /** Already clamped data passes through unchanged. */
  lemma {:induction false} PreciseAnglesKeepsInRange(t: Table)
    requires Numeric(t, PitchCol) && Numeric(t, AzimuthCol)
    requires forall i :: 0 <= i < |t.rows| ==>
      InRange(Cell(t.rows[i], PitchCol), PitchCol) && InRange(Cell(t.rows[i], AzimuthCol), AzimuthCol)
    ensures PreciseAngles(t) == t
  {
    var r := PreciseAngles(t);
    forall i | 0 <= i < |t.rows| ensures r.rows[i] == t.rows[i] {
      var a := FixRow(t.rows[i], PitchCol);
      assert a == t.rows[i] by {
        if PitchCol in t.rows[i] { assert FixCell(t.rows[i][PitchCol], PitchCol) == t.rows[i][PitchCol]; }
      }
      assert FixRow(a, AzimuthCol) == a by {
        if AzimuthCol in a { assert FixCell(a[AzimuthCol], AzimuthCol) == a[AzimuthCol]; }
      }
    }
  }

  /** Re-applying the normaliser to its own output is a no-op. */
  lemma {:induction false} PreciseAnglesIdempotent(t: Table)
    ensures PreciseAngles(PreciseAngles(t)) == PreciseAngles(t)
  {
    if Numeric(t, PitchCol) && Numeric(t, AzimuthCol) {
      var once := PreciseAngles(t);
      PreciseAnglesInRange(t);
      assert Numeric(once, PitchCol) && Numeric(once, AzimuthCol) by {
        forall i | 0 <= i < |once.rows|
          ensures Cell(once.rows[i], PitchCol).Num? || Cell(once.rows[i], PitchCol) == Missing
          ensures Cell(once.rows[i], AzimuthCol).Num? || Cell(once.rows[i], AzimuthCol) == Missing
        {
          assert InRange(Cell(once.rows[i], PitchCol), PitchCol);
          assert InRange(Cell(once.rows[i], AzimuthCol), AzimuthCol);
        }
      }
      PreciseAnglesKeepsInRange(once);
    }
  }
}
