# Roof-model flattening, modelled in Dafny

`main.py` reads site-model JSON documents (buildings, mounting planes, obstructions)
and turns them into flat tables with pandas. This project models the core of that
pipeline:

- the generic flattener `flatten_json` (explode a nested column, then `json_normalize` it);
- the mounting-plane extractor `get_mounting_dfs` / `get_mounting_planes`, which:
  - cleans the main table (sentinel strings become null, the schema version is checked,
    empty penetration lists become null);
  - groups it by plane id;
  - builds three edge tables (penetrations, exterior ring, interior rings) that grow by prepending;
- the reassembler `concat_mounting_plane_dfs`, which left-joins those tables back onto the
  main table and drops the nested columns;
- the obstruction extractor `get_obs_df` / `merge` / `get_obstruction_df`;
- the angle normaliser `angel_fix` / `angle_precession`, which clamps pitch to [30, 45]
  and azimuth to [90, 270].

Data model:

- **Values.** A JSON value is `Missing` (NaN/None), a string, a number (`real`), a boolean,
  an object (ordered fields) or a list. A boolean has no length, so `len` raises on it as it
  does on a number.
- **Tables.** A table is a column list plus rows. A row is a map from column name to value;
  an absent key reads as `Missing`.
- **Errors.** pandas exceptions are `Result` values. Each `try`/`except` becomes an explicit
  choice of what survives a failure:
  - `flatten_json` yields the empty table;
  - the extraction loops keep what they have accumulated;
  - `get_mounting_planes` fails, because its result names are left unbound;
  - `concat_mounting_plane_dfs` fails when a join fails (its result name is still unbound),
    but returns the joined table, nested columns and all, when only the final drop fails;
  - `merge` fails when its join or drop fails, and `get_obstruction_df` then yields the
    empty table.

Modules:

- `Tables`: the pandas operations used.
- `Normalize`: the `json_normalize` behaviour the flattener relies on.
- `Flatten`: `flatten_json`.
- `Groups`: grouping, `unique`, and the prepend step.
- `Mounting` and `Obstructions`: the extractors, written as imperative loops. Each loop is
  proved against a specification function (`Accumulate`, `AccumulateEdges`).
- `Reassemble`: the left joins.
- `Angles`: the clamp, written as an imperative pass over the rows.

## Model

| member | source | states |
|---|---|---|
| Angles.AngleFix | main.py:240-254 | The result lies in the column's range ([30,45] for the pitch column, [90,270] for any other name). A value already inside is returned unchanged. A value above or below is clamped to that bound. |
| Angles.FixRow | main.py:267-270 | Only the named column changes, by the clamp. Every other cell and the key set stay as they were. |
| Angles.ClampColumn | main.py:267-270 | The loop over the rows yields, row by row, the clamped row. |
| Angles.AnglePrecession | main.py:256-273 | The result is `PreciseAngles(t)`: both columns clamped when both convert to numbers; otherwise the input unchanged. |
| Angles.PreciseAnglesFrame | main.py:256-273 | Columns, row count and every column other than pitch and azimuth are untouched. A failed conversion returns the input. |
| Angles.PreciseAnglesInRange | main.py:256-273 | After a successful run every pitch is in [30,45] and every azimuth in [90,270], or is NaN. |
| Angles.PreciseAnglesKeepsInRange | main.py:256-273 | A table whose angles are already in range is returned unchanged. |
| Angles.PreciseAnglesIdempotent | main.py:256-273 | Applying the normaliser twice equals applying it once. |
| Flatten.FlattenJson | main.py:11-35 | The result is well formed. It is the empty table when the column is absent, the table has no rows, or the first row's cell has no length or length 0 (only row 0 is inspected). Otherwise, with both a record path and metadata, it is the record-path normalisation of the exploded column, or the empty table when that raises; every column is then a metadata name or starts with `col + "_" + join(path, "_") + "_"`, and the metadata columns come last. Without them it is the plain normalisation of the exploded column: one row per exploded element, with exactly the flattened keys as columns (no prefix). |
| Flatten.ExplodeCell | main.py:22 | A non-empty list explodes into its elements and a non-empty dict into its keys, as strings. An empty list or dict gives one null. Any other value stays a single element. |
| Flatten.Explode | main.py:22 | Columns are kept and well-formedness is preserved. |
| Flatten.ExplodeCount | main.py:22 | An exploded table has one row per list element (one for a scalar or an empty list), so never fewer rows than the input. |
| Flatten.ExplodeColumn | main.py:22 | The exploded column holds the list elements of every row, in row order. |
| Flatten.ExplodeProvenance | main.py:22 | Element j of input row i's cell lands at position `Slot(rows, col, i, j)`: the widths of the rows before i, plus j. That output row is a copy of input row i outside the exploded column, and holds the element in it. |
| Normalize.PlainNormalize | main.py:32 | Element i becomes row i, the flattening of that element. The table is well formed and its columns are exactly the flattened keys. |
| Normalize.RecordNormalize | main.py:26-30 | Repeated metadata names give ValueError. The call succeeds iff the names are distinct, every element's record path leads to a list of dicts, and no metadata name is also a prefixed record column. There is then one row per record. The row of element i's record k sits at `RecSlot(items, path, i, k)` (the records of the elements before i, plus k). It is that record flattened, with every label prefixed, plus element i's metadata cells. The metadata columns come last and every other column carries the prefix. |
| Normalize.FlattenRecords | main.py:26-30 | Fails iff some pulled record is not a dict. Otherwise record k flattens to entry k. |
| Normalize.GatherOk | main.py:26-30 | Pulling the records of every element succeeds iff each element's path leads to a list of dicts. The number of records is then the sum over the elements. |
| Normalize.GatherAt | main.py:26-30 | Element i's record k is flattened at position `RecSlot(items, path, i, k)`, next to element i's metadata row. |
| Normalize.GatherClash | main.py:26-30 | A metadata name is among the prefixed record columns iff it is a key of some prefixed record row. |
| Normalize.FlattenRecord | main.py:26-32 | A flattened record contains no dict values. |
| Normalize.FlattenRecordLeaves | main.py:26-32 | A pair (name, x) is in the flattened record iff x is a leaf of the record under the dotted path `name`. A leaf is either a non-dict field under its own key, or, recursively, a leaf of a dict field `k` under `k + "." + rest`. |
| Normalize.FlattenRecordIdempotent | main.py:26-32 | Flattening an already flat record changes nothing. |
| Tables.Drop | main.py:145-148 | Succeeds iff every named column exists. The columns are then removed and every other cell is unchanged. |
| Tables.Rename | main.py:61-65 | A no-op when the source column is absent. Otherwise the destination column holds the source's cells and the source column is gone. |
| Tables.AddPrefix | main.py:79 | Every column label gets the prefix and every cell keeps its value under the prefixed label. |
| Tables.Insert0 | main.py:66 | Fails iff the column already exists. Otherwise the column is first and every row holds the given value in it. |
| Tables.Concat | main.py:67 | The rows of the first table followed by those of the second. The first table's columns are a prefix of the result's, which has the union of both column sets. |
| Tables.ReplaceSentinels | main.py:117 | Every cell equal to "", "None", "none" or null becomes null; nothing else changes. |
| Tables.ReplaceSentinelsIdempotent | main.py:117 | Replacing sentinels twice equals doing it once. |
| Groups.GroupOf | main.py:49 | A group has the table's columns and exactly the rows with that key. |
| Groups.GroupOfInOrder | main.py:44-49 | A group lists its key's rows in table order and nothing else. The row that is the r-th of its key in the table is the group's r-th row, so the key's first table row is the group's first row (the row `flatten_json` inspects). |
| Groups.GroupKeysIsGroupOrder | main.py:44-49 | Every table has an order listing each non-null key once, so the grouping requirement excludes no input. |
| Groups.SameKeysSameOrders | main.py:122-124 | Tables that agree on the key column have the same group orders. |
| Groups.Unique | main.py:119 | The distinct values of a column, each once, and no others. |
| Groups.UniqueSingleton | main.py:119 | A column has exactly one distinct value iff it is non-empty and constant. |
| Groups.Contribute | main.py:58-67 | An absent nested column raises. A group with a null cell is skipped. Otherwise the group's partial rows are put in front of the accumulated rows, with the partial table's columns leading. |
| Groups.ContributeKeeps | main.py:58-67 | A contribution keeps three facts: every row comes from a listed group whose nested column had no null, the key column is first, and earlier rows stay at the end. |
| Mounting.PenetrationEdges | main.py:58-66 | Succeeds iff the flattened penetration table has the edge-id column. The plane id is the first column and holds the plane's id in every row. The penetration's `id` and `obstructionId` move to the penetration-edge names, row for row, and the old labels are gone. Every other column and cell of the flattened table is kept. |
| Mounting.ExteriorEdges | main.py:77-80 | Always succeeds. The columns are the plane id followed by the prefixed flattened columns, and every cell keeps its value under the prefixed name. |
| Mounting.InteriorEdges | main.py:91-96 | Always succeeds. The plane id is first and holds the plane's id in every row. The winding direction moves to its interior-ring name, row for row, and the old label is gone. Every other column and cell of the flattened table is kept. |
| Mounting.AccumulateSound | main.py:49-97 | Every accumulated row carries the id of a visited plane whose nested column was entirely non-null. Each non-empty table has the plane id as its first column. |
| Mounting.AccumulateExtends | main.py:49-97 | Later planes only prepend: the tables after the first n planes are suffixes of the final tables. |
| Mounting.AccumulateStopped | main.py:48-99 | After an exception ends the loop, further planes change nothing. |
| Mounting.MountingDfs | main.py:38-102 | An absent plane-id column fails (the grouping is outside the `try`). Otherwise the loop's result is `Accumulate` over the group order, and it satisfies the soundness facts above. |
| Mounting.CheckVersion | main.py:119-120 | Fails with KeyError when the version column is absent. Succeeds iff there are rows, every row's version equals the first row's, and that version is v1, v2 or v3. |
| Mounting.ClearEmpty | main.py:123 | Fails iff the column is absent or some cell has no length. Otherwise cells of length 0 become null and nothing else changes. |
| Mounting.PrepareMain | main.py:117-123 | Fails with KeyError when the version column is absent. Succeeds iff every row holds the first row's version, that version is v1, v2 or v3, the penetration column exists, and (when no penetration cell is null after sentinel replacement) every penetration cell has a length. On success every other cell is de-sentinelled. Each penetration cell is de-sentinelled too, and becomes null when it is an empty list and no cell of the column is null. |
| Mounting.VersionUnderSentinels | main.py:117-120 | The version check after sentinel replacement passes iff the version column exists, there are rows, and every row holds the first row's version, which is v1, v2 or v3. |
| Mounting.GetMountingPlanes | main.py:105-129 | Succeeds iff preparation succeeds and the plane-id column exists. The result is the prepared main table plus the three accumulated tables, which are sound. |
| Obstructions.ObstructionEdgeRows | main.py:185-189 | Always succeeds. The obstruction id is first, followed by the prefixed flattened columns, with values kept. |
| Obstructions.AccumulateEdgesSound | main.py:176-190 | Edge rows only come from visited obstructions whose edge cells were all non-null, and the obstruction id is the first column. |
| Obstructions.AccumulateEdgesGrows | main.py:190 | Later obstructions only prepend rows. |
| Obstructions.AccumulateEdgesStopped | main.py:169-193 | After an exception, later obstructions change nothing. |
| Obstructions.ObstructionEdges | main.py:168-193 | An empty table, or one without the obstruction id column, gives the empty table. Otherwise the loop's result is `AccumulateEdges` over the group order, and it is sound. |
| Obstructions.PrepareObstructions | main.py:225-227 | Fails with KeyError when the edge column is absent. Succeeds iff every de-sentinelled edge cell has a length, so a null or numeric cell fails. On success every edge cell is de-sentinelled and becomes null when it is an empty list, and every other cell is de-sentinelled. |
| Obstructions.GetObstructionDf | main.py:211-232 | No rows, a failed preparation or no obstruction id column give the empty table. Otherwise, without edge rows the result is the edge accumulator itself. With edge rows the nested edge column is gone, every prepared obstruction row survives, and there are at least as many rows as the input. |
| Obstructions.ObstructionDfShape | main.py:196-232 | The same three outcomes, for the function the method computes. In the last two the accumulated edges are sound. With edge rows the result is the successful merge of the edges onto the prepared table. |
| Reassemble.Shared | main.py:139 | The join keys are exactly the columns both tables have. |
| Reassemble.LeftMerge | main.py:139-141 | Fails iff no column is shared. The left columns stay first and the columns are the union. Left row i becomes a block of rows in place. The block is the row alone when nothing matches. Otherwise it is one row per matching right row, in right-table order, each taking that right row's cells for the columns the left lacks. So there are at least as many rows as on the left, and exactly as many when no left row has two matches. |
| Reassemble.MergeRow | main.py:139 | One left row's block: the row alone without a match, otherwise one joined row per match, each agreeing with the left row on the left columns. |
| Reassemble.MergeRowsLayout | main.py:139 | The join output is the left rows' blocks laid end to end, each at the summed widths of the blocks before it. |
| Reassemble.MergeRowsCount | main.py:139 | A left join yields at least one row per left row, and exactly one when matches are unique. |
| Reassemble.MergeRowsKeepLeft | main.py:139 | Every left row reappears in the join output. |
| Reassemble.MergeRowsFromLeft | main.py:139 | Every join output row agrees with some left row on the left columns. |
| Reassemble.WithPenetrations | main.py:140-143 | Without penetration rows, the polygon-joined table is used unchanged. |
| Reassemble.ConcatMountingPlaneDfs | main.py:132-151 | No shared column with the concatenated polygon tables gives MergeError. The call succeeds iff both joins succeed. The result is then the joined table (the polygon join, then the penetration join when there are penetration rows) row for row and cell for cell. The three nested columns are removed from it when it has them all; when the drop raises, the joined table is returned as it is. Every main column outside the nested three remains. There are at least as many rows as in the main table, exactly as many when every join has unique matches, and every main row survives. |
| Reassemble.MergeObstructions | main.py:196-208 | Without edge rows, the edge table itself is returned. Otherwise the call succeeds iff a column is shared and the edge column exists on one side. Then every cell is the left join's, except that the nested edge column is gone. There are at least as many rows as in the obstruction table, exactly as many with unique matches, and every obstruction row survives. |

## Left out

- The document loading and the `__main__` driver (main.py:276-315) are left out: file I/O.
- `get_Statistics` (main.py:234-238) is left out: it prints summary statistics.
- `get_bldngs_polygons` (main.py:153-165) is left out: a single `json_normalize` call on a module-level document.
- The top-level `json_normalize` calls that build the main tables (main.py:108-115, 218-223) are not modelled.
  `GetMountingPlanes` and `GetObstructionDf` start from the normalised table.
- Logging calls are left out; they carry no data.
- Groups are visited in a given order, any that lists each non-null key once. pandas sorts the keys; the sort over mixed JSON values is not modelled.
- Reassemble.LeftMerge: joins on all shared columns with NaN matching NaN. pandas' dtype checks (joining a number column to a string column raises) are not modelled.
- Tables.Rename: renaming onto a label that already exists replaces that column. pandas would keep two columns with the same label.
- Tables.ReplaceSentinels: the `list` entry of the replacement list is the Python type object, which no cell equals, so lists are kept as they are.
- Angles.AnglePrecession: `astype(float)` is modelled as succeeding only on numbers and nulls. Numeric strings and booleans, which pandas would convert, count as a failed conversion.
- Normalize.FlattenRecords: a pulled record that is not an object raises TypeError here, so `RecordNormalize` fails and `flatten_json` yields the empty table. pandas keeps such records as they are and builds a column `0` from them (prefixed, with the metadata after it); that outcome is not modelled.
- Normalize.PlainNormalize: an element that is not an object gives a row with no cells. pandas' handling of scalar records is not modelled.
- Groups.Unique: the order of the distinct values (first appearance in pandas) is not stated. The only caller, the version check, looks only at which values occur.
- Numbers are exact reals; floating-point rounding is not modelled.
