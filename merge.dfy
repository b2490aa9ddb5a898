/**
 * The part both `save_ppm_data` variants share once the log rows are loaded: the distinct
 * operator names, and the rows with `name` swapped for `operator_id` and every incomplete row
 * dropped (`map`, `drop(columns=["name"])`, `dropna()`).
 */
module Merge {
  import opened Wrappers
  import opened CsvLog
  import opened Tables

  /**
   * `ppm_df["name"].unique()`: every name, once, in order of first appearance. A missing name
   * is left out (see the README).
   */
  function UniqueNames(rows: seq<Row>): seq<string>
  {
    if rows == [] then []
    else
      var names := UniqueNames(rows[..|rows| - 1]);
      var last := rows[|rows| - 1];
      if last.name.Some? && last.name.value !in names then names + [last.name.value] else names
  }

  /** The distinct names are exactly the present names of the rows, each once. */
  lemma {:induction false} UniqueNamesMembers(rows: seq<Row>)
    ensures forall n :: n in UniqueNames(rows) <==> exists i :: 0 <= i < |rows| && rows[i].name == Some(n)
    ensures forall i, j :: 0 <= i < j < |UniqueNames(rows)| ==> UniqueNames(rows)[i] != UniqueNames(rows)[j]
  {
    if rows != [] {
      var init := rows[..|rows| - 1];
      UniqueNamesMembers(init);
      assert forall i :: 0 <= i < |init| ==> init[i] == rows[i];
    }
  }

  /** One row after the id mapping and `dropna()`: `None` when it is dropped. */
  function MapRow(r: Row, ops: seq<Operator>): (p: Option<Performance>)
    ensures p.Some? <==>
              r.name.Some? && LookupId(ops, r.name.value).Some? && r.ppm.Some? && r.recordDate.Some? && r.recordTime.Some?
    ensures p.Some? ==> p.value == Performance(LookupId(ops, r.name.value).value, r.ppm.value, r.recordDate.value, r.recordTime.value)
  {
    if r.name.None? || r.ppm.None? || r.recordDate.None? || r.recordTime.None? then None
    else match LookupId(ops, r.name.value)
      case None => None
      case Some(id) => Some(Performance(id, r.ppm.value, r.recordDate.value, r.recordTime.value))
  }

  /** The rows `to_sql` appends, in the order of `rows`. */
  function ToPerformance(rows: seq<Row>, ops: seq<Operator>): (out: seq<Performance>)
    ensures |out| <= |rows|
    ensures forall i :: 0 <= i < |rows| && MapRow(rows[i], ops).Some? ==> MapRow(rows[i], ops).value in out
    ensures forall p :: p in out ==> exists i :: 0 <= i < |rows| && MapRow(rows[i], ops) == Some(p)
  {
    if rows == [] then []
    else
      var rest := ToPerformance(rows[1..], ops);
      assert forall i :: 1 <= i < |rows| ==> rows[i] == rows[1..][i - 1];
      match MapRow(rows[0], ops)
      case None => rest
      case Some(p) => [p] + rest
  }

  /**
   * The mapping works row by row: the rows of a concatenation are the rows of each part, in
   * order, so a row that occurs twice is appended twice.
   */
  lemma {:induction false} ToPerformanceAppend(x: seq<Row>, y: seq<Row>, ops: seq<Operator>)
    ensures ToPerformance(x + y, ops) == ToPerformance(x, ops) + ToPerformance(y, ops)
  {
    if x == [] {
      assert x + y == y;
    } else {
      assert (x + y)[1..] == x[1..] + y;
      ToPerformanceAppend(x[1..], y, ops);
    }
  }

  /** One more log row adds its own mapped row at the end, or nothing when it is dropped. */
  lemma {:induction false} ToPerformanceSnoc(rows: seq<Row>, r: Row, ops: seq<Operator>)
    ensures ToPerformance(rows + [r], ops)
         == ToPerformance(rows, ops) + (if MapRow(r, ops).Some? then [MapRow(r, ops).value] else [])
  {
    ToPerformanceAppend(rows, [r], ops);
  }

  predicate Complete(r: Row)
  {
    r.name.Some? && r.ppm.Some? && r.recordDate.Some? && r.recordTime.Some?
  }

  /** How many rows have every field. */
  function CountComplete(rows: seq<Row>): (n: nat)
    ensures n <= |rows|
  {
    if rows == [] then 0 else (if Complete(rows[0]) then 1 else 0) + CountComplete(rows[1..])
  }

  /**
   * After the insert loop every name has an id, so the mapping drops only rows with a missing
   * field: one appended row per complete row, each naming the row's own operator.
   */
  lemma {:induction false} ReconciledRowsMap(ops: seq<Operator>, rows: seq<Row>)
    ensures var reconciled := AddNames(ops, UniqueNames(rows));
      && (forall i :: 0 <= i < |rows| ==> (MapRow(rows[i], reconciled).Some? <==> Complete(rows[i])))
      && |ToPerformance(rows, reconciled)| == CountComplete(rows)
  {
    var reconciled := AddNames(ops, UniqueNames(rows));
    AddNamesCovers(ops, UniqueNames(rows));
    UniqueNamesMembers(rows);
    forall i | 0 <= i < |rows| && rows[i].name.Some?
      ensures LookupId(reconciled, rows[i].name.value).Some?
    {
      assert rows[i].name.value in UniqueNames(rows);
    }
    MappedCount(rows, reconciled);
  }

  lemma {:induction false} MappedCount(rows: seq<Row>, ops: seq<Operator>)
    requires forall i :: 0 <= i < |rows| && rows[i].name.Some? ==> LookupId(ops, rows[i].name.value).Some?
    ensures |ToPerformance(rows, ops)| == CountComplete(rows)
  {
    if rows != [] {
      assert forall i :: 1 <= i < |rows| ==> rows[i] == rows[1..][i - 1];
      MappedCount(rows[1..], ops);
    }
  }
}
