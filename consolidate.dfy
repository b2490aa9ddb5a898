/**
 * `save_ppm_data` of the consolidation job (rail_rank/db.py): load and deduplicate the log,
 * insert the operators it names, append its rows to `performance`, commit, and only then
 * delete the log.
 */
module Consolidate {
  import opened Wrappers
  import opened CsvLog
  import opened Tables
  import opened Dedup
  import opened Merge

  /**
   * A failed load (missing or empty log) leaves the store and the log as they were. Otherwise
   * the operator table gains the log's missing names, `performance` gains one row per complete
   * deduplicated row, both are committed, and the log is gone.
   */
  method SavePpmData(db: Database, log: LogFile) returns (r: Result<(), LoadError>)
    requires db.Valid() && log.Valid()
    modifies db, log
    ensures db.Valid() && log.Valid()
    ensures LoadPpmData(old(log.Contents())).Err? ==>
              r == Err(LoadPpmData(old(log.Contents())).error) && unchanged(db) && unchanged(log)
    ensures LoadPpmData(old(log.Contents())).Ok? ==>
              var rows := LoadPpmData(old(log.Contents())).value;
              && r.Ok?
              && db.operators == AddNames(old(db.operators), UniqueNames(rows))
              && db.performance == old(db.performance) + ToPerformance(rows, db.operators)
              && db.committedOperators == db.operators && db.committedPerformance == db.performance
              && !log.present
  {
    var loaded := LoadPpmData(log.Contents());
    if loaded.Err? {
      return Err(loaded.error);
    }
    var rows := loaded.value;
    db.EnsureOperators(UniqueNames(rows));
    db.AppendPerformance(ToPerformance(rows, db.operators));
    db.Commit();
    log.Unlink();
    r := Ok(());
  }

  /** The three-line log of the example below, as read. */
  const ExampleLog: seq<Line> := [["LNER", "90", "2024-01-01", "08:00:00"], ["LNER", "92", "2024-01-01", "09:15:00"],
                                  ["GWR", "85", "2024-01-01", "08:30:00"]]

  /** Loading it keeps the 09:15:00 LNER record over the 08:00:00 one, and the GWR record. */
  lemma ExampleLogLoads()
    ensures LoadPpmData(Some(ExampleLog)) == Ok(ExampleRows)
  {
    var rows := ReadCsv(Some(ExampleLog)).value;
    assert rows == [Row(Some("LNER"), Some("90"), Some("2024-01-01"), Some("08:00:00")),
                    Row(Some("LNER"), Some("92"), Some("2024-01-01"), Some("09:15:00")),
                    Row(Some("GWR"), Some("85"), Some("2024-01-01"), Some("08:30:00"))];
    assert TextOrder.Less("08:00:00", "09:15:00");
    assert KeepLatest(rows[..1]) == [rows[0]];
    assert KeepLatest(rows[..2]) == [rows[1]];
    assert rows[..2] == rows[..|rows| - 1];
    assert IndexOfKey([rows[1]], KeyOf(rows[2])) == None;
    assert KeepLatest(rows) == [rows[1], rows[2]];
  }

  /** The loaded rows of the example log. */
  const ExampleRows: seq<Row> := [Row(Some("LNER"), Some("92"), Some("2024-01-01"), Some("09:15:00")),
                                  Row(Some("GWR"), Some("85"), Some("2024-01-01"), Some("08:30:00"))]

  /** On an empty operator table the save inserts LNER with id 1, then GWR with id 2. */
  lemma ExampleOperators()
    ensures AddNames([], UniqueNames(ExampleRows)) == [Operator(1, "LNER"), Operator(2, "GWR")]
  {
    ExampleNames();
    ExampleInserts();
  }

  lemma ExampleNames()
    ensures UniqueNames(ExampleRows) == ["LNER", "GWR"]
  {
    var first := ExampleRows[..1];
    assert first[..0] == [];
    assert UniqueNames(first) == ["LNER"];
    assert ExampleRows[..|ExampleRows| - 1] == first;
  }

  lemma ExampleInserts()
    ensures AddNames([], ["LNER", "GWR"]) == [Operator(1, "LNER"), Operator(2, "GWR")]
  {
    var names := ["LNER", "GWR"];
    assert names[..1] == ["LNER"] && names[..1][..0] == [];
    var one := AddNames([], names[..1]);
    assert AddNames([], names[..1][..0]) == [];
    assert LookupId([], "LNER").None? && NextId([]) == 1;
    assert one == AddName([], "LNER");
    assert one == [Operator(1, "LNER")];
    assert LookupId(one, "GWR").None?;
    assert NextId(one) == 2;
  }

  /**
   * The save of the example log leaves exactly two performance rows: LNER's 09:15:00 record
   * and GWR's record.
   */
  lemma ExampleLogSaves()
    ensures ToPerformance(ExampleRows, AddNames([], UniqueNames(ExampleRows)))
         == [Performance(1, "92", "2024-01-01", "09:15:00"), Performance(2, "85", "2024-01-01", "08:30:00")]
  {
    ExampleOperators();
    var ops := [Operator(1, "LNER"), Operator(2, "GWR")];
    assert MapRow(ExampleRows[0], ops) == Some(Performance(1, "92", "2024-01-01", "09:15:00"));
    assert MapRow(ExampleRows[1], ops) == Some(Performance(2, "85", "2024-01-01", "08:30:00"));
    assert ExampleRows[1..] == [ExampleRows[1]];
  }
}
