/**
 * The permissive variant of consolidation (train_app/cron.py): the log is read without any
 * deduplication or check, merged into the store and committed, and left in place.
 */
module Cron {
  import opened Wrappers
  import opened CsvLog
  import opened Tables
  import opened Merge

  /**
   * `load_ppm_data`: every line of the log becomes a row, in order, with the columns name, ppm,
   * record_date and record_time; a missing file and an empty file are errors.
   */
  function LoadPpmData(file: Option<seq<Line>>): (r: Result<seq<Row>, ReadError>)
    ensures file.None? <==> r == Err(FileNotFound)
    ensures file == Some([]) <==> r == Err(EmptyData)
    ensures r.Ok? ==> file.Some? && |r.value| == |file.value|
    ensures r.Ok? ==> forall i :: 0 <= i < |r.value| ==>
              && r.value[i].name == Cell(file.value[i][0]) && r.value[i].ppm == Cell(file.value[i][1])
              && r.value[i].recordDate == Cell(file.value[i][2]) && r.value[i].recordTime == Cell(file.value[i][3])
  {
    ReadCsv(file)
  }

  /**
   * `save_ppm_data`: the read comes first, so a missing or empty log fails before the store is
   * touched, and the existence check after it can never fire. Otherwise the operator table gains
   * the log's missing names, `performance` gains one row per complete log row, and both are
   * committed; the log is kept.
   */
  method SavePpmData(db: Database, log: LogFile) returns (r: Result<(), ReadError>)
    requires db.Valid() && log.Valid()
    modifies db
    ensures db.Valid()
    ensures LoadPpmData(log.Contents()).Err? ==> r == Err(LoadPpmData(log.Contents()).error) && unchanged(db)
    ensures LoadPpmData(log.Contents()).Ok? ==>
              var rows := LoadPpmData(log.Contents()).value;
              && r.Ok?
              && db.operators == AddNames(old(db.operators), UniqueNames(rows))
              && db.performance == old(db.performance) + ToPerformance(rows, db.operators)
              && db.committedOperators == db.operators && db.committedPerformance == db.performance
  {
    var loaded := LoadPpmData(log.Contents());
    if loaded.Err? {
      return Err(loaded.error);
    }
    if !log.present {
      assert false;
    }
    var rows := loaded.value;
    db.EnsureOperators(UniqueNames(rows));
    db.AppendPerformance(ToPerformance(rows, db.operators));
    db.Commit();
    r := Ok(());
  }

  /**
   * The job run twice on the same log (nothing deletes it): the second run inserts no operator
   * and appends exactly the rows of the first run once more, since nothing in this variant
   * guards against duplicates.
   */
  method SaveTwice(db: Database, log: LogFile) returns (first: Result<(), ReadError>, second: Result<(), ReadError>)
    requires db.Valid() && log.Valid()
    modifies db
    ensures db.Valid()
    ensures LoadPpmData(log.Contents()).Err? ==> first.Err? && second.Err? && unchanged(db)
    ensures LoadPpmData(log.Contents()).Ok? ==>
              var rows := LoadPpmData(log.Contents()).value;
              var added := ToPerformance(rows, db.operators);
              && first.Ok? && second.Ok?
              && db.operators == AddNames(old(db.operators), UniqueNames(rows))
              && db.performance == old(db.performance) + added + added
  {
    ghost var ops0 := db.operators;
    first := SavePpmData(db, log);
    second := SavePpmData(db, log);
    if first.Ok? {
      AddNamesIdempotent(ops0, UniqueNames(LoadPpmData(log.Contents()).value));
    }
  }
}
