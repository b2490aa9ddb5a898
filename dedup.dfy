/**
 * `load_ppm_data` of the consolidation job (rail_rank/db.py): sort the log rows by
 * `record_time`, latest first, keep the first row of every `(name, record_date)` pair, and
 * check that no pair is left with more than one row.
 */
module Dedup {
  import opened Wrappers
  import TextOrder
  import opened CsvLog

  /** The `drop_duplicates` subset; two missing values count as equal, as in pandas. */
  datatype Key = Key(name: Option<string>, recordDate: Option<string>)

  function KeyOf(r: Row): Key
  {
    Key(r.name, r.recordDate)
  }

  /**
   * `a` sorts strictly ahead of `b` under `sort_values("record_time", ascending=False)`:
   * the greater time text first, and a missing time after every present one.
   */
  predicate Later(a: Row, b: Row)
  {
    a.recordTime.Some? && (b.recordTime.None? || TextOrder.Less(b.recordTime.value, a.recordTime.value))
  }

  lemma LaterIrreflexive(a: Row)
    ensures !Later(a, a)
  {
    if a.recordTime.Some? {
      TextOrder.LessIrreflexive(a.recordTime.value);
    }
  }

  lemma LaterTransitive(a: Row, b: Row, c: Row)
    requires Later(a, b) && Later(b, c)
    ensures Later(a, c)
  {
    if c.recordTime.Some? {
      TextOrder.LessTransitive(c.recordTime.value, b.recordTime.value, a.recordTime.value);
    }
  }

  /** The position of the row with key `k`, if any. */
  function IndexOfKey(out: seq<Row>, k: Key): (r: Option<nat>)
    ensures r.None? <==> forall i :: 0 <= i < |out| ==> KeyOf(out[i]) != k
    ensures r.Some? ==> r.value < |out| && KeyOf(out[r.value]) == k
  {
    if out == [] then None
    else if KeyOf(out[0]) == k then Some(0)
    else match IndexOfKey(out[1..], k)
      case None => None
      case Some(i) => Some(i + 1)
  }

  /** One more row for the kept set: it replaces the kept row of its key only when it sorts ahead of it. */
  function Upsert(out: seq<Row>, r: Row): (u: seq<Row>)
    ensures |out| <= |u| <= |out| + 1 && u != []
  {
    match IndexOfKey(out, KeyOf(r))
    case None => out + [r]
    case Some(k) => if Later(r, out[k]) then out[k := r] else out
  }

  /** `Upsert` keeps every position's key and leaves the new row's key present. */
  lemma UpsertKeys(out: seq<Row>, r: Row)
    ensures |out| <= |Upsert(out, r)|
    ensures forall j :: 0 <= j < |out| ==> KeyOf(Upsert(out, r)[j]) == KeyOf(out[j])
    ensures IndexOfKey(Upsert(out, r), KeyOf(r)).Some?
  {
    var u := Upsert(out, r);
    match IndexOfKey(out, KeyOf(r))
    case None =>
      assert KeyOf(u[|out|]) == KeyOf(r);
    case Some(k) =>
      assert KeyOf(u[k]) == KeyOf(r);
  }

  /**
   * The sort followed by `drop_duplicates(keep="first")`. Among rows with the same key and the
   * same time this keeps the one nearest the start of the log; the rows come out in the order
   * their keys first appear.
   */
  function KeepLatest(rows: seq<Row>): (out: seq<Row>)
    ensures |out| <= |rows|
    ensures out == [] <==> rows == []
  {
    if rows == [] then [] else Upsert(KeepLatest(rows[..|rows| - 1]), rows[|rows| - 1])
  }

  ghost predicate KeysUnique(rows: seq<Row>)
  {
    forall i, j :: 0 <= i < j < |rows| ==> KeyOf(rows[i]) != KeyOf(rows[j])
  }

  /** Every `(name, record_date)` pair occurs at most once in the kept rows. */
  lemma {:induction false} KeepLatestKeysUnique(rows: seq<Row>)
    ensures KeysUnique(KeepLatest(rows))
  {
    if rows != [] {
      KeepLatestKeysUnique(rows[..|rows| - 1]);
    }
  }

  /** The kept rows are a sub-multiset of the log's rows. */
  lemma {:induction false} KeepLatestSubMultiset(rows: seq<Row>)
    ensures multiset(KeepLatest(rows)) <= multiset(rows)
  {
    if rows != [] {
      var init := rows[..|rows| - 1];
      var r := rows[|rows| - 1];
      KeepLatestSubMultiset(init);
      var before := KeepLatest(init);
      assert rows == init + [r];
      match IndexOfKey(before, KeyOf(r))
      case None =>
      case Some(k) =>
        if Later(r, before[k]) {
          assert multiset(before[k := r]) == multiset(before) - multiset{before[k]} + multiset{r};
        }
    }
  }

  /** Every key of the log is still present among the kept rows, and no other key is. */
  lemma {:induction false} KeepLatestSameKeys(rows: seq<Row>)
    ensures forall i :: 0 <= i < |rows| ==> IndexOfKey(KeepLatest(rows), KeyOf(rows[i])).Some?
    ensures forall j :: 0 <= j < |KeepLatest(rows)| ==> KeepLatest(rows)[j] in rows
  {
    if rows != [] {
      var init := rows[..|rows| - 1];
      var r := rows[|rows| - 1];
      KeepLatestSameKeys(init);
      KeepLatestSubMultiset(rows);
      var before := KeepLatest(init);
      var out := KeepLatest(rows);
      UpsertKeys(before, r);
      forall i | 0 <= i < |rows|
        ensures IndexOfKey(out, KeyOf(rows[i])).Some?
      {
        if i < |rows| - 1 {
          assert rows[i] == init[i];
          var k := IndexOfKey(before, KeyOf(init[i])).value;
          assert KeyOf(out[k]) == KeyOf(before[k]);
        }
      }
      forall j | 0 <= j < |out|
        ensures out[j] in rows
      {
        assert out[j] in multiset(out);
      }
    }
  }

  /** No row of `rows` sorts ahead of the row of `out` with the same key. */
  ghost predicate NoneLater(rows: seq<Row>, out: seq<Row>)
  {
    forall i, j :: 0 <= i < |rows| && 0 <= j < |out| && KeyOf(rows[i]) == KeyOf(out[j]) ==> !Later(rows[i], out[j])
  }

  lemma UpsertNoneLater(init: seq<Row>, before: seq<Row>, r: Row)
    requires KeysUnique(before) && NoneLater(init, before)
    requires forall i :: 0 <= i < |init| ==> IndexOfKey(before, KeyOf(init[i])).Some?
    ensures NoneLater(init + [r], Upsert(before, r))
  {
    var out := Upsert(before, r);
    var rows := init + [r];
    forall j | 0 <= j < |out| && KeyOf(r) == KeyOf(out[j])
      ensures !Later(r, out[j])
    {
      LaterIrreflexive(r);
    }
    forall i, j | 0 <= i < |init| && 0 <= j < |out| && KeyOf(init[i]) == KeyOf(out[j])
      ensures !Later(init[i], out[j])
    {
      assert IndexOfKey(before, KeyOf(init[i])).Some?;
      match IndexOfKey(before, KeyOf(r))
      case None =>
      case Some(k) =>
        if Later(r, before[k]) && j == k && Later(init[i], r) {
          LaterTransitive(init[i], r, before[k]);
        }
    }
    forall i, j | 0 <= i < |rows| && 0 <= j < |out| && KeyOf(rows[i]) == KeyOf(out[j])
      ensures !Later(rows[i], out[j])
    {
      if i < |init| {
        assert rows[i] == init[i];
      }
    }
  }

  /** No row of the log sorts ahead of the row kept for its key: the kept time is maximal. */
  lemma {:induction false} KeepLatestMaximal(rows: seq<Row>)
    ensures NoneLater(rows, KeepLatest(rows))
  {
    if rows != [] {
      var init := rows[..|rows| - 1];
      KeepLatestMaximal(init);
      KeepLatestKeysUnique(init);
      KeepLatestSameKeys(init);
      assert rows == init + [rows[|rows| - 1]];
      UpsertNoneLater(init, KeepLatest(init), rows[|rows| - 1]);
    }
  }

  /**
   * The dedup step on rows that all share one `(name, record_date)` leaves exactly one of them,
   * and none of the rows has a later time.
   */
  lemma OneGroupCollapses(rows: seq<Row>)
    requires |rows| > 0 && forall i :: 0 <= i < |rows| ==> KeyOf(rows[i]) == KeyOf(rows[0])
    ensures |KeepLatest(rows)| == 1 && KeepLatest(rows)[0] in rows
    ensures forall i :: 0 <= i < |rows| ==> !Later(rows[i], KeepLatest(rows)[0])
  {
    KeepLatestKeysUnique(rows);
    KeepLatestSameKeys(rows);
    KeepLatestMaximal(rows);
    var out := KeepLatest(rows);
    assert IndexOfKey(out, KeyOf(rows[0])).Some?;
  }

  /** Both fields of the key are present: pandas' `groupby` drops keys with a missing part. */
  predicate Complete(k: Key)
  {
    k.name.Some? && k.recordDate.Some?
  }

  /** `groupby(["name", "record_date"]).size()` for one key. */
  function CountKey(rows: seq<Row>, k: Key): (n: nat)
    ensures n <= |rows|
  {
    if rows == [] then 0 else (if KeyOf(rows[0]) == k then 1 else 0) + CountKey(rows[1..], k)
  }

  /**
   * `.size().max()` over the groups of `all` whose keys occur among `rows`; `None` stands for
   * the NaN pandas returns when there is no group at all.
   */
  function MaxGroupSize(rows: seq<Row>, all: seq<Row>): (m: Option<nat>)
    ensures m.None? <==> forall i :: 0 <= i < |rows| ==> !Complete(KeyOf(rows[i]))
    ensures m.Some? ==> forall i :: 0 <= i < |rows| && Complete(KeyOf(rows[i])) ==> CountKey(all, KeyOf(rows[i])) <= m.value
    ensures m.Some? ==> exists i :: 0 <= i < |rows| && Complete(KeyOf(rows[i])) && CountKey(all, KeyOf(rows[i])) == m.value
  {
    if rows == [] then None
    else
      var rest := MaxGroupSize(rows[1..], all);
      if !Complete(KeyOf(rows[0])) then rest
      else
        var n := CountKey(all, KeyOf(rows[0]));
        if rest.Some? && rest.value > n then rest else Some(n)
  }

  /** A key that occurs once in `rows` has a group of size one. */
  lemma {:induction false} CountUniqueKey(rows: seq<Row>, j: nat)
    requires KeysUnique(rows) && j < |rows|
    ensures CountKey(rows, KeyOf(rows[j])) == 1
  {
    if j == 0 {
      CountAbsentKey(rows[1..], KeyOf(rows[0]));
    } else {
      CountUniqueKey(rows[1..], j - 1);
    }
  }

  lemma {:induction false} CountAbsentKey(rows: seq<Row>, k: Key)
    requires forall i :: 0 <= i < |rows| ==> KeyOf(rows[i]) != k
    ensures CountKey(rows, k) == 0
  {
    if rows != [] {
      CountAbsentKey(rows[1..], k);
    }
  }

  /** When every group of `all` met in `rows` has one row, the largest group size is 1 or NaN. */
  lemma {:induction false} MaxGroupSizeOfSingletons(rows: seq<Row>, all: seq<Row>)
    requires forall i :: 0 <= i < |rows| && Complete(KeyOf(rows[i])) ==> CountKey(all, KeyOf(rows[i])) == 1
    ensures MaxGroupSize(rows, all) == None || MaxGroupSize(rows, all) == Some(1)
  {
    if rows != [] {
      MaxGroupSizeOfSingletons(rows[1..], all);
    }
  }

  /** After the dedup step the largest group size is 1, or NaN when no row has a complete key. */
  lemma KeepLatestGroupSize(rows: seq<Row>)
    ensures var out := KeepLatest(rows);
      MaxGroupSize(out, out) == None || MaxGroupSize(out, out) == Some(1)
  {
    var out := KeepLatest(rows);
    KeepLatestKeysUnique(rows);
    forall i | 0 <= i < |out| && Complete(KeyOf(out[i]))
      ensures CountKey(out, KeyOf(out[i])) == 1
    {
      CountUniqueKey(out, i);
    }
    MaxGroupSizeOfSingletons(out, out);
  }

  datatype LoadError = ReadFailed(error: ReadError) | MultipleRecordsPerDay

  /**
   * `load_ppm_data` as written: the check `size().max() != 1` also fires when there is no group
   * at all, because the maximum of no sizes is NaN and NaN differs from 1.
   */
  function LoadPpmDataAsWritten(file: Option<seq<Line>>): (r: Result<seq<Row>, LoadError>)
    ensures ReadCsv(file).Err? ==> r == Err(ReadFailed(ReadCsv(file).error))
    ensures r.Ok? ==> r == LoadPpmData(file)
    ensures r.Err? && ReadCsv(file).Ok? ==> r.error == MultipleRecordsPerDay
  {
    match ReadCsv(file)
    case Err(e) => Err(ReadFailed(e))
    case Ok(rows) =>
      var out := KeepLatest(rows);
      if MaxGroupSize(out, out) != Some(1) then Err(MultipleRecordsPerDay) else Ok(out)
  }

  /**
   * `load_ppm_data` with the check the comment describes: fail only when some group still has
   * more than one row. That never happens, so the result is the read error or the kept rows.
   */
  function LoadPpmData(file: Option<seq<Line>>): (r: Result<seq<Row>, LoadError>)
    ensures ReadCsv(file).Err? ==> r == Err(ReadFailed(ReadCsv(file).error))
    ensures ReadCsv(file).Ok? ==> r == Ok(KeepLatest(ReadCsv(file).value))
  {
    match ReadCsv(file)
    case Err(e) => Err(ReadFailed(e))
    case Ok(rows) =>
      var out := KeepLatest(rows);
      KeepLatestGroupSize(rows);
      var m := MaxGroupSize(out, out);
      if m.Some? && m.value > 1 then Err(MultipleRecordsPerDay) else Ok(out)
  }

  /**
   * The check as written rejects a readable log exactly when no row has both a name and a
   * date, although no pair then has more than one row.
   */
  lemma LoadAsWrittenRejects(file: Option<seq<Line>>)
    requires ReadCsv(file).Ok?
    ensures var rows := ReadCsv(file).value;
      LoadPpmDataAsWritten(file).Err? <==> forall i :: 0 <= i < |rows| ==> !Complete(KeyOf(rows[i]))
  {
    var rows := ReadCsv(file).value;
    var out := KeepLatest(rows);
    KeepLatestGroupSize(rows);
    KeepLatestSameKeys(rows);
    if exists i :: 0 <= i < |rows| && Complete(KeyOf(rows[i])) {
      var i :| 0 <= i < |rows| && Complete(KeyOf(rows[i]));
      var k := IndexOfKey(out, KeyOf(rows[i])).value;
      assert Complete(KeyOf(out[k]));
    } else {
      forall j | 0 <= j < |out|
        ensures !Complete(KeyOf(out[j]))
      {
        assert out[j] in rows;
      }
    }
  }

  /** A one-line log whose name cell is empty: as written the load fails, corrected it succeeds. */
  lemma NamelessLogRejected()
    ensures LoadPpmDataAsWritten(Some([["", "90", "2024-01-01", "08:00:00+00:00"]])) == Err(MultipleRecordsPerDay)
    ensures LoadPpmData(Some([["", "90", "2024-01-01", "08:00:00+00:00"]])).Ok?
  {
    var lines: seq<Line> := [["", "90", "2024-01-01", "08:00:00+00:00"]];
    LoadAsWrittenRejects(Some(lines));
  }
}
