/**
 * The append-only CSV log (`train_data.csv`) that sits between the feed listener and the
 * consolidation job, and what `pd.read_csv` makes of it.
 */
module CsvLog {
  import opened Wrappers

  /** One line of the log: the four cells `csv.writer` wrote for one record. */
  type Line = cells: seq<string> | |cells| == 4 witness ["", "", "", ""]

  /**
   * A row as `pd.read_csv(file, names=["name", "ppm", "record_date", "record_time"])` reads
   * it: the cells in column order, an empty cell read as missing (NaN).
   */
  datatype Row = Row(name: Option<string>, ppm: Option<string>, recordDate: Option<string>, recordTime: Option<string>)

  function Cell(text: string): Option<string>
  {
    if text == "" then None else Some(text)
  }

  function RowOf(line: Line): Row
  {
    Row(Cell(line[0]), Cell(line[1]), Cell(line[2]), Cell(line[3]))
  }

  /** `FileNotFoundError` for a missing file, pandas' `EmptyDataError` for a file without lines. */
  datatype ReadError = FileNotFound | EmptyData

  /** The value read for a cell holding `text`: missing exactly when the cell is empty, else the text itself. */
  predicate ReadsAs(value: Option<string>, text: string)
  {
    (value.None? <==> text == "") && (value.Some? ==> value.value == text)
  }

  /**
   * `pd.read_csv` on the log; `file` is `None` when the file does not exist. A readable file
   * gives one row per line, in order, each cell read as itself or, when empty, as missing.
   */
  function ReadCsv(file: Option<seq<Line>>): (r: Result<seq<Row>, ReadError>)
    ensures file.None? <==> r == Err(FileNotFound)
    ensures file == Some([]) <==> r == Err(EmptyData)
    ensures r.Ok? ==> file.Some? && |r.value| == |file.value|
    ensures r.Ok? ==> forall i :: 0 <= i < |r.value| ==>
              && ReadsAs(r.value[i].name, file.value[i][0]) && ReadsAs(r.value[i].ppm, file.value[i][1])
              && ReadsAs(r.value[i].recordDate, file.value[i][2]) && ReadsAs(r.value[i].recordTime, file.value[i][3])
  {
    match file
    case None => Err(FileNotFound)
    case Some(lines) =>
      if lines == [] then Err(EmptyData)
      else Ok(seq(|lines|, i requires 0 <= i < |lines| => RowOf(lines[i])))
  }

  /** The log file: whether it exists, and its lines in the order they were appended. */
  class LogFile {
    var present: bool
    var lines: seq<Line>

    /** A file that does not exist has no lines. */
    ghost predicate Valid()
      reads this
    {
      present || lines == []
    }

    constructor (present: bool, lines: seq<Line>)
      requires present || lines == []
      ensures Valid() && this.present == present && this.lines == lines
    {
      this.present := present;
      this.lines := lines;
    }

    /** What `pd.read_csv` would open: `None` when the file does not exist. */
    function Contents(): Option<seq<Line>>
      reads this
    {
      if present then Some(lines) else None
    }

    /** `open(path, "a")`: creates the file when it is missing and keeps every existing line. */
    method OpenForAppend()
      modifies this
      ensures Valid() && present && lines == old(lines)
    {
      present := true;
    }

    /** `writer(file).writerow(cells)` on a file opened for appending. */
    method WriteRow(cells: Line)
      requires present
      modifies this
      ensures Valid() && present && lines == old(lines) + [cells]
    {
      lines := lines + [cells];
    }

    /** `Path.unlink()`: the file and all its lines are gone. */
    method Unlink()
      requires present
      modifies this
      ensures Valid() && !present && lines == []
    {
      present := false;
      lines := [];
    }
  }
}
