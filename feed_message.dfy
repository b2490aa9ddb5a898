/**
 * The feed listener of `train_app/data.py`: a decoded RTPPM message becomes one record per
 * operator entry, all stamped with the message's snapshot time, and `on_message` appends those
 * records to the CSV log.
 */
module FeedMessage {
  import opened Wrappers
  import opened CivilTime
  import opened IsoText
  import opened CsvLog

  /** The decoded JSON, one datatype per level; a key the message lacks is `None`. */
  datatype PpmValue = PpmValue(text: Option<string>)
  datatype OperatorEntry = OperatorEntry(name: Option<string>, ppm: Option<PpmValue>)
  datatype NationalPage = NationalPage(operators: Option<seq<OperatorEntry>>)
  datatype RtppmData = RtppmData(snapshotTStamp: Option<string>, nationalPage: Option<NationalPage>)
  /** The value under `RTPPMDataMsgV1`. */
  datatype RtppmMessage = RtppmMessage(rtppmData: Option<RtppmData>)
  /** A frame body `json.loads` could decode. */
  datatype Body = Body(rtppmDataMsgV1: Option<RtppmMessage>)

  /** The exceptions parsing can raise (`json.JSONDecodeError`, `KeyError`, `ValueError`, ...). */
  datatype ParseError =
    | NotJson
    | MissingKey(key: string)
    | NotAnInteger(text: string)
    | TimestampOutOfRange(millis: int)
    | UnpackMismatch(pieces: int)

  /** The `{"date": ..., "time": ...}` dict of `get_timestamp`. */
  datatype Timestamp = Timestamp(date: string, time: string)

  /** One record `{"name", "ppm", "date", "time"}`; the fields are in the dict's key order. */
  datatype Record = Record(name: string, ppm: string, date: string, time: string)

  /**
   * `parse_operator_data`: the name and the PPM text of one operator entry. A missing key is a
   * `KeyError` naming a key that is really missing; `name` is looked up first.
   */
  function ParseOperatorData(entry: OperatorEntry): (r: Result<(string, string), ParseError>)
    ensures r.Ok? <==> CompleteEntry(entry)
    ensures r.Ok? ==> r.value.0 == entry.name.value && r.value.1 == entry.ppm.value.text.value
    ensures r.Err? ==>
              || (r.error == MissingKey("name") && entry.name.None?)
              || (r.error == MissingKey("PPM") && entry.ppm.None?)
              || (r.error == MissingKey("text") && entry.ppm.Some? && entry.ppm.value.text.None?)
    ensures entry.name.None? ==> r == Err(MissingKey("name"))
  {
    if entry.name.None? then Err(MissingKey("name"))
    else if entry.ppm.None? then Err(MissingKey("PPM"))
    else if entry.ppm.value.text.None? then Err(MissingKey("text"))
    else Ok((entry.name.value, entry.ppm.value.text.value))
  }

  /** An entry that holds every key `parse_operator_data` looks up. */
  predicate CompleteEntry(entry: OperatorEntry)
  {
    entry.name.Some? && entry.ppm.Some? && entry.ppm.value.text.Some?
  }

  /** `int(text)` for an optional sign followed by decimal digits. */
  function ParseInt(text: string): Option<int>
  {
    if |text| > 1 && (text[0] == '-' || text[0] == '+') && AllDigits(text[1..]) then
      var magnitude: int := DigitsValue(text[1..]);
      Some(if text[0] == '-' then -magnitude else magnitude)
    else if |text| > 0 && AllDigits(text) then
      Some(DigitsValue(text))
    else
      None
  }

  /**
   * `get_timestamp`: the snapshot time, in milliseconds, as UTC date text and time text, cut
   * at the space of `str(datetime)`.
   */
  function GetTimestamp(data: RtppmMessage): (r: Result<Timestamp, ParseError>)
    ensures r.Ok? <==>
      && data.rtppmData.Some? && data.rtppmData.value.snapshotTStamp.Some?
      && ParseInt(data.rtppmData.value.snapshotTStamp.value).Some?
      && FromTimestampMillis(ParseInt(data.rtppmData.value.snapshotTStamp.value).value).Some?
  {
    if data.rtppmData.None? then Err(MissingKey("RTPPMData"))
    else if data.rtppmData.value.snapshotTStamp.None? then Err(MissingKey("snapshotTStamp"))
    else
      var text := data.rtppmData.value.snapshotTStamp.value;
      match ParseInt(text)
      case None => Err(NotAnInteger(text))
      case Some(ms) =>
        match FromTimestampMillis(ms)
        case None => Err(TimestampOutOfRange(ms))
        case Some(dt) =>
          DateTimeTextSplits(dt);
          var pieces := Split(DateTimeText(dt), ' ');
          if |pieces| != 2 then Err(UnpackMismatch(|pieces|))
          else Ok(Timestamp(pieces[0], pieces[1]))
  }

  /**
   * The timestamp text names the instant `ms` to the millisecond: its date half reads back as
   * the UTC civil date, its time half as the time of day, and the two make up `ms` again. The
   * time half carries the `+00:00` offset, and a fraction exactly when `ms` is not a whole second.
   * An instant outside Python's years fails, and the unpacking of the split never does.
   */
  lemma GetTimestampMeaning(data: RtppmMessage, ms: int)
    requires data.rtppmData.Some? && data.rtppmData.value.snapshotTStamp.Some?
    requires ParseInt(data.rtppmData.value.snapshotTStamp.value) == Some(ms)
    ensures FromTimestampMillis(ms).None? ==> GetTimestamp(data) == Err(TimestampOutOfRange(ms))
    ensures FromTimestampMillis(ms).Some? ==>
      var dt := FromTimestampMillis(ms).value;
      && GetTimestamp(data) == Ok(Timestamp(DateText(dt.date), TimeText(dt)))
      && ParseDateText(DateText(dt.date)) == Some(dt.date)
      && ParseTimeText(TimeText(dt)) == Some((dt.hour, dt.minute, dt.second, dt.microsecond))
      && EpochMillis(dt) == ms
      && |DateText(dt.date)| == 10
      && (ms % 1000 == 0 <==> '.' !in TimeText(dt))
  {
    if FromTimestampMillis(ms).Some? {
      var dt := FromTimestampMillis(ms).value;
      DateTimeTextSplits(dt);
      DateTextRoundTrip(dt.date);
      TimeTextRoundTrip(dt);
      TimeTextFraction(dt);
    }
  }

  /** The operator entries of a message, when `RTPPMData.NationalPage.Operator` is there. */
  function OperatorEntries(data: RtppmMessage): Option<seq<OperatorEntry>>
  {
    if data.rtppmData.Some? && data.rtppmData.value.nationalPage.Some? then
      data.rtppmData.value.nationalPage.value.operators
    else
      None
  }

  /** The list comprehension of `get_ppm`: one record per entry, in order; the first bad entry raises. */
  function ParseEntries(entries: seq<OperatorEntry>, ts: Timestamp): (r: Result<seq<Record>, ParseError>)
    ensures r.Ok? <==> forall i :: 0 <= i < |entries| ==> CompleteEntry(entries[i])
    ensures r.Ok? ==> |r.value| == |entries|
    ensures r.Ok? ==> forall i :: 0 <= i < |entries| ==>
      r.value[i] == Record(entries[i].name.value, entries[i].ppm.value.text.value, ts.date, ts.time)
    ensures r.Err? ==> exists i :: 0 <= i < |entries| && ParseOperatorData(entries[i]) == Err(r.error)
  {
    if entries == [] then
      Ok([])
    else
      match ParseOperatorData(entries[0])
      case Err(e) => Err(e)
      case Ok(pair) =>
        match ParseEntries(entries[1..], ts)
        case Err(e) => Err(e)
        case Ok(rest) => Ok([Record(pair.0, pair.1, ts.date, ts.time)] + rest)
  }

  /**
   * `get_ppm`: the timestamp is read first, then the operator list. It succeeds exactly when
   * every key is there; then it gives one record per operator entry, in entry order, each with
   * the entry's name and PPM text and the one snapshot date and time shared by all of them.
   */
  function GetPpm(data: RtppmMessage): (r: Result<seq<Record>, ParseError>)
    ensures GetTimestamp(data).Err? ==> r == Err(GetTimestamp(data).error)
    ensures r.Ok? <==>
      && GetTimestamp(data).Ok?
      && OperatorEntries(data).Some?
      && forall i :: 0 <= i < |OperatorEntries(data).value| ==> CompleteEntry(OperatorEntries(data).value[i])
    ensures r.Ok? ==>
      var entries := OperatorEntries(data).value;
      var ts := GetTimestamp(data).value;
      && |r.value| == |entries|
      && forall i :: 0 <= i < |entries| ==>
           r.value[i] == Record(entries[i].name.value, entries[i].ppm.value.text.value, ts.date, ts.time)
  {
    match GetTimestamp(data)
    case Err(e) => Err(e)
    case Ok(ts) =>
      if data.rtppmData.None? then Err(MissingKey("RTPPMData"))
      else if data.rtppmData.value.nationalPage.None? then Err(MissingKey("NationalPage"))
      else if data.rtppmData.value.nationalPage.value.operators.None? then Err(MissingKey("Operator"))
      else ParseEntries(data.rtppmData.value.nationalPage.value.operators.value, ts)
  }

  /** The cells `writerow(item.values())` writes for a record: name, ppm, date, time. */
  function Cells(r: Record): Line
  {
    [r.name, r.ppm, r.date, r.time]
  }

  /** The lines written for `records`, one per record, in order. */
  function LinesOf(records: seq<Record>): (lines: seq<Line>)
    ensures |lines| == |records|
    ensures forall i :: 0 <= i < |records| ==> lines[i] == Cells(records[i])
  {
    if records == [] then [] else LinesOf(records[..|records| - 1]) + [Cells(records[|records| - 1])]
  }

  /**
   * `on_message`: decodes the frame, opens the log for appending (creating it), builds every
   * record before writing any, then writes one line per record. Every exception is caught, so the
   * method always returns: `Ok(n)` after writing `n` lines, or the error it logged. A message that
   * fails to parse writes nothing, and the lines already in the log are never changed.
   */
  method OnMessage(log: LogFile, body: Option<Body>) returns (outcome: Result<nat, ParseError>)
    requires log.Valid()
    modifies log
    ensures log.Valid()
    ensures body.None? ==> outcome == Err(NotJson) && unchanged(log)
    ensures body.Some? && body.value.rtppmDataMsgV1.None? ==>
      outcome == Err(MissingKey("RTPPMDataMsgV1")) && unchanged(log)
    ensures body.Some? && body.value.rtppmDataMsgV1.Some? ==>
      var parsed := GetPpm(body.value.rtppmDataMsgV1.value);
      && log.present
      && (parsed.Ok? ==> outcome == Ok(|parsed.value|) && log.lines == old(log.lines) + LinesOf(parsed.value))
      && (parsed.Err? ==> outcome == Err(parsed.error) && log.lines == old(log.lines))
  {
    if body.None? {
      return Err(NotJson);
    }
    if body.value.rtppmDataMsgV1.None? {
      return Err(MissingKey("RTPPMDataMsgV1"));
    }
    var message := body.value.rtppmDataMsgV1.value;
    log.OpenForAppend();
    var parsed := GetPpm(message);
    if parsed.Err? {
      return Err(parsed.error);
    }
    WriteRecords(log, parsed.value);
    outcome := Ok(|parsed.value|);
  }

  /** The loop of `on_message`: one `writerow` per record, in order. */
  method WriteRecords(log: LogFile, records: seq<Record>)
    requires log.present
    modifies log
    ensures log.Valid() && log.present
    ensures log.lines == old(log.lines) + LinesOf(records)
  {
    for i := 0 to |records|
      invariant log.Valid() && log.present
      invariant log.lines == old(log.lines) + LinesOf(records[..i])
    {
      log.WriteRow(Cells(records[i]));
      assert records[..i + 1][..i] == records[..i];
    }
    assert records[..|records|] == records;
  }

  /**
   * Appending then loading gives the appended records back field for field, in append order,
   * after the lines already there: the log's column order is the order in which `load_ppm_data`
   * names its columns. A cell reads back as missing only when the record's text was empty.
   */
  lemma {:induction false} AppendThenRead(lines: seq<Line>, records: seq<Record>)
    requires |lines| + |records| > 0
    ensures ReadCsv(Some(lines + LinesOf(records))).Ok?
    ensures var rows := ReadCsv(Some(lines + LinesOf(records))).value;
      && |rows| == |lines| + |records|
      && (forall i :: 0 <= i < |lines| ==> rows[i] == RowOf(lines[i]))
      && forall j :: 0 <= j < |records| ==>
           rows[|lines| + j] == Row(Cell(records[j].name), Cell(records[j].ppm), Cell(records[j].date), Cell(records[j].time))
  {
    var all := lines + LinesOf(records);
    assert all != [] by {
      assert |all| == |lines| + |records|;
    }
    forall j | 0 <= j < |records|
      ensures all[|lines| + j] == Cells(records[j])
    {
    }
  }
}
