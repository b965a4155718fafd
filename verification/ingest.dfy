/** The write path, `upload_sensor_data`: one reading from a device appended
    to its machine's table with a server-assigned timestamp. */
module Ingest {
  import opened Telemetry
  import opened Registry
  import opened DeltaEngine
  import opened Fleet

  /** The body a device posts, minus the table name: every measurement is a
      required float. */
  datatype Reading = Reading(voltage: real, current: real, frequency: real, pf: real, watt: real, totalWattHours: real)

  /** The row the INSERT writes; `at` is the database's `NOW()` moved to
      Asia/Taipei, never a client value. */
  function ToSample(reading: Reading, at: Instant): (r: Sample)
    ensures r.timestamp == at
    ensures r.voltage == Some(reading.voltage) && r.current == Some(reading.current)
    ensures r.frequency == Some(reading.frequency) && r.pf == Some(reading.pf)
    ensures r.watt == Some(reading.watt) && r.totalWattHours == Some(reading.totalWattHours)
  {
    Sample(at, Some(reading.voltage), Some(reading.current), Some(reading.frequency),
           Some(reading.pf), Some(reading.watt), Some(reading.totalWattHours))
  }

  /** `upload_sensor_data`: an unknown table name is refused with 400 before
      storage is touched; a storage failure is a 500 and writes nothing;
      otherwise exactly one row is appended to exactly one table. */
  function Upload(s: Storage, name: string, reading: Reading, now: Instant): (r: Result<Storage>)
    ensures !IsValid(name) ==> r == Err(InvalidTable)
    ensures IsValid(name) && (s.Down? || name !in s.tables) ==> r == Err(ServerError)
    ensures r.Ok? <==> IsValid(name) && s.Up? && name in s.tables
    ensures r.Ok? ==> r.value.Up?
    ensures r.Ok? ==> r.value.tables.Keys == s.tables.Keys
    ensures r.Ok? ==> r.value.tables[name] == s.tables[name] + [ToSample(reading, now)]
    ensures r.Ok? ==> forall other :: other in s.tables && other != name ==>
      r.value.tables[other] == s.tables[other]
  {
    if !IsValid(name) then Err(InvalidTable)
    else match Lookup(s, name)
      case Err(e) => Err(e)
      case Ok(t) => Ok(Up(s.tables[name := t + [ToSample(reading, now)]]))
  }

  /** The server clock moving forward keeps a table chronological. */
  lemma UploadKeepsChronological(s: Storage, name: string, reading: Reading, now: Instant)
    requires Upload(s, name, reading, now).Ok?
    requires Chronological(s.tables[name])
    requires forall j :: 0 <= j < |s.tables[name]| ==> s.tables[name][j].timestamp < now
    ensures Chronological(Upload(s, name, reading, now).value.tables[name])
  {
  }

  /** An upload moves the fleet's latest total by exactly the change of that
      table's newest counter, which is now the uploaded reading. */
  lemma {:induction false} SumLatestAfterUpdate(tables: map<string, Table>, names: seq<string>, name: string, t: Table, before: real, after: real)
    requires forall i, j :: 0 <= i < j < |names| ==> names[i] != names[j]
    requires name in names && name in tables
    requires LatestContribution(tables[name]) == Ok(before)
    requires LatestContribution(t) == Ok(after)
    requires SumLatest(tables, names).Ok?
    ensures SumLatest(tables[name := t], names) == Ok(SumLatest(tables, names).value - before + after)
    decreases |names|
  {
    var init, last := names[..|names| - 1], names[|names| - 1];
    assert names == init + [last];
    var tables' := tables[name := t];
    assert SumLatest(tables, init).Ok?;
    if last == name {
      assert name !in init;
      SumLatestIgnoresUnlistedTable(tables, init, name, t);
    } else {
      SumLatestAfterUpdate(tables, init, name, t, before, after);
      assert tables'[last] == tables[last];
    }
  }

  /** After a successful upload at a server time no earlier than any stored
      row, the fleet's latest total is the old total with the table's
      previous newest counter replaced by the new reading. */
  lemma LatestTotalAfterUpload(s: Storage, name: string, reading: Reading, now: Instant)
    requires Upload(s, name, reading, now).Ok?
    requires TotalLatestKwh(s).Ok?
    requires forall j :: 0 <= j < |s.tables[name]| ==> s.tables[name][j].timestamp <= now
    ensures var t := s.tables[name];
      var before := if |t| == 0 then 0.0 else t[Latest(t).value].totalWattHours.value;
      TotalLatestKwh(Upload(s, name, reading, now).value) ==
        Ok(TotalLatestKwh(s).value - before + reading.totalWattHours)
  {
    ValidTablesDistinct();
    var t := s.tables[name];
    var i :| 0 <= i < |ValidTables| && ValidTables[i] == name;
    assert LatestContribution(t).Ok?;
    var before := if |t| == 0 then 0.0 else t[Latest(t).value].totalWattHours.value;
    var t' := t + [ToSample(reading, now)];
    LatestAfterAppend(t, ToSample(reading, now));
    SumLatestAfterUpdate(s.tables, ValidTables, name, t', before, reading.totalWattHours);
  }
}
