/** The query endpoints over the delta engine and the series projector. The
    caller is already authenticated; a client's ISO 8601 instant arrives here
    already parsed to UTC whole seconds, or as `None` when it does not parse. */
module Endpoints {
  import opened Telemetry
  import opened Registry
  import opened Clock
  import opened DeltaEngine
  import opened Chart

  /** `get_custom_watt_hours`: allow-list check, then both instants parsed and
      moved to Taipei time, then the difference; no data in the window is a
      404. */
  function CustomWattHours(s: Storage, name: string, startUtc: Option<int>, endUtc: Option<int>): (r: Result<real>)
    ensures !IsValid(name) ==> r == Err(InvalidTable)
    ensures IsValid(name) && (startUtc.None? || endUtc.None?) ==> r == Err(InvalidTimeFormat)
    ensures r.Ok? ==> s.Up? && name in s.tables && startUtc.Some? && endUtc.Some?
    ensures r.Ok? ==>
      Difference(s.tables[name], ToTaipei(startUtc.value), ToTaipei(endUtc.value)) == Ok(Some(r.value))
    ensures forall d ::
      (&& IsValid(name) && startUtc.Some? && endUtc.Some? && s.Up? && name in s.tables
       && Difference(s.tables[name], ToTaipei(startUtc.value), ToTaipei(endUtc.value)) == Ok(Some(d)))
      ==> r == Ok(d)
    ensures r == Err(NotFound) <==>
      IsValid(name) && startUtc.Some? && endUtc.Some? && s.Up? && name in s.tables &&
      var t := s.tables[name];
      (forall j :: 0 <= j < |t| ==> t[j].timestamp < ToTaipei(startUtc.value)) ||
      (forall j :: 0 <= j < |t| ==> t[j].timestamp > ToTaipei(endUtc.value))
    ensures IsValid(name) && startUtc.Some? && endUtc.Some? && r.Err? ==> r.error in {NotFound, ServerError}
  {
    if !IsValid(name) then Err(InvalidTable)
    else if startUtc.None? || endUtc.None? then Err(InvalidTimeFormat)
    else
      var start, end := ToTaipei(startUtc.value), ToTaipei(endUtc.value);
      match WattHoursDifference(s, name, DateTime(start), DateTime(end))
      case Err(e) => Err(e)
      case Ok(None) => Err(NotFound)
      case Ok(Some(kwh)) => Ok(kwh)
  }

  /** `get_chart_data`: allow-list check, then a connection is taken before
      the instants are parsed, so both a storage failure and an unparsable
      instant end as 500 here; then the window's rows are projected. */
  method ChartData(s: Storage, name: string, startUtc: Option<int>, endUtc: Option<int>) returns (r: Result<seq<Point>>)
    ensures !IsValid(name) ==> r == Err(InvalidTable)
    ensures IsValid(name) && (s.Down? || startUtc.None? || endUtc.None?) ==> r == Err(ServerError)
    ensures r.Ok? <==> IsValid(name) && s.Up? && name in s.tables && startUtc.Some? && endUtc.Some?
    ensures r.Ok? ==>
      r.value == Series(WindowRows(s.tables[name], ToTaipei(startUtc.value), ToTaipei(endUtc.value)))
    ensures IsValid(name) && r.Err? ==> r.error == ServerError
  {
    if !IsValid(name) {
      return Err(InvalidTable);
    }
    if s.Down? || startUtc.None? || endUtc.None? {
      return Err(ServerError);
    }
    var start, end := ToTaipei(startUtc.value), ToTaipei(endUtc.value);
    match Lookup(s, name)
    case Err(e) =>
      r := Err(e);
    case Ok(t) =>
      var points := ProjectSeries(WindowRows(t, start, end));
      r := Ok(points);
  }

  /** `get_shift_watt_hours` as written: the window is formatted to strings
      before it is handed to `get_total_watt_hours_difference`, which calls
      `strftime` on them. */
  function ShiftWattHoursAsWritten(s: Storage, kind: string, name: string, now: LocalTime): (r: Result<real>)
    ensures !IsValid(name) ==> r == Err(InvalidTable)
    ensures IsValid(name) && ResolveShift(kind, now).Err? ==> r == Err(InvalidShift)
    ensures IsValid(name) && ResolveShift(kind, now).Ok? ==> r == Err(ServerError)
  {
    if !IsValid(name) then Err(InvalidTable)
    else match ResolveShift(kind, now)
      case Err(e) => Err(e)
      case Ok(w) =>
        match WattHoursDifference(s, name, Formatted(w.start), Formatted(w.end))
        case Err(e) => Err(e)
        case Ok(None) => Err(NotFound)
        case Ok(Some(kwh)) => Ok(kwh)
  }

  /** `get_shift_watt_hours` with the window handed over as datetimes, as
      `get_custom_watt_hours` does: the shift's consumption, or 404 when the
      shift holds no data. */
  function ShiftWattHours(s: Storage, kind: string, name: string, now: LocalTime): (r: Result<real>)
    ensures !IsValid(name) ==> r == Err(InvalidTable)
    ensures IsValid(name) && ResolveShift(kind, now).Err? ==> r == Err(InvalidShift)
    ensures r.Ok? ==> s.Up? && name in s.tables && ResolveShift(kind, now).Ok?
    ensures r.Ok? ==>
      var w := ResolveShift(kind, now).value;
      Difference(s.tables[name], w.start, w.end) == Ok(Some(r.value))
    ensures forall d ::
      (&& IsValid(name) && ResolveShift(kind, now).Ok? && s.Up? && name in s.tables
       && Difference(s.tables[name], ResolveShift(kind, now).value.start, ResolveShift(kind, now).value.end) == Ok(Some(d)))
      ==> r == Ok(d)
    ensures r == Err(NotFound) <==>
      IsValid(name) && ResolveShift(kind, now).Ok? && s.Up? && name in s.tables &&
      var w := ResolveShift(kind, now).value;
      var t := s.tables[name];
      (forall j :: 0 <= j < |t| ==> t[j].timestamp < w.start) ||
      (forall j :: 0 <= j < |t| ==> t[j].timestamp > w.end)
    ensures IsValid(name) && ResolveShift(kind, now).Ok? && r.Err? ==> r.error in {NotFound, ServerError}
  {
    if !IsValid(name) then Err(InvalidTable)
    else match ResolveShift(kind, now)
      case Err(e) => Err(e)
      case Ok(w) =>
        match WattHoursDifference(s, name, DateTime(w.start), DateTime(w.end))
        case Err(e) => Err(e)
        case Ok(None) => Err(NotFound)
        case Ok(Some(kwh)) => Ok(kwh)
  }

  /** The shift endpoint as written never answers with a figure, whatever
      storage holds. */
  lemma ShiftAsWrittenNeverSucceeds(s: Storage, kind: string, name: string, now: LocalTime)
    ensures ShiftWattHoursAsWritten(s, kind, name, now).Err?
  {
  }

  /** A concrete day: yesterday's day shift of `sensor_data1` used 100 Wh,
      which the corrected endpoint reports and the endpoint as written turns
      into a 500. */
  lemma ShiftAsWrittenLosesDayShift()
    ensures var yesterday := 0;
      var t := [Meter(yesterday * SecondsPerDay + 8 * SecondsPerHour, 100.0),
                Meter(yesterday * SecondsPerDay + 12 * SecondsPerHour, 150.0),
                Meter(yesterday * SecondsPerDay + 17 * SecondsPerHour, 200.0)];
      var s := Up(map["sensor_data1" := t]);
      var now := LocalTime(yesterday + 1, 10 * SecondsPerHour, 0);
      && ShiftWattHours(s, "day_shift", "sensor_data1", now) == Ok(100.0)
      && ShiftWattHoursAsWritten(s, "day_shift", "sensor_data1", now) == Err(ServerError)
  {
    var t := [Meter(8 * SecondsPerHour, 100.0), Meter(12 * SecondsPerHour, 150.0),
              Meter(17 * SecondsPerHour, 200.0)];
    var w := ResolveShift("day_shift", LocalTime(1, 10 * SecondsPerHour, 0)).value;
    assert w.start == 8 * SecondsPerHour && w.end == 17 * SecondsPerHour;
    FirstAtOrAfterIs(t, w.start, 0);
    LastAtOrBeforeIs(t, w.end, 2);
  }
}
