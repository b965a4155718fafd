/** The delta engine: the watt-hour consumption of one machine table over a
    window, from the first row at or after the window's start and the last
    row at or before its end. */
module DeltaEngine {
  import opened Telemetry

  /** The row `WHERE timestamp >= start ORDER BY timestamp ASC LIMIT 1`
      returns, as an index: a row at or after `start` with the smallest
      timestamp. The database may return any of several rows sharing that
      timestamp; the model takes the first of them in storage order. */
  function FirstAtOrAfter(t: Table, start: Instant): (r: Option<nat>)
    ensures r.None? <==> forall j :: 0 <= j < |t| ==> t[j].timestamp < start
    ensures r.Some? ==> r.value < |t| && t[r.value].timestamp >= start
    ensures r.Some? ==> forall j :: 0 <= j < |t| && t[j].timestamp >= start ==>
      t[r.value].timestamp <= t[j].timestamp
    ensures r.Some? ==> forall j :: 0 <= j < r.value && t[j].timestamp >= start ==>
      t[r.value].timestamp < t[j].timestamp
    decreases |t|
  {
    if |t| == 0 then None
    else
      var n := |t| - 1;
      var qualifies := t[n].timestamp >= start;
      match FirstAtOrAfter(t[..n], start)
      case None => if qualifies then Some(n) else None
      case Some(i) => if qualifies && t[n].timestamp < t[i].timestamp then Some(n) else Some(i)
  }

  /** The row `WHERE timestamp <= end ORDER BY timestamp DESC LIMIT 1`
      returns, as an index: a row at or before `end` with the largest
      timestamp; among rows sharing it the model takes the last in storage
      order. */
  function LastAtOrBefore(t: Table, end: Instant): (r: Option<nat>)
    ensures r.None? <==> forall j :: 0 <= j < |t| ==> t[j].timestamp > end
    ensures r.Some? ==> r.value < |t| && t[r.value].timestamp <= end
    ensures r.Some? ==> forall j :: 0 <= j < |t| && t[j].timestamp <= end ==>
      t[j].timestamp <= t[r.value].timestamp
    ensures r.Some? ==> forall j :: r.value < j < |t| && t[j].timestamp <= end ==>
      t[j].timestamp < t[r.value].timestamp
    decreases |t|
  {
    if |t| == 0 then None
    else
      var n := |t| - 1;
      var qualifies := t[n].timestamp <= end;
      match LastAtOrBefore(t[..n], end)
      case None => if qualifies then Some(n) else None
      case Some(i) => if qualifies && t[n].timestamp >= t[i].timestamp then Some(n) else Some(i)
  }

  /** The row `ORDER BY timestamp DESC LIMIT 1` returns: a row with the
      largest timestamp, the last of them in storage order. */
  function Latest(t: Table): (r: Option<nat>)
    ensures r.None? <==> |t| == 0
    ensures r.Some? ==> r.value < |t|
    ensures r.Some? ==> forall j :: 0 <= j < |t| ==> t[j].timestamp <= t[r.value].timestamp
    ensures r.Some? ==> forall j :: r.value < j < |t| ==> t[j].timestamp < t[r.value].timestamp
    decreases |t|
  {
    if |t| == 0 then None
    else
      var n := |t| - 1;
      match Latest(t[..n])
      case None => Some(n)
      case Some(i) => if t[n].timestamp >= t[i].timestamp then Some(n) else Some(i)
  }

  /** The declarative meaning of the start row: it is at or after `start`
      and no row at or after `start` is older. */
  ghost predicate IsStartRow(t: Table, start: Instant, i: int) {
    && 0 <= i < |t|
    && t[i].timestamp >= start
    && forall j :: 0 <= j < |t| && t[j].timestamp >= start ==> t[i].timestamp <= t[j].timestamp
  }

  /** The declarative meaning of the end row: it is at or before `end` and
      no row at or before `end` is newer. */
  ghost predicate IsEndRow(t: Table, end: Instant, k: int) {
    && 0 <= k < |t|
    && t[k].timestamp <= end
    && forall j :: 0 <= j < |t| && t[j].timestamp <= end ==> t[j].timestamp <= t[k].timestamp
  }

  /** The start row is an earliest row at or after `start`, and on a
      chronological table (no timestamp shared) it is the only one. */
  lemma StartRowIsEarliest(t: Table, start: Instant)
    ensures forall i :: FirstAtOrAfter(t, start) == Some(i) ==> IsStartRow(t, start, i)
    ensures Chronological(t) ==>
      forall i :: FirstAtOrAfter(t, start) == Some(i) <==> IsStartRow(t, start, i)
  {
  }

  /** The end row is a latest row at or before `end`, and on a
      chronological table it is the only one. */
  lemma EndRowIsLatest(t: Table, end: Instant)
    ensures forall k :: LastAtOrBefore(t, end) == Some(k) ==> IsEndRow(t, end, k)
    ensures Chronological(t) ==>
      forall k :: LastAtOrBefore(t, end) == Some(k) <==> IsEndRow(t, end, k)
  {
  }

  /** The sample the start query returns, if any. */
  function StartRow(t: Table, start: Instant): (r: Option<Sample>)
    ensures r.None? <==> FirstAtOrAfter(t, start).None?
  {
    match FirstAtOrAfter(t, start)
    case None => None
    case Some(i) => Some(t[i])
  }

  /** The sample the end query returns, if any. */
  function EndRow(t: Table, end: Instant): (r: Option<Sample>)
    ensures r.None? <==> LastAtOrBefore(t, end).None?
  {
    match LastAtOrBefore(t, end)
    case None => None
    case Some(k) => Some(t[k])
  }

  /** The body of `get_total_watt_hours_difference` once both bounds are
      datetimes: `Ok(None)` when either boundary row is missing, the end
      row's counter minus the start row's counter otherwise, and 500 when a
      selected counter is NULL (the subtraction raises). A negative
      difference is returned as it is. */
  function Difference(t: Table, start: Instant, end: Instant): (r: Result<Option<real>>)
    ensures r == Ok(None) <==>
      (forall j :: 0 <= j < |t| ==> t[j].timestamp < start) ||
      (forall j :: 0 <= j < |t| ==> t[j].timestamp > end)
    ensures r.Err? ==> r.error == ServerError
  {
    match (StartRow(t, start), EndRow(t, end))
    case (Some(first), Some(last)) =>
      if first.totalWattHours.Some? && last.totalWattHours.Some? then
        Ok(Some(last.totalWattHours.value - first.totalWattHours.value))
      else
        Err(ServerError)
    case _ => Ok(None)
  }

  /** The difference against an independent description of the two rows: on
      a chronological table it is the newest in-window counter minus the
      oldest in-window counter, whatever their sign. */
  lemma DifferenceOfBoundaryRows(t: Table, start: Instant, end: Instant, i: int, k: int)
    requires Chronological(t)
    requires IsStartRow(t, start, i) && IsEndRow(t, end, k)
    ensures t[i].totalWattHours.Some? && t[k].totalWattHours.Some? ==>
      Difference(t, start, end) == Ok(Some(t[k].totalWattHours.value - t[i].totalWattHours.value))
    ensures t[i].totalWattHours.None? || t[k].totalWattHours.None? ==>
      Difference(t, start, end) == Err(ServerError)
  {
  }

  /** The start row is determined by its defining property: the smallest
      timestamp at or after `start`, and no earlier row in storage order
      with that timestamp. */
  lemma FirstAtOrAfterIs(t: Table, start: Instant, i: nat)
    requires i < |t| && t[i].timestamp >= start
    requires forall j :: 0 <= j < |t| && t[j].timestamp >= start ==> t[i].timestamp <= t[j].timestamp
    requires forall j :: 0 <= j < i && t[j].timestamp >= start ==> t[i].timestamp < t[j].timestamp
    ensures FirstAtOrAfter(t, start) == Some(i)
  {
  }

  /** The end row is determined by its defining property: the largest
      timestamp at or before `end`, and no later row in storage order with
      that timestamp. */
  lemma LastAtOrBeforeIs(t: Table, end: Instant, i: nat)
    requires i < |t| && t[i].timestamp <= end
    requires forall j :: 0 <= j < |t| && t[j].timestamp <= end ==> t[j].timestamp <= t[i].timestamp
    requires forall j :: i < j < |t| && t[j].timestamp <= end ==> t[j].timestamp < t[i].timestamp
    ensures LastAtOrBefore(t, end) == Some(i)
  {
  }

  /** The newest row is the end row of the window that closes at its own
      timestamp. */
  lemma LatestIsLastAtOrBefore(t: Table)
    requires |t| > 0
    ensures LastAtOrBefore(t, t[Latest(t).value].timestamp) == Latest(t)
  {
    LastAtOrBeforeIs(t, t[Latest(t).value].timestamp, Latest(t).value);
  }

  /** A row appended no earlier than every stored row becomes the newest. */
  lemma LatestAfterAppend(t: Table, x: Sample)
    requires forall j :: 0 <= j < |t| ==> t[j].timestamp <= x.timestamp
    ensures Latest(t + [x]) == Some(|t|)
  {
    assert (t + [x])[..|t|] == t;
  }

  /** `u` is `t` with its `k`-th row deleted. */
  ghost predicate RowDeleted(t: Table, k: int, u: Table) {
    && 0 <= k < |t|
    && |u| == |t| - 1
    && (forall j :: 0 <= j < k ==> u[j] == t[j])
    && (forall j :: k <= j < |u| ==> u[j] == t[j + 1])
  }

  /** Every row of `u` is a row of `t`, one position later from `k` on. */
  function Origin(k: int, j: int): int {
    if j < k then j else j + 1
  }

  /** Deleting a row other than the start row keeps the same start row. */
  lemma StartRowAfterDeletion(t: Table, k: nat, u: Table, start: Instant)
    requires RowDeleted(t, k, u) && FirstAtOrAfter(t, start) != Some(k)
    ensures StartRow(u, start) == StartRow(t, start)
  {
    assert forall j :: 0 <= j < |u| ==> u[j] == t[Origin(k, j)];
    var r := FirstAtOrAfter(t, start);
    if r.None? {
      assert FirstAtOrAfter(u, start).None?;
    } else {
      var i := r.value;
      var i' := if k < i then i - 1 else i;
      assert Origin(k, i') == i;
      forall j | 0 <= j < |u| && u[j].timestamp >= start
        ensures u[i'].timestamp <= u[j].timestamp
      {
        assert u[j] == t[Origin(k, j)];
      }
      forall j | 0 <= j < i' && u[j].timestamp >= start
        ensures u[i'].timestamp < u[j].timestamp
      {
        assert u[j] == t[Origin(k, j)] && Origin(k, j) < i;
      }
      FirstAtOrAfterIs(u, start, i');
    }
  }

  /** Deleting a row other than the end row keeps the same end row. */
  lemma EndRowAfterDeletion(t: Table, k: nat, u: Table, end: Instant)
    requires RowDeleted(t, k, u) && LastAtOrBefore(t, end) != Some(k)
    ensures EndRow(u, end) == EndRow(t, end)
  {
    assert forall j :: 0 <= j < |u| ==> u[j] == t[Origin(k, j)];
    var r := LastAtOrBefore(t, end);
    if r.None? {
      assert LastAtOrBefore(u, end).None?;
    } else {
      var i := r.value;
      var i' := if k < i then i - 1 else i;
      assert Origin(k, i') == i;
      forall j | 0 <= j < |u| && u[j].timestamp <= end
        ensures u[j].timestamp <= u[i'].timestamp
      {
        assert u[j] == t[Origin(k, j)];
      }
      forall j | i' < j < |u| && u[j].timestamp <= end
        ensures u[j].timestamp < u[i'].timestamp
      {
        assert u[j] == t[Origin(k, j)] && Origin(k, j) > i;
      }
      LastAtOrBeforeIs(u, end, i');
    }
  }

  /** Only the two boundary rows matter: deleting any other row (or, read
      the other way, inserting a row that does not become a boundary row)
      leaves the difference unchanged. */
  lemma DifferenceIgnoresOtherRows(t: Table, k: nat, u: Table, start: Instant, end: Instant)
    requires RowDeleted(t, k, u)
    requires FirstAtOrAfter(t, start) != Some(k) && LastAtOrBefore(t, end) != Some(k)
    ensures Difference(u, start, end) == Difference(t, start, end)
  {
    StartRowAfterDeletion(t, k, u, start);
    EndRowAfterDeletion(t, k, u, end);
  }

  /** A bound handed to `get_total_watt_hours_difference`: a datetime, or
      the string `strftime` already made of one. The function itself calls
      `strftime` on both bounds, which raises on a string. */
  datatype Bound = DateTime(at: Instant) | Formatted(at: Instant)

  /** `get_total_watt_hours_difference`: take a pooled connection, format
      both bounds, run the two boundary queries on the named table and
      subtract. Every exception inside (no connection, a bound that is
      already a string, a table the database lacks, a NULL counter) becomes
      a 500. The table name is not checked here; callers check it. */
  function WattHoursDifference(s: Storage, name: string, start: Bound, end: Bound): (r: Result<Option<real>>)
    ensures r.Err? ==> r.error == ServerError
    ensures s.Down? || start.Formatted? || end.Formatted? ==> r == Err(ServerError)
    ensures s.Up? && name !in s.tables ==> r == Err(ServerError)
    ensures s.Up? && name in s.tables && start.DateTime? && end.DateTime? ==>
      r == Difference(s.tables[name], start.at, end.at)
  {
    if s.Down? then Err(ServerError)
    else if start.Formatted? || end.Formatted? then Err(ServerError)
    else match Lookup(s, name)
      case Err(e) => Err(e)
      case Ok(t) => Difference(t, start.at, end.at)
  }

  /** A row carrying only a timestamp and a cumulative counter. */
  function Meter(at: Instant, wattHours: real): Sample {
    Sample(at, None, None, None, None, None, Some(wattHours))
  }

  /** Four readings of one day: 100 at 08:00, 150 at 12:00, a reset dip
      to 140 at 16:00 and 200 at 17:00. */
  function ResetDay(): (t: Table)
    ensures |t| == 4 && Chronological(t)
  {
    [Meter(8 * 3600, 100.0), Meter(12 * 3600, 150.0),
     Meter(16 * 3600, 140.0), Meter(17 * 3600, 200.0)]
  }

  /** A meter reset between the boundary rows is invisible when only the
      endpoints are compared: 08:00 to 17:00 gives 100. */
  lemma ResetBetweenBoundariesIsInvisible()
    ensures Difference(ResetDay(), 8 * 3600, 17 * 3600) == Ok(Some(100.0))
  {
    var t := ResetDay();
    FirstAtOrAfterIs(t, 8 * 3600, 0);
    LastAtOrBeforeIs(t, 17 * 3600, 3);
  }

  /** A window that ends on the dip yields a negative difference, reported
      as it is, not clamped. */
  lemma ResetAtBoundaryIsNegative()
    ensures Difference(ResetDay(), 12 * 3600, 16 * 3600) == Ok(Some(-10.0))
  {
    var t := ResetDay();
    FirstAtOrAfterIs(t, 12 * 3600, 1);
    LastAtOrBeforeIs(t, 16 * 3600, 2);
  }

  /** A window after the last reading has no start row: no result. */
  lemma WindowAfterDataIsEmpty()
    ensures Difference(ResetDay(), 18 * 3600, 20 * 3600) == Ok(None)
  {
  }

  /** Selection goes by timestamp, not by storage position: a table whose
      rows were stored newest first still yields the forward difference. */
  lemma OutOfOrderScenario()
    ensures var t := [Meter(20, 5.0), Meter(10, 1.0)];
      && Difference(t, 0, 30) == Ok(Some(4.0))
      && Latest(t) == Some(0)
  {
    var t := [Meter(20, 5.0), Meter(10, 1.0)];
    FirstAtOrAfterIs(t, 0, 1);
    LastAtOrBeforeIs(t, 30, 0);
  }
}
