/** The fleet totals: sums over every table of the allow-list, in its
    declared order. */
module Fleet {
  import opened Telemetry
  import opened Registry
  import opened Clock
  import opened DeltaEngine

  /** One table's share of `get_total_daily_kwh`: newest counter minus the
      first counter at or after `open`, when both rows exist and the
      difference is not negative; 0 when a row is missing or the meter went
      backwards; 500 when a selected counter is NULL (the comparison raises). */
  function DailyContribution(t: Table, open: Instant): (r: Result<real>)
    ensures r.Ok? ==> r.value >= 0.0
    ensures r.Err? ==> r.error == ServerError
    ensures FirstAtOrAfter(t, open).None? ==> r == Ok(0.0)
  {
    match (FirstAtOrAfter(t, open), Latest(t))
    case (Some(i), Some(k)) =>
      var first, latest := t[i].totalWattHours, t[k].totalWattHours;
      if first.None? || latest.None? then Err(ServerError)
      else if latest.value >= first.value then Ok(latest.value - first.value)
      else Ok(0.0)
    case _ => Ok(0.0)
  }

  /** The daily contribution is the delta engine's difference over the
      open-ended window from `open` to the newest row, with a negative
      difference (a meter reset) counted as 0. */
  lemma DailyContributionIsClampedDifference(t: Table, open: Instant)
    requires |t| > 0
    ensures DailyContribution(t, open) ==
      match Difference(t, open, t[Latest(t).value].timestamp)
      case Err(e) => Err(e)
      case Ok(None) => Ok(0.0)
      case Ok(Some(d)) => Ok(if d >= 0.0 then d else 0.0)
  {
    LatestIsLastAtOrBefore(t);
  }

  /** One step of a fleet loop: the running sum plus one table's share; a
      failure of either ends the request with 500. */
  function AddShare(sum: Result<real>, share: Result<real>): (r: Result<real>)
    ensures r.Ok? <==> sum.Ok? && share.Ok?
    ensures r.Ok? ==> r.value == sum.value + share.value
    ensures r.Err? ==> r.error == ServerError
  {
    if sum.Ok? && share.Ok? then Ok(sum.value + share.value) else Err(ServerError)
  }

  /** The share of one listed table in the daily loop; a table missing from
      the database raises. */
  function DailyShare(tables: map<string, Table>, name: string, open: Instant): (r: Result<real>)
    ensures r.Ok? <==> name in tables && DailyContribution(tables[name], open).Ok?
    ensures r.Ok? ==> r.value == DailyContribution(tables[name], open).value
    ensures r.Err? ==> r.error == ServerError
  {
    if name in tables then DailyContribution(tables[name], open) else Err(ServerError)
  }

  /** The running sum of the daily loop over `names`, in order; the first
      table that raises ends the whole request with 500. */
  function SumDaily(tables: map<string, Table>, names: seq<string>, open: Instant): (r: Result<real>)
    ensures r.Ok? ==> r.value >= 0.0
    ensures r.Err? ==> r.error == ServerError
    ensures r.Ok? <==> forall i :: 0 <= i < |names| ==>
      names[i] in tables && DailyContribution(tables[names[i]], open).Ok?
    ensures |names| == 1 ==>
      r == if names[0] in tables then DailyContribution(tables[names[0]], open) else Err(ServerError)
    decreases |names|
  {
    if |names| == 0 then Ok(0.0)
    else
      var init := names[..|names| - 1];
      assert forall i :: 0 <= i < |init| ==> init[i] == names[i];
      AddShare(SumDaily(tables, init, open), DailyShare(tables, names[|names| - 1], open))
  }

  /** Adding shares is associative, so a split of the loop can be summed
      part by part. */
  lemma AddShareAssociative(x: Result<real>, y: Result<real>, z: Result<real>)
    ensures AddShare(AddShare(x, y), z) == AddShare(x, AddShare(y, z))
  {
  }

  /** The daily sum is additive over any split of the table list. */
  lemma {:induction false} SumDailyConcat(tables: map<string, Table>, a: seq<string>, b: seq<string>, open: Instant)
    ensures SumDaily(tables, a + b, open) == AddShare(SumDaily(tables, a, open), SumDaily(tables, b, open))
    decreases |b|
  {
    if |b| == 0 {
      assert a + b == a;
    } else {
      var init, last := b[..|b| - 1], b[|b| - 1];
      var ab := a + b;
      assert ab[..|ab| - 1] == a + init && ab[|ab| - 1] == last;
      var share := DailyShare(tables, last, open);
      assert SumDaily(tables, ab, open) == AddShare(SumDaily(tables, a + init, open), share);
      assert SumDaily(tables, b, open) == AddShare(SumDaily(tables, init, open), share);
      SumDailyConcat(tables, a, init, open);
      AddShareAssociative(SumDaily(tables, a, open), SumDaily(tables, init, open), share);
    }
  }

  /** `get_total_daily_kwh` at time `now`. Before 08:00 it answers 0 before
      asking for a connection, so storage is not consulted at all. */
  function TotalDailyKwh(s: Storage, now: LocalTime): (r: Result<real>)
    ensures now.second < OpeningHour * SecondsPerHour ==> r == Ok(0.0)
    ensures now.second >= OpeningHour * SecondsPerHour && s.Down? ==> r == Err(ServerError)
    ensures r.Ok? ==> r.value >= 0.0
    ensures r.Err? ==> r.error == ServerError
    ensures BusinessOpen(now).Some? && s.Up? ==>
      r == SumDaily(s.tables, ValidTables, BusinessOpen(now).value)
  {
    match BusinessOpen(now)
    case None => Ok(0.0)
    case Some(open) =>
      if s.Down? then Err(ServerError) else SumDaily(s.tables, ValidTables, open)
  }

  /** One table's share of `get_total_latest_kwh`: its newest counter, 0 for
      an empty table, 500 for a NULL counter (the addition raises). */
  function LatestContribution(t: Table): (r: Result<real>)
    ensures |t| == 0 ==> r == Ok(0.0)
    ensures |t| > 0 ==> (r.Ok? <==> t[Latest(t).value].totalWattHours.Some?)
    ensures |t| > 0 && r.Ok? ==> r.value == t[Latest(t).value].totalWattHours.value
    ensures r.Err? ==> r.error == ServerError
  {
    match Latest(t)
    case None => Ok(0.0)
    case Some(k) =>
      if t[k].totalWattHours.Some? then Ok(t[k].totalWattHours.value) else Err(ServerError)
  }

  /** The share of one listed table in the latest-value loop. */
  function LatestShare(tables: map<string, Table>, name: string): (r: Result<real>)
    ensures r.Ok? <==> name in tables && LatestContribution(tables[name]).Ok?
    ensures r.Ok? ==> r.value == LatestContribution(tables[name]).value
    ensures r.Err? ==> r.error == ServerError
  {
    if name in tables then LatestContribution(tables[name]) else Err(ServerError)
  }

  /** The running sum of the latest-value loop over `names`, in order. */
  function SumLatest(tables: map<string, Table>, names: seq<string>): (r: Result<real>)
    ensures r.Err? ==> r.error == ServerError
    ensures r.Ok? <==> forall i :: 0 <= i < |names| ==>
      names[i] in tables && LatestContribution(tables[names[i]]).Ok?
    ensures |names| == 1 ==>
      r == if names[0] in tables then LatestContribution(tables[names[0]]) else Err(ServerError)
    decreases |names|
  {
    if |names| == 0 then Ok(0.0)
    else
      var init := names[..|names| - 1];
      assert forall i :: 0 <= i < |init| ==> init[i] == names[i];
      AddShare(SumLatest(tables, init), LatestShare(tables, names[|names| - 1]))
  }

  /** The latest-value sum is additive over any split of the table list:
      the visiting order only decides which failing table raises first. */
  lemma {:induction false} SumLatestConcat(tables: map<string, Table>, a: seq<string>, b: seq<string>)
    ensures SumLatest(tables, a + b) == AddShare(SumLatest(tables, a), SumLatest(tables, b))
    decreases |b|
  {
    if |b| == 0 {
      assert a + b == a;
    } else {
      var init, last := b[..|b| - 1], b[|b| - 1];
      var ab := a + b;
      assert ab[..|ab| - 1] == a + init && ab[|ab| - 1] == last;
      var share := LatestShare(tables, last);
      assert SumLatest(tables, ab) == AddShare(SumLatest(tables, a + init), share);
      assert SumLatest(tables, b) == AddShare(SumLatest(tables, init), share);
      SumLatestConcat(tables, a, init);
      AddShareAssociative(SumLatest(tables, a), SumLatest(tables, init), share);
    }
  }

  /** `get_total_latest_kwh`: the sum of every allow-listed table's newest
      cumulative counter, without any unit conversion. */
  function TotalLatestKwh(s: Storage): (r: Result<real>)
    ensures s.Down? ==> r == Err(ServerError)
    ensures r.Ok? <==> s.Up? && forall i :: 0 <= i < |ValidTables| ==>
      ValidTables[i] in s.tables && LatestContribution(s.tables[ValidTables[i]]).Ok?
    ensures s.Up? ==> r == SumLatest(s.tables, ValidTables)
  {
    if s.Down? then Err(ServerError) else SumLatest(s.tables, ValidTables)
  }

  /** Only the allow-listed tables are summed: a table outside the list,
      whatever it holds, does not change the running latest-value sum. */
  lemma {:induction false} SumLatestIgnoresUnlistedTable(tables: map<string, Table>, names: seq<string>, name: string, t: Table)
    requires name !in names
    ensures SumLatest(tables[name := t], names) == SumLatest(tables, names)
    decreases |names|
  {
    if |names| > 0 {
      var init, last := names[..|names| - 1], names[|names| - 1];
      assert names == init + [last];
      assert name !in init && last != name;
      SumLatestIgnoresUnlistedTable(tables, init, name, t);
      assert (last in tables[name := t]) == (last in tables);
      assert last in tables ==> tables[name := t][last] == tables[last];
    }
  }

  /** The same for the running daily sum. */
  lemma {:induction false} SumDailyIgnoresUnlistedTable(tables: map<string, Table>, names: seq<string>, name: string, t: Table, open: Instant)
    requires name !in names
    ensures SumDaily(tables[name := t], names, open) == SumDaily(tables, names, open)
    decreases |names|
  {
    if |names| > 0 {
      var init, last := names[..|names| - 1], names[|names| - 1];
      assert names == init + [last];
      assert name !in init && last != name;
      SumDailyIgnoresUnlistedTable(tables, init, name, t, open);
      assert (last in tables[name := t]) == (last in tables);
      assert last in tables ==> tables[name := t][last] == tables[last];
    }
  }

  /** The fleet totals read the allow-list, not the live table list: a table
      the list does not name never contributes. */
  lemma TotalsIgnoreUnlistedTable(m: map<string, Table>, name: string, t: Table, now: LocalTime)
    requires !IsValid(name)
    ensures TotalLatestKwh(Up(m[name := t])) == TotalLatestKwh(Up(m))
    ensures TotalDailyKwh(Up(m[name := t]), now) == TotalDailyKwh(Up(m), now)
  {
    SumLatestIgnoresUnlistedTable(m, ValidTables, name, t);
    if BusinessOpen(now).Some? {
      SumDailyIgnoresUnlistedTable(m, ValidTables, name, t, BusinessOpen(now).value);
    }
  }
}
