/** The series projector behind `get_chart_data`: the rows of a window,
    their cumulative counter rebased so that the window starts at zero. */
module Chart {
  import opened Telemetry

  /** One point of the chart, before the two-decimal rounding of the reply. */
  datatype Point = Point(timestamp: Instant, watt: real, totalWattHours: real, pf: real)

  /** `WHERE timestamp BETWEEN start AND end`: the rows of the closed window,
      each as often as it is stored, in storage order. */
  function InRange(t: Table, start: Instant, end: Instant): (r: Table)
    ensures forall x :: x in r <==> x in t && start <= x.timestamp <= end
    decreases |t|
  {
    if |t| == 0 then []
    else
      var init, last := t[..|t| - 1], t[|t| - 1];
      assert t == init + [last];
      InRange(init, start, end) + (if start <= last.timestamp <= end then [last] else [])
  }

  /** The window keeps each of its rows exactly as often as it is stored. */
  lemma {:induction false} InRangeCounts(t: Table, start: Instant, end: Instant)
    ensures forall x ::
      multiset(InRange(t, start, end))[x] == if start <= x.timestamp <= end then multiset(t)[x] else 0
    decreases |t|
  {
    if |t| > 0 {
      var init, last := t[..|t| - 1], t[|t| - 1];
      assert t == init + [last];
      InRangeCounts(init, start, end);
    }
  }

  /** Rows whose timestamps never decrease. */
  predicate Ascending(t: Table) {
    forall i, j :: 0 <= i < j < |t| ==> t[i].timestamp <= t[j].timestamp
  }

  /** `x` placed into rows just before the first row that is later. */
  function InsertByTime(x: Sample, s: Table): Table
    decreases |s|
  {
    if |s| == 0 then [x]
    else if x.timestamp < s[0].timestamp then [x] + s
    else [s[0]] + InsertByTime(x, s[1..])
  }

  /** Inserting adds exactly one row. */
  lemma {:induction false} InsertByTimeAddsRow(x: Sample, s: Table)
    ensures multiset(InsertByTime(x, s)) == multiset(s) + multiset{x}
    decreases |s|
  {
    if |s| > 0 && x.timestamp >= s[0].timestamp {
      InsertByTimeAddsRow(x, s[1..]);
      assert s == [s[0]] + s[1..];
    }
  }

  /** No row of the result is earlier than a bound that `x` and every row
      of `s` respect. */
  lemma {:induction false} InsertByTimeBounded(x: Sample, s: Table, b: Instant)
    requires b <= x.timestamp
    requires forall j :: 0 <= j < |s| ==> b <= s[j].timestamp
    ensures forall j :: 0 <= j < |InsertByTime(x, s)| ==> b <= InsertByTime(x, s)[j].timestamp
    decreases |s|
  {
    if |s| > 0 && x.timestamp >= s[0].timestamp {
      InsertByTimeBounded(x, s[1..], b);
    }
  }

  /** Inserting into ascending rows keeps them ascending. */
  lemma {:induction false} InsertByTimeAscending(x: Sample, s: Table)
    requires Ascending(s)
    ensures Ascending(InsertByTime(x, s))
    decreases |s|
  {
    if |s| > 0 {
      if x.timestamp < s[0].timestamp {
        var r := [x] + s;
        forall i, j | 0 <= i < j < |r| ensures r[i].timestamp <= r[j].timestamp {
          if i > 0 {
            assert r[i] == s[i - 1];
          }
          assert r[j] == s[j - 1];
        }
      } else {
        var rest := InsertByTime(x, s[1..]);
        InsertByTimeAscending(x, s[1..]);
        InsertByTimeBounded(x, s[1..], s[0].timestamp);
        var r := [s[0]] + rest;
        forall i, j | 0 <= i < j < |r| ensures r[i].timestamp <= r[j].timestamp {
          if i > 0 {
            assert r[i] == rest[i - 1];
          }
          assert r[j] == rest[j - 1];
        }
      }
    }
  }

  /** `ORDER BY timestamp`: the rows by ascending timestamp. Rows sharing a
      timestamp keep their storage order here; the database may order them
      either way. */
  function SortByTime(t: Table): (r: Table)
    ensures Ascending(r)
    ensures multiset(r) == multiset(t)
    decreases |t|
  {
    if |t| == 0 then []
    else
      assert t == t[..|t| - 1] + [t[|t| - 1]];
      InsertByTimeAscending(t[|t| - 1], SortByTime(t[..|t| - 1]));
      InsertByTimeAddsRow(t[|t| - 1], SortByTime(t[..|t| - 1]));
      InsertByTime(t[|t| - 1], SortByTime(t[..|t| - 1]))
  }

  /** A row no earlier than any other goes last. */
  lemma {:induction false} InsertAfterAll(x: Sample, s: Table)
    requires Ascending(s)
    requires forall j :: 0 <= j < |s| ==> s[j].timestamp <= x.timestamp
    ensures InsertByTime(x, s) == s + [x]
    decreases |s|
  {
    if |s| > 0 {
      InsertAfterAll(x, s[1..]);
      assert s == [s[0]] + s[1..];
    }
  }

  /** Rows already in ascending order are left as they are. */
  lemma {:induction false} SortKeepsAscending(t: Table)
    requires Ascending(t)
    ensures SortByTime(t) == t
    decreases |t|
  {
    if |t| > 0 {
      var init := t[..|t| - 1];
      SortKeepsAscending(init);
      InsertAfterAll(t[|t| - 1], init);
      assert init + [t[|t| - 1]] == t;
    }
  }

  /** The rows `get_chart_data` reads: the window's rows by ascending
      timestamp, each row of the window exactly as often as it is stored. */
  function WindowRows(t: Table, start: Instant, end: Instant): (r: Table)
    ensures Ascending(r)
    ensures forall x :: x in r <==> x in t && start <= x.timestamp <= end
    ensures forall x :: multiset(r)[x] == if start <= x.timestamp <= end then multiset(t)[x] else 0
  {
    var r := SortByTime(InRange(t, start, end));
    InRangeCounts(t, start, end);
    assert forall x :: x in r <==> x in multiset(r);
    r
  }

  /** On a chronological table the window's rows keep strictly increasing
      timestamps. */
  lemma {:induction false} InRangeChronological(t: Table, start: Instant, end: Instant)
    requires Chronological(t)
    ensures Chronological(InRange(t, start, end))
    decreases |t|
  {
    if |t| > 0 {
      var init, last := t[..|t| - 1], t[|t| - 1];
      InRangeChronological(init, start, end);
      var r0 := InRange(init, start, end);
      if start <= last.timestamp <= end {
        assert forall x :: x in init ==> x.timestamp < last.timestamp by {
          forall x | x in init ensures x.timestamp < last.timestamp {
            var m :| 0 <= m < |init| && init[m] == x;
            assert t[m] == x;
          }
        }
        var r := r0 + [last];
        forall i, j | 0 <= i < j < |r| ensures r[i].timestamp < r[j].timestamp {
          if j == |r| - 1 {
            assert r[i] == r0[i] && r0[i] in r0;
          } else {
            assert r[i] == r0[i] && r[j] == r0[j];
          }
        }
      }
    }
  }

  /** On a chronological table the window's rows come out in storage order. */
  lemma WindowRowsOfChronological(t: Table, start: Instant, end: Instant)
    requires Chronological(t)
    ensures WindowRows(t, start, end) == InRange(t, start, end)
  {
    InRangeChronological(t, start, end);
    SortKeepsAscending(InRange(t, start, end));
  }

  /** The baseline of a non-empty window: the first row's counter, or 0.0
      when it is NULL. */
  function Baseline(rows: seq<Sample>): real
    requires |rows| > 0
  {
    OrZero(rows[0].totalWattHours)
  }

  /** One output row: NULL `watt` and `pf` read as 0.0, and a NULL counter
      gives 0.0 instead of a rebased value. */
  function Rebase(row: Sample, base: real): (p: Point)
    ensures p.timestamp == row.timestamp
    ensures row.totalWattHours.Some? ==> p.totalWattHours + base == row.totalWattHours.value
    ensures row.totalWattHours.None? ==> p.totalWattHours == 0.0
    ensures p.watt == OrZero(row.watt) && p.pf == OrZero(row.pf)
  {
    Point(row.timestamp,
          OrZero(row.watt),
          if row.totalWattHours.Some? then row.totalWattHours.value - base else 0.0,
          OrZero(row.pf))
  }

  /** The chart series of a window's rows: one point per row, in order. */
  function Series(rows: seq<Sample>): (r: seq<Point>)
    ensures |r| == |rows|
    ensures forall i :: 0 <= i < |r| ==> r[i].timestamp == rows[i].timestamp
  {
    if |rows| == 0 then []
    else seq(|rows|, i requires 0 <= i < |rows| => Rebase(rows[i], Baseline(rows)))
  }

  /** The loop of `get_chart_data` that builds `formatted_data`. */
  method ProjectSeries(rows: seq<Sample>) returns (points: seq<Point>)
    ensures points == Series(rows)
  {
    points := [];
    if |rows| > 0 {
      var base := OrZero(rows[0].totalWattHours);
      var i := 0;
      while i < |rows|
        invariant 0 <= i <= |rows|
        invariant |points| == i
        invariant forall j :: 0 <= j < i ==> points[j] == Rebase(rows[j], base)
      {
        var row := rows[i];
        var cumulative := 0.0;
        if row.totalWattHours.Some? {
          cumulative := row.totalWattHours.value - base;
        }
        points := points + [Point(row.timestamp, OrZero(row.watt), cumulative, OrZero(row.pf))];
        i := i + 1;
      }
    }
  }

  /** Every series starts at zero, whether or not the first counter is NULL. */
  lemma SeriesStartsAtZero(rows: seq<Sample>)
    requires |rows| > 0
    ensures Series(rows)[0].totalWattHours == 0.0
  {
  }

  /** Rebasing keeps the consumption between any two rows with counters;
      a meter reset shows up as a drop, uncorrected. */
  lemma SeriesKeepsDifferences(rows: seq<Sample>, i: int, j: int)
    requires 0 <= i < |rows| && 0 <= j < |rows|
    requires rows[i].totalWattHours.Some? && rows[j].totalWattHours.Some?
    ensures Series(rows)[j].totalWattHours - Series(rows)[i].totalWattHours ==
      rows[j].totalWattHours.value - rows[i].totalWattHours.value
  {
  }

  /** When the first counter is NULL the baseline is 0.0, so every other
      counter is reported unchanged. */
  lemma SeriesWithNullBaselineIsRaw(rows: seq<Sample>)
    requires |rows| > 0 && rows[0].totalWattHours.None?
    ensures forall i :: 0 <= i < |rows| ==>
      Series(rows)[i].totalWattHours == OrZero(rows[i].totalWattHours)
  {
  }

  /** The rows with `c` added to every counter that is not NULL, as if the
      meter had started from a different reading. */
  function Offset(rows: seq<Sample>, c: real): (r: seq<Sample>)
    ensures |r| == |rows|
  {
    seq(|rows|, i requires 0 <= i < |rows| =>
      rows[i].(totalWattHours := match rows[i].totalWattHours
                                case None => None
                                case Some(v) => Some(v + c)))
  }

  /** The series does not depend on where the meter's counter started, as
      long as the first row has a counter. */
  lemma SeriesIgnoresCounterOffset(rows: seq<Sample>, c: real)
    requires |rows| > 0 && rows[0].totalWattHours.Some?
    ensures Series(Offset(rows, c)) == Series(rows)
  {
    var a, b := Series(Offset(rows, c)), Series(rows);
    forall i | 0 <= i < |rows| ensures a[i] == b[i] {
    }
  }
}
