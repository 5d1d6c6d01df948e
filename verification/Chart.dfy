/** The chart series of a metric: hourly trends spliced with the raw readings that are left, resampled. */
module Chart {
  import opened Wrappers
  import opened Clock
  import opened Models
  import opened Aggregation
  import opened Rollup
  import opened RollupRuns
  import opened Resample

  const MAX_POINTS: int := 200

  datatype ChartSeries = ChartSeries(key: string, name: string, unit: Option<string>, points: seq<ChartPoint>)

  /** The bin length in seconds; the division floors, also for a negative range. */
  function ResampleSeconds(rangeHours: int): (s: int)
    ensures s >= 60
  {
    Max(60, rangeHours * 3600 / MAX_POINTS)
  }

  /** The numeric readings of a metric since an instant, in table order. */
  function RawPoints(rows: seq<MetricHistory>, device: int, metric: int, since: int): seq<ChartPoint> {
    if rows == [] then []
    else
      var rest := RawPoints(rows[1..], device, metric, since);
      var r := rows[0];
      if r.device == device && r.metric == metric && r.at >= since && r.number.Some?
      then [ChartPoint(r.at, r.number.value)] + rest else rest
  }

  lemma {:induction false} RawPointsMembers(rows: seq<MetricHistory>, device: int, metric: int, since: int)
    ensures forall p :: p in RawPoints(rows, device, metric, since) <==>
                        exists r :: r in rows && IsReading(r, device, metric, since, p)
  {
    if rows == [] {
    } else {
      RawPointsMembers(rows[1..], device, metric, since);
      var rest := RawPoints(rows[1..], device, metric, since);
      forall p
        ensures p in RawPoints(rows, device, metric, since) <==>
                p in rest || IsReading(rows[0], device, metric, since, p)
      {
      }
      assert forall r :: r in rows <==> r == rows[0] || r in rows[1..];
    }
  }

  ghost predicate IsReading(r: MetricHistory, device: int, metric: int, since: int, p: ChartPoint) {
    r.device == device && r.metric == metric && r.at >= since && r.number == Some(p.v) && r.at == p.t
  }

  lemma NoMembers(s: set<int>)
    requires forall x :: x !in s
    ensures s == {}
  {
    assert forall x :: x in s ==> x in {};
    assert s <= {};
  }

  lemma {:induction false} LeastExists(s: set<int>)
    requires s != {}
    ensures exists b :: b in s && forall x :: x in s ==> b <= x
  {
    if forall x :: x !in s {
      NoMembers(s);
      assert false;
    }
    var x :| x in s;
    if s - {x} == {} {
      assert s == {x};
    } else {
      LeastExists(s - {x});
      var b :| b in s - {x} && forall y :: y in s - {x} ==> b <= y;
      var least := if x < b then x else b;
      assert forall y :: y in s ==> y == x || y in s - {x};
      assert least in s && forall y :: y in s ==> least <= y;
    }
  }

  /** ORDER BY ascending. */
  function Ascending(s: set<int>): seq<int> {
    if s == {} then []
    else
      LeastExists(s);
      var b :| b in s && forall x :: x in s ==> b <= x;
      [b] + Ascending(s - {b})
  }

  lemma {:induction false} AscendingOrders(s: set<int>)
    ensures forall x :: x in Ascending(s) <==> x in s
    ensures forall i, j :: 0 <= i < j < |Ascending(s)| ==> Ascending(s)[i] < Ascending(s)[j]
  {
    if s != {} {
      LeastExists(s);
      var b :| b in s && (forall x :: x in s ==> b <= x) && Ascending(s) == [b] + Ascending(s - {b});
      AscendingOrders(s - {b});
      assert forall x :: x in s <==> x == b || x in s - {b};
      var rest := Ascending(s - {b});
      assert forall j :: 0 <= j < |rest| ==> rest[j] in rest;
    }
  }

  function BucketsSince(trends: map<BucketKey, MetricTrend>, device: int, metric: int, since: int): set<int> {
    set k | k in trends && k.device == device && k.metric == metric && k.bucket >= since :: k.bucket
  }

  /** The hourly means of a metric since an instant, oldest first. */
  function TrendPoints(trends: map<BucketKey, MetricTrend>, device: int, metric: int, since: int): seq<ChartPoint> {
    var buckets := Ascending(BucketsSince(trends, device, metric, since));
    AscendingOrders(BucketsSince(trends, device, metric, since));
    seq(|buckets|, i requires 0 <= i < |buckets| =>
      assert buckets[i] in buckets; ChartPoint(buckets[i], trends[BucketKey(device, metric, buckets[i])].avg))
  }

  ghost predicate IsHourly(trends: map<BucketKey, MetricTrend>, device: int, metric: int, since: int, p: ChartPoint) {
    var k := BucketKey(device, metric, p.t);
    p.t >= since && k in trends && p.v == trends[k].avg
  }

  lemma TrendPointsMembers(trends: map<BucketKey, MetricTrend>, device: int, metric: int, since: int)
    ensures forall p :: p in TrendPoints(trends, device, metric, since) <==> IsHourly(trends, device, metric, since, p)
  {
    var buckets := Ascending(BucketsSince(trends, device, metric, since));
    var points := TrendPoints(trends, device, metric, since);
    AscendingOrders(BucketsSince(trends, device, metric, since));
    forall p: ChartPoint | IsHourly(trends, device, metric, since, p)
      ensures p in points
    {
      var k := BucketKey(device, metric, p.t);
      assert k in trends && k.bucket == p.t;
      assert p.t in BucketsSince(trends, device, metric, since);
      var i :| 0 <= i < |buckets| && buckets[i] == p.t;
      assert points[i] == p;
    }
    forall p | p in points
      ensures IsHourly(trends, device, metric, since, p)
    {
      var i :| 0 <= i < |points| && points[i] == p;
      assert buckets[i] in buckets;
    }
  }

  function PointsBefore(points: seq<ChartPoint>, t: int): seq<ChartPoint> {
    if points == [] then []
    else if points[0].t < t then [points[0]] + PointsBefore(points[1..], t)
    else PointsBefore(points[1..], t)
  }

  lemma {:induction false} PointsBeforeMembers(points: seq<ChartPoint>, t: int)
    ensures forall p :: p in PointsBefore(points, t) <==> p in points && p.t < t
  {
    if points == [] {
    } else {
      PointsBeforeMembers(points[1..], t);
      assert forall p :: p in points <==> p == points[0] || p in points[1..];
    }
  }

  /** Raw readings win: a trend is used only if it starts before the earliest raw reading. */
  function Merged(t: Tables, device: int, metric: int, since: int): seq<ChartPoint> {
    var raw := RawPoints(t.history, device, metric, since);
    var trend := TrendPoints(t.trends, device, metric, since);
    (if raw == [] then trend else PointsBefore(trend, Earliest(raw))) + raw
  }

  function Width(rangeHours: int): (w: int)
    ensures w > 0
  {
    ResampleSeconds(rangeHours) * SECOND
  }

  /** Bins are aligned with midnight of the day of the first point. */
  function Charted(points: seq<ChartPoint>, rangeHours: int): seq<ChartPoint> {
    if points == [] then []
    else Resampled(points, StartOfDay(Earliest(points)), Width(rangeHours))
  }

  function BuildSeries(t: Tables, device: int, key: string, rangeHours: int, now: int): ChartSeries {
    if key !in t.definitions then ChartSeries(key, key, None, [])
    else
      var definition := t.definitions[key];
      var points := Merged(t, device, definition.id, now - rangeHours * HOUR);
      ChartSeries(key, definition.name, definition.unit, Charted(points, rangeHours))
  }

  // ---- What the merge keeps -----------------------------------------------------------------

  /** Every reading of the metric since `since` that is left lies after `t`. */
  ghost predicate AllReadingsAfter(rows: seq<MetricHistory>, device: int, metric: int, since: int, t: int) {
    forall r, p :: r in rows && IsReading(r, device, metric, since, p) ==> t < p.t
  }

  /** The merge, point by point: every raw reading since `since`, and the trend of every bucket since
      `since` that starts before all of those readings. */
  lemma MergedMembers(t: Tables, device: int, metric: int, since: int)
    ensures forall p :: p in Merged(t, device, metric, since) <==>
              || (exists r :: r in t.history && IsReading(r, device, metric, since, p))
              || (IsHourly(t.trends, device, metric, since, p) &&
                  AllReadingsAfter(t.history, device, metric, since, p.t))
  {
    var raw := RawPoints(t.history, device, metric, since);
    RawPointsMembers(t.history, device, metric, since);
    TrendPointsMembers(t.trends, device, metric, since);
    if raw == [] {
      assert forall r, p :: r in t.history && IsReading(r, device, metric, since, p) ==> p in raw;
    } else {
      PointsBeforeMembers(TrendPoints(t.trends, device, metric, since), Earliest(raw));
      var q := EarliestFacts(raw);
      var r :| r in t.history && IsReading(r, device, metric, since, q);
    }
  }

  /** The positions of the readings in the table that are the point. */
  ghost function ReadingsThatAre(rows: seq<MetricHistory>, device: int, metric: int, since: int, p: ChartPoint)
    : set<nat>
  {
    set i: nat | i < |rows| && IsReading(rows[i], device, metric, since, p)
  }

  lemma {:induction false} RawPointsSnoc(rows: seq<MetricHistory>, r: MetricHistory, device: int, metric: int,
                                         since: int)
    ensures RawPoints(rows + [r], device, metric, since) ==
            if r.device == device && r.metric == metric && r.at >= since && r.number.Some?
            then RawPoints(rows, device, metric, since) + [ChartPoint(r.at, r.number.value)]
            else RawPoints(rows, device, metric, since)
  {
    if rows == [] {
      assert rows + [r] == [r] && RawPoints([r][1..], device, metric, since) == [];
    } else {
      RawPointsSnoc(rows[1..], r, device, metric, since);
      assert (rows + [r])[0] == rows[0] && (rows + [r])[1..] == rows[1..] + [r];
    }
  }

  lemma {:induction false} RawMultiplicity(rows: seq<MetricHistory>, device: int, metric: int, since: int,
                                           p: ChartPoint)
    ensures multiset(RawPoints(rows, device, metric, since))[p] == |ReadingsThatAre(rows, device, metric, since, p)|
  {
    if rows == [] {
      assert ReadingsThatAre(rows, device, metric, since, p) == {};
    } else {
      var n := |rows| - 1;
      RawMultiplicity(rows[..n], device, metric, since, p);
      RawPointsSnoc(rows[..n], rows[n], device, metric, since);
      ReadingsSnoc(rows[..n], rows[n], device, metric, since, p);
      assert rows == rows[..n] + [rows[n]];
      PointsSnoc(RawPoints(rows[..n], device, metric, since),
                 ChartPoint(rows[n].at, if rows[n].number.Some? then rows[n].number.value else 0.0), p);
    }
  }

  lemma PointsSnoc(points: seq<ChartPoint>, q: ChartPoint, p: ChartPoint)
    ensures multiset(points + [q])[p] == multiset(points)[p] + if q == p then 1 else 0
  {
  }

  lemma ReadingsSnoc(rows: seq<MetricHistory>, r: MetricHistory, device: int, metric: int, since: int, p: ChartPoint)
    ensures |ReadingsThatAre(rows + [r], device, metric, since, p)| ==
            |ReadingsThatAre(rows, device, metric, since, p)| + if IsReading(r, device, metric, since, p) then 1 else 0
  {
    var before := ReadingsThatAre(rows, device, metric, since, p);
    assert |rows| !in before;
    if IsReading(r, device, metric, since, p) {
      assert ReadingsThatAre(rows + [r], device, metric, since, p) == before + {|rows|};
    } else {
      assert ReadingsThatAre(rows + [r], device, metric, since, p) == before;
    }
  }

  lemma {:induction false} BeforeMultiplicity(points: seq<ChartPoint>, t: int, p: ChartPoint)
    ensures multiset(PointsBefore(points, t))[p] == if p.t < t then multiset(points)[p] else 0
  {
    if points == [] {
    } else {
      var rest := PointsBefore(points[1..], t);
      BeforeMultiplicity(points[1..], t, p);
      assert points == [points[0]] + points[1..];
      assert multiset([points[0]] + rest) == multiset{points[0]} + multiset(rest);
    }
  }

  lemma {:induction false} AscendingPointsOnce(points: seq<ChartPoint>, p: ChartPoint)
    requires forall i, j :: 0 <= i < j < |points| ==> points[i].t < points[j].t
    ensures multiset(points)[p] == if p in points then 1 else 0
  {
    if points == [] {
    } else {
      AscendingPointsOnce(points[1..], p);
      assert points == [points[0]] + points[1..];
      assert points[0] !in points[1..];
    }
  }

  /** The merge, with multiplicities: a point occurs once per raw reading of the range that it is, and
      once more if it is the trend of a bucket of the range that starts before all of these. */
  lemma MergedMultiplicity(t: Tables, device: int, metric: int, since: int, p: ChartPoint)
    ensures multiset(Merged(t, device, metric, since))[p] ==
            |ReadingsThatAre(t.history, device, metric, since, p)| +
            if IsHourly(t.trends, device, metric, since, p) && AllReadingsAfter(t.history, device, metric, since, p.t)
            then 1 else 0
  {
    var raw := RawPoints(t.history, device, metric, since);
    var trend := TrendPoints(t.trends, device, metric, since);
    var shown := if raw == [] then trend else PointsBefore(trend, Earliest(raw));
    RawMultiplicity(t.history, device, metric, since, p);
    TrendPointsOnce(t.trends, device, metric, since, p);
    RawPointsMembers(t.history, device, metric, since);
    if raw == [] {
      assert forall r, q :: r in t.history && IsReading(r, device, metric, since, q) ==> q in raw;
    } else {
      BeforeMultiplicity(trend, Earliest(raw), p);
      var first := EarliestFacts(raw);
      var r :| r in t.history && IsReading(r, device, metric, since, first);
    }
    assert multiset(shown + raw) == multiset(shown) + multiset(raw);
  }

  lemma TrendPointsOnce(trends: map<BucketKey, MetricTrend>, device: int, metric: int, since: int, p: ChartPoint)
    ensures multiset(TrendPoints(trends, device, metric, since))[p] ==
            if IsHourly(trends, device, metric, since, p) then 1 else 0
  {
    AscendingOrders(BucketsSince(trends, device, metric, since));
    TrendPointsMembers(trends, device, metric, since);
    AscendingPointsOnce(TrendPoints(trends, device, metric, since), p);
  }

  /** The merge shows the hour as a trend. */
  predicate ShownAsTrend(t: Tables, device: int, metric: int, since: int, hour: int) {
    var raw := RawPoints(t.history, device, metric, since);
    hour >= since && BucketKey(device, metric, hour) in t.trends && (raw != [] ==> hour < Earliest(raw))
  }

  /** The merge shows raw readings of the hour. */
  predicate ShownAsRaw(t: Tables, device: int, metric: int, since: int, hour: int) {
    exists p :: p in RawPoints(t.history, device, metric, since) && HourOf(p.t) == hour
  }

  /** Trends never repeat an instant of a raw reading, but they can repeat an hour: at most one hour is
      shown twice, the hour of the earliest raw reading, and it is exactly when that hour has a trend,
      starts within the range, and does not start at that very reading. */
  lemma AtMostOneHourTwice(t: Tables, device: int, metric: int, since: int, hour: int)
    requires hour % HOUR == 0
    ensures ShownAsTrend(t, device, metric, since, hour) && ShownAsRaw(t, device, metric, since, hour) <==>
            var raw := RawPoints(t.history, device, metric, since);
            raw != [] && hour == HourOf(Earliest(raw)) && hour != Earliest(raw) &&
            hour >= since && BucketKey(device, metric, hour) in t.trends
  {
    var raw := RawPoints(t.history, device, metric, since);
    if raw != [] {
      var first := EarliestFacts(raw);
      if p :| p in raw && HourOf(p.t) == hour && hour < first.t {
        HourIsUnique(first.t, hour);
      }
    }
  }

  /** A reading at minute 10 and a cycle two hours later: the hour appears as a trend at its start and as the
      reading that the trend was made from. */
  lemma HourShownTwice(start: Tables)
    requires Empty(start)
    ensures var run := [Insert([EARLY]), RollupRuns.Step.Housekeeping(2 * HOUR, true)];
            ValidRun(run) && ShownAsTrend(Exec(start, run), 1, 1, 0, 0) && ShownAsRaw(Exec(start, run), 1, 1, 0, 0)
  {
    var run := [Insert([EARLY]), RollupRuns.Step.Housekeeping(2 * HOUR, true)];
    var t := Exec(start, run);
    assert run[..1] == [Insert([EARLY])] && [Insert([EARLY])][..0] == [];
    assert Exec(start, run[..1]).history == [EARLY] by {
      assert Exec(start, []) == start;
      assert [] + [EARLY] == [EARLY];
    }
    RetainedAll([EARLY], Some(2 * HOUR - RETENTION));
    EarlyFeedsItsHour();
    AtMostOneHourTwice(t, 1, 1, 0, 0);
  }

  lemma EarlyFeedsItsHour()
    ensures BucketKey(1, 1, 0) in GroupKeys([EARLY], 2 * HOUR)
    ensures HourOf(EARLY.at) == 0 && RawPoints([EARLY], 1, 1, 0) == [ChartPoint(EARLY.at, 1.0)]
  {
    HourIsUnique(EARLY.at, 0);
    assert EARLY in [EARLY] && KeyOf(EARLY) == BucketKey(1, 1, 0);
    assert RawPoints([], 1, 1, 0) == [];
  }

  /** What ShownAsTrend means: the trend of the hour is a point of the merge. */
  lemma ShownTrendIsMerged(t: Tables, device: int, metric: int, since: int, hour: int)
    requires ShownAsTrend(t, device, metric, since, hour)
    ensures ChartPoint(hour, t.trends[BucketKey(device, metric, hour)].avg) in Merged(t, device, metric, since)
  {
    TrendPointsMembers(t.trends, device, metric, since);
    var raw := RawPoints(t.history, device, metric, since);
    if raw != [] {
      PointsBeforeMembers(TrendPoints(t.trends, device, metric, since), Earliest(raw));
    }
    assert IsHourly(t.trends, device, metric, since, ChartPoint(hour, t.trends[BucketKey(device, metric, hour)].avg));
  }

  // ---- No gap after retention ---------------------------------------------------------------

  /** In every reachable state, an hour of the range in which a reading was ever recorded appears in
      the merged series: as a surviving raw reading of that hour, or as the trend of that hour. */
  lemma NoGap(start: Tables, run: seq<Step>, r: MetricHistory, since: int) returns (p: ChartPoint)
    requires Empty(start) && ValidRun(run) && r in Inserted(run) && r.number.Some? && since <= HourOf(r.at)
    ensures p in Merged(Exec(start, run), r.device, r.metric, since) && HourOf(p.t) == HourOf(r.at)
    ensures var t := Exec(start, run);
            || p == ChartPoint(r.at, r.number.value)
            || (exists s :: s in t.history && IsReading(s, r.device, r.metric, since, p))
            || (KeyOf(r) in t.trends && p == ChartPoint(HourOf(r.at), t.trends[KeyOf(r)].avg))
  {
    var t := Exec(start, run);
    MergedMembers(t, r.device, r.metric, since);
    EveryReadingIsKept(start, run, r);
    if r in t.history {
      p := ChartPoint(r.at, r.number.value);
      assert IsReading(r, r.device, r.metric, since, p);
    } else {
      RawTableIsSurviving(start, run);
      RetainedMembers(Inserted(run), LastCutoff(run));
      p := ChartPoint(HourOf(r.at), t.trends[KeyOf(r)].avg);
      assert forall s :: s in t.history ==> p.t < s.at;
      HourIsUnique(p.t, HourOf(r.at));
    }
  }

  lemma TrendBucketsAreHours(start: Tables, run: seq<Step>, k: BucketKey)
    requires Empty(start) && ValidRun(run) && k in Exec(start, run).trends
    ensures k.bucket % HOUR == 0
  {
    TrendIsLastRewrite(start, run, k);
    var before := run[..LastRewrite(run, k).value];
    ValuesNonEmpty(Surviving(before), k);
  }

  /** Exactly when a recorded hour is shown: it starts within the range, or one of its readings that are
      still in the raw table lies within the range. */
  lemma HourShownIff(start: Tables, run: seq<Step>, r: MetricHistory, since: int)
    requires Empty(start) && ValidRun(run) && r in Inserted(run) && r.number.Some?
    ensures var t := Exec(start, run);
            (exists p :: p in Merged(t, r.device, r.metric, since) && HourOf(p.t) == HourOf(r.at)) <==>
            since <= HourOf(r.at) || ShownAsRaw(t, r.device, r.metric, since, HourOf(r.at))
  {
    var t := Exec(start, run);
    MergedMembers(t, r.device, r.metric, since);
    RawPointsMembers(t.history, r.device, r.metric, since);
    if since <= HourOf(r.at) {
      var p := NoGap(start, run, r, since);
    } else {
      forall p: ChartPoint | IsHourly(t.trends, r.device, r.metric, since, p)
        ensures HourOf(p.t) != HourOf(r.at)
      {
        TrendBucketsAreHours(start, run, BucketKey(r.device, r.metric, p.t));
        HourIsUnique(p.t, p.t);
      }
    }
  }

  /** End to end: that hour is represented in the chart, by a point whose bin holds an instant of it. */
  lemma RecordedHourIsCharted(start: Tables, run: seq<Step>, r: MetricHistory, key: string, rangeHours: int, now: int)
    returns (q: ChartPoint, instant: int)
    requires Empty(start) && ValidRun(run) && r in Inserted(run) && r.number.Some?
    requires now - rangeHours * HOUR <= HourOf(r.at)
    requires var t := Exec(start, run); key in t.definitions && t.definitions[key].id == r.metric
    ensures q in BuildSeries(Exec(start, run), r.device, key, rangeHours, now).points
    ensures HourOf(instant) == HourOf(r.at)
    ensures q.t <= instant < q.t + Width(rangeHours)
  {
    var t := Exec(start, run);
    var p := NoGap(start, run, r, now - rangeHours * HOUR);
    instant := p.t;
    q := PointIsCharted(t, r.device, key, rangeHours, now, now - rangeHours * HOUR, p);
  }

  lemma PointIsCharted(t: Tables, device: int, key: string, rangeHours: int, now: int, since: int, p: ChartPoint)
    returns (q: ChartPoint)
    requires key in t.definitions && since == now - rangeHours * HOUR
    requires p in Merged(t, device, t.definitions[key].id, since)
    ensures q in BuildSeries(t, device, key, rangeHours, now).points
    ensures q.t <= p.t < q.t + Width(rangeHours)
  {
    var points := Merged(t, device, t.definitions[key].id, since);
    SeriesIsCharted(t, device, key, rangeHours, now, since);
    q := PointHasBin(points, StartOfDay(Earliest(points)), Width(rangeHours), p);
  }

  // ---- A series in full ---------------------------------------------------------------------

  /** The length of a bin: a two hundredth of the range in whole seconds, but at least a minute. */
  function BinLength(rangeHours: int): (w: int)
    ensures w == (if rangeHours * 3600 / 200 > 60 then rangeHours * 3600 / 200 else 60) * 1_000_000
  {
    Width(rangeHours)
  }

  /** Name and unit of a series, and the answer for a key that nobody knows. */
  lemma SeriesIsNamed(t: Tables, device: int, key: string, rangeHours: int, now: int)
    ensures var series := BuildSeries(t, device, key, rangeHours, now);
            && series.key == key
            && (key in t.definitions ==>
                  series.name == t.definitions[key].name && series.unit == t.definitions[key].unit)
            && (key !in t.definitions ==> series.name == key && series.unit == None && series.points == [])
  {
  }

  /** Every point of a series is the mean of the points of the merge in its bin, and its bin starts a whole
      number of bins after midnight of the day of the first point. */
  lemma SeriesPointIsMean(t: Tables, device: int, key: string, rangeHours: int, now: int, q: ChartPoint)
    returns (idx: seq<nat>, first: ChartPoint, k: int)
    requires key in t.definitions && q in BuildSeries(t, device, key, rangeHours, now).points
    ensures var points := Merged(t, device, t.definitions[key].id, now - rangeHours * 3_600_000_000);
            && IsMeanOf(q, points, idx, BinLength(rangeHours))
            && first in points && (forall p :: p in points ==> first.t <= p.t)
            && q.t == first.t - first.t % 86_400_000_000 + k * BinLength(rangeHours)
  {
    var since := now - rangeHours * HOUR;
    SeriesIsCharted(t, device, key, rangeHours, now, since);
    idx, first, k := ChartedPointIsMean(Merged(t, device, t.definitions[key].id, since), rangeHours, q);
  }

  lemma ChartedPointIsMean(points: seq<ChartPoint>, rangeHours: int, q: ChartPoint)
    returns (idx: seq<nat>, first: ChartPoint, k: int)
    requires q in Charted(points, rangeHours)
    ensures IsMeanOf(q, points, idx, BinLength(rangeHours))
    ensures first in points && forall p :: p in points ==> first.t <= p.t
    ensures q.t == first.t - first.t % 86_400_000_000 + k * BinLength(rangeHours)
  {
    first := EarliestFacts(points);
    idx, k := OutputIsMean(points, StartOfDay(first.t), BinLength(rangeHours), q);
  }

  /** The series has such a point for every point of the merge, one for each bin, in ascending order: with
      SeriesPointIsMean this leaves no choice. */
  lemma SeriesCoversMerge(t: Tables, device: int, key: string, rangeHours: int, now: int)
    requires key in t.definitions
    ensures var points := Merged(t, device, t.definitions[key].id, now - rangeHours * 3_600_000_000);
            var out := BuildSeries(t, device, key, rangeHours, now).points;
            && (forall p :: p in points ==> exists q :: q in out && q.t <= p.t < q.t + BinLength(rangeHours))
            && (forall i, j :: 0 <= i < j < |out| ==> out[i].t + BinLength(rangeHours) <= out[j].t)
  {
    var since := now - rangeHours * HOUR;
    SeriesIsCharted(t, device, key, rangeHours, now, since);
    ChartCovers(Merged(t, device, t.definitions[key].id, since), rangeHours);
  }

  lemma ChartCovers(points: seq<ChartPoint>, rangeHours: int)
    ensures var out := Charted(points, rangeHours);
            && (forall p :: p in points ==> exists q :: q in out && q.t <= p.t < q.t + BinLength(rangeHours))
            && (forall i, j :: 0 <= i < j < |out| ==> out[i].t + BinLength(rangeHours) <= out[j].t)
  {
    if points != [] {
      var origin, width := StartOfDay(Earliest(points)), BinLength(rangeHours);
      forall p | p in points
        ensures exists q :: q in Charted(points, rangeHours) && q.t <= p.t < q.t + width
      {
        var q := PointHasBin(points, origin, width, p);
      }
      forall i, j | 0 <= i < j < |Resampled(points, origin, width)|
        ensures Resampled(points, origin, width)[i].t + width <= Resampled(points, origin, width)[j].t
      {
        OutputsApart(points, origin, width, i, j);
      }
    }
  }

  // ---- The size of a series -----------------------------------------------------------------

  /** No reading and no bucket lies after `now`. */
  predicate NothingAfter(t: Tables, now: int) {
    (forall r :: r in t.history ==> r.at <= now) && (forall k :: k in t.trends ==> k.bucket <= now)
  }

  /** The number of bin widths in a range. */
  function Spans(rangeHours: int): nat
    requires rangeHours > 0
  {
    if rangeHours >= 4 then MAX_POINTS else 60 * rangeHours
  }

  lemma RangeInBins(rangeHours: int)
    requires rangeHours > 0
    ensures rangeHours * HOUR == Spans(rangeHours) * Width(rangeHours)
  {
    assert rangeHours * 3600 / MAX_POINTS == 18 * rangeHours;
  }

  lemma MergedWithinRange(t: Tables, device: int, metric: int, since: int, now: int)
    requires NothingAfter(t, now)
    ensures forall p :: p in Merged(t, device, metric, since) ==> since <= p.t <= now
  {
    MergedMembers(t, device, metric, since);
  }

  /** At most one point more than the number of bin widths in the range, at least a bin apart, and that
      many exactly when every bin from the first point on holds a point. For ranges of four hours or
      more the number of widths is MAX_POINTS. */
  ghost predicate WellSized(out: seq<ChartPoint>, points: seq<ChartPoint>, rangeHours: int)
    requires rangeHours > 0
  {
    && |out| <= Spans(rangeHours) + 1
    && (|out| > Spans(rangeHours) <==> EveryBinHolds(points, rangeHours))
    && forall i, j :: 0 <= i < j < |out| ==> out[i].t + Width(rangeHours) <= out[j].t
  }

  ghost predicate EveryBinHolds(points: seq<ChartPoint>, rangeHours: int)
    requires rangeHours > 0
  {
    points != [] &&
    var origin, width := StartOfDay(Earliest(points)), Width(rangeHours);
    var first := BinOf(Earliest(points), origin, width);
    NoBinEmpty(points, origin, width, first, first + Spans(rangeHours) + 1)
  }

  /** The documented ceiling of MAX_POINTS can be passed, by one point, and exactly when no bin is empty. */
  lemma SeriesSize(t: Tables, device: int, key: string, rangeHours: int, now: int)
    requires rangeHours > 0 && NothingAfter(t, now) && key in t.definitions
    ensures var points := Merged(t, device, t.definitions[key].id, now - rangeHours * HOUR);
            WellSized(BuildSeries(t, device, key, rangeHours, now).points, points, rangeHours)
  {
    var since := now - rangeHours * HOUR;
    var points := Merged(t, device, t.definitions[key].id, since);
    var out := Charted(points, rangeHours);
    assert BuildSeries(t, device, key, rangeHours, now).points == out by {
      SeriesIsCharted(t, device, key, rangeHours, now, since);
    }
    assert WellSized(out, points, rangeHours) by {
      MergedSize(t, device, t.definitions[key].id, rangeHours, now, since);
    }
  }

  lemma SeriesIsCharted(t: Tables, device: int, key: string, rangeHours: int, now: int, since: int)
    requires key in t.definitions && since == now - rangeHours * HOUR
    ensures BuildSeries(t, device, key, rangeHours, now).points ==
            Charted(Merged(t, device, t.definitions[key].id, since), rangeHours)
  {
  }

  lemma MergedSize(t: Tables, device: int, metric: int, rangeHours: int, now: int, since: int)
    requires rangeHours > 0 && NothingAfter(t, now) && since == now - rangeHours * HOUR
    ensures WellSized(Charted(Merged(t, device, metric, since), rangeHours), Merged(t, device, metric, since),
                      rangeHours)
  {
    MergedWithinRange(t, device, metric, since, now);
    ChartedSize(Merged(t, device, metric, since), rangeHours, since, now);
  }

  lemma ChartedSize(points: seq<ChartPoint>, rangeHours: int, since: int, now: int)
    requires rangeHours > 0 && since == now - rangeHours * HOUR
    requires forall p :: p in points ==> since <= p.t <= now
    ensures WellSized(Charted(points, rangeHours), points, rangeHours)
  {
    RangeInBins(rangeHours);
    if points != [] {
      var origin, width, n := StartOfDay(Earliest(points)), Width(rangeHours), Spans(rangeHours);
      var first := EarliestFacts(points);
      var last := LatestFacts(points);
      assert Latest(points) <= Earliest(points) + n * width;
      ResampledSize(points, origin, width, n);
      forall i, j | 0 <= i < j < |Resampled(points, origin, width)|
        ensures Resampled(points, origin, width)[i].t + width <= Resampled(points, origin, width)[j].t
      {
        OutputsApart(points, origin, width, i, j);
      }
    }
  }

  const FOUR_HOURS := 4

  /** A reading every 72 seconds for four hours, from midnight on: 201 readings. */
  const STEADY: seq<MetricHistory> := seq(201, i => MetricHistory(1, 1, i * 72 * SECOND, Some(0.0), None))

  /** The ceiling is passed: those readings yield 201 points for a range of four hours. */
  lemma CeilingCanBePassed(t: Tables, key: string, definition: MetricDefinition)
    requires t.history == STEADY && t.trends == map[]
    requires key in t.definitions && t.definitions[key] == definition && definition.id == 1
    ensures |BuildSeries(t, 1, key, FOUR_HOURS, FOUR_HOURS * HOUR).points| == MAX_POINTS + 1
  {
    var points := Merged(t, 1, 1, 0);
    assert forall r :: r in t.history ==> r.at <= FOUR_HOURS * HOUR;
    SeriesSize(t, 1, key, FOUR_HOURS, FOUR_HOURS * HOUR);
    MergedMembers(t, 1, 1, 0);
    forall k | 0 <= k <= 200
      ensures ChartPoint(k * 72 * SECOND, 0.0) in points
    {
      assert STEADY[k] in t.history && IsReading(STEADY[k], 1, 1, 0, ChartPoint(k * 72 * SECOND, 0.0));
    }
    SteadyFillsBins(points);
  }

  lemma SteadyFillsBins(points: seq<ChartPoint>)
    requires forall k :: 0 <= k <= 200 ==> ChartPoint(k * 72 * SECOND, 0.0) in points
    requires forall p :: p in points ==> 0 <= p.t
    ensures EveryBinHolds(points, FOUR_HOURS)
  {
    var first := EarliestFacts(points);
    assert ChartPoint(0 * 72 * SECOND, 0.0) in points;
    assert Earliest(points) == 0 && StartOfDay(0) == 0 && Width(FOUR_HOURS) == 72 * SECOND;
    forall k | 0 <= k < 201
      ensures InBin(points, 0, 72 * SECOND, k) != []
    {
      var p := ChartPoint(k * 72 * SECOND, 0.0);
      InBinMembers(points, 0, 72 * SECOND, k);
      BinHoldsInstant(p.t, 0, 72 * SECOND, k);
      assert p in points && BinOf(p.t, 0, 72 * SECOND) == k;
      assert 0.0 in InBin(points, 0, 72 * SECOND, k);
    }
  }
}
