/** What one housekeeping cycle computes: the hourly aggregates, and the rows that survive retention. */
module Rollup {
  import opened Wrappers
  import opened Clock
  import opened Models
  import opened Aggregation
  import opened Selection

  const RETENTION: int := 7 * DAY

  function KeyOf(r: MetricHistory): BucketKey {
    BucketKey(r.device, r.metric, HourOf(r.at))
  }

  /** The row counts for bucket `k`. */
  predicate Feeds(r: MetricHistory, k: BucketKey) {
    r.number.Some? && KeyOf(r) == k
  }

  /** The numbers of bucket `k`, in table order. */
  function Values(rows: seq<MetricHistory>, k: BucketKey): seq<real> {
    if rows == [] then []
    else if Feeds(rows[0], k) then [rows[0].number.value] + Values(rows[1..], k)
    else Values(rows[1..], k)
  }

  function Before(rows: seq<MetricHistory>, boundary: int): seq<MetricHistory> {
    if rows == [] then []
    else if rows[0].at < boundary then [rows[0]] + Before(rows[1..], boundary)
    else Before(rows[1..], boundary)
  }

  predicate AtOrAfter(t: int, floor: Option<int>) {
    floor.Some? ==> floor.value <= t
  }

  /** The rows that a retention floor keeps. */
  function Retained(rows: seq<MetricHistory>, floor: Option<int>): seq<MetricHistory> {
    if rows == [] then []
    else if AtOrAfter(rows[0].at, floor) then [rows[0]] + Retained(rows[1..], floor)
    else Retained(rows[1..], floor)
  }

  /** The groups of the aggregation query: every bucket that holds a numeric row before the boundary. */
  function GroupKeys(rows: seq<MetricHistory>, boundary: int): set<BucketKey> {
    set r | r in rows && r.number.Some? && r.at < boundary :: KeyOf(r)
  }

  function HourlyAggregates(rows: seq<MetricHistory>, boundary: int): (m: map<BucketKey, MetricTrend>)
    ensures m.Keys == GroupKeys(rows, boundary)
  {
    map k | k in GroupKeys(rows, boundary) ::
      (GroupHasValues(rows, boundary, k);
       Summarise(Values(Before(rows, boundary), k)))
  }

  /** The state that a committed housekeeping cycle leaves: aggregate first, then delete. */
  function Housekept(t: Tables, now: int): Tables {
    t.(trends := t.trends + HourlyAggregates(t.history, HourOf(now)),
       history := Retained(t.history, Some(now - RETENTION)))
  }

  // ---- The filters --------------------------------------------------------------------------

  lemma ConsTail(r: MetricHistory, rest: seq<MetricHistory>)
    ensures ([r] + rest)[0] == r && ([r] + rest)[1..] == rest
  {
  }

  lemma {:induction false} BeforeMembers(rows: seq<MetricHistory>, boundary: int)
    ensures forall r :: r in Before(rows, boundary) <==> r in rows && r.at < boundary
  {
    if rows == [] {
    } else {
      BeforeMembers(rows[1..], boundary);
      assert rows == [rows[0]] + rows[1..];
    }
  }

  lemma {:induction false} RetainedMembers(rows: seq<MetricHistory>, floor: Option<int>)
    ensures forall r :: r in Retained(rows, floor) <==> r in rows && AtOrAfter(r.at, floor)
  {
    if rows == [] {
    } else {
      RetainedMembers(rows[1..], floor);
      assert rows == [rows[0]] + rows[1..];
    }
  }

  lemma {:induction false} RetainedAppend(a: seq<MetricHistory>, b: seq<MetricHistory>, floor: Option<int>)
    ensures Retained(a + b, floor) == Retained(a, floor) + Retained(b, floor)
  {
    if a == [] {
      assert a + b == b;
    } else {
      RetainedAppend(a[1..], b, floor);
      assert (a + b)[0] == a[0] && (a + b)[1..] == a[1..] + b;
      assert [a[0]] + (Retained(a[1..], floor) + Retained(b, floor)) ==
             [a[0]] + Retained(a[1..], floor) + Retained(b, floor);
    }
  }

  lemma {:induction false} RetainedAll(rows: seq<MetricHistory>, floor: Option<int>)
    requires forall r :: r in rows ==> AtOrAfter(r.at, floor)
    ensures Retained(rows, floor) == rows
  {
    if rows == [] {
    } else {
      RetainedAll(rows[1..], floor);
    }
  }

  /** A later cutoff subsumes an earlier one. */
  lemma {:induction false} RetainedTwice(rows: seq<MetricHistory>, floor: Option<int>, cutoff: int)
    requires AtOrAfter(cutoff, floor)
    ensures Retained(Retained(rows, floor), Some(cutoff)) == Retained(rows, Some(cutoff))
  {
    if rows == [] {
    } else {
      RetainedTwice(rows[1..], floor, cutoff);
      ConsTail(rows[0], Retained(rows[1..], floor));
    }
  }

  lemma {:induction false} ValuesNonEmpty(rows: seq<MetricHistory>, k: BucketKey)
    ensures Values(rows, k) != [] <==> exists r :: r in rows && Feeds(r, k)
  {
    if rows == [] {
    } else {
      ValuesNonEmpty(rows[1..], k);
      assert rows == [rows[0]] + rows[1..];
      if Feeds(rows[0], k) {
        assert rows[0] in rows;
      }
    }
  }

  lemma {:induction false} ValuesAppend(a: seq<MetricHistory>, b: seq<MetricHistory>, k: BucketKey)
    ensures Values(a + b, k) == Values(a, k) + Values(b, k)
  {
    if a == [] {
      assert a + b == b;
    } else {
      ValuesAppend(a[1..], b, k);
      assert (a + b)[1..] == a[1..] + b;
    }
  }

  /** Every value of a bucket comes from a row of it, and every row of it contributes its value. */
  lemma {:induction false} ValueIsThere(rows: seq<MetricHistory>, k: BucketKey, r: MetricHistory)
    requires r in rows && Feeds(r, k)
    ensures r.number.value in Values(rows, k)
  {
    if r != rows[0] {
      ValueIsThere(rows[1..], k, r);
    }
  }

  /** The numbers that a floor leaves out are exactly the rows of the bucket below it. */
  lemma {:induction false} RetainedValues(rows: seq<MetricHistory>, floor: Option<int>, k: BucketKey)
    ensures |Values(Retained(rows, floor), k)| <= |Values(rows, k)|
    ensures |Values(Retained(rows, floor), k)| == |Values(rows, k)| <==>
            forall r :: r in rows && Feeds(r, k) ==> AtOrAfter(r.at, floor)
    ensures (forall r :: r in rows && Feeds(r, k) ==> AtOrAfter(r.at, floor)) ==>
            Values(Retained(rows, floor), k) == Values(rows, k)
  {
    if rows == [] {
    } else {
      RetainedValues(rows[1..], floor, k);
      ConsTail(rows[0], Retained(rows[1..], floor));
      assert rows[0] in rows && forall r :: r in rows <==> r == rows[0] || r in rows[1..];
    }
  }

  // ---- Buckets against the closed-hour boundary ---------------------------------------------

  lemma GroupHasValues(rows: seq<MetricHistory>, boundary: int, k: BucketKey)
    requires k in GroupKeys(rows, boundary)
    ensures Values(Before(rows, boundary), k) != []
  {
    var r :| r in rows && r.number.Some? && r.at < boundary && KeyOf(r) == k;
    BeforeMembers(rows, boundary);
    assert r in Before(rows, boundary) && Feeds(r, k);
    ValuesNonEmpty(Before(rows, boundary), k);
  }

  /** An aligned boundary never splits a bucket: it keeps all of its rows or none of them. */
  lemma {:induction false} BoundaryKeepsBucketsWhole(rows: seq<MetricHistory>, boundary: int, k: BucketKey)
    requires boundary % HOUR == 0
    ensures Values(Before(rows, boundary), k) == if k.bucket < boundary then Values(rows, k) else []
  {
    if rows == [] {
    } else {
      BoundaryKeepsBucketsWhole(rows[1..], boundary, k);
      ConsTail(rows[0], Before(rows[1..], boundary));
      if Feeds(rows[0], k) {
        HourBeforeBoundary(rows[0].at, boundary);
      }
    }
  }

  /** What the aggregation query writes for a bucket, in terms of the raw rows alone. */
  lemma AggregateOfBucket(rows: seq<MetricHistory>, boundary: int, k: BucketKey)
    requires boundary % HOUR == 0
    ensures k in GroupKeys(rows, boundary) <==> k.bucket < boundary && Values(rows, k) != []
    ensures k in GroupKeys(rows, boundary) ==>
            HourlyAggregates(rows, boundary)[k] == Summarise(Values(rows, k))
  {
    BoundaryKeepsBucketsWhole(rows, boundary, k);
    ValuesNonEmpty(rows, k);
    if k in GroupKeys(rows, boundary) {
      GroupHasValues(rows, boundary, k);
    } else if k.bucket < boundary && Values(rows, k) != [] {
      var r :| r in rows && Feeds(r, k);
      HourBeforeBoundary(r.at, boundary);
      assert false;
    }
  }

  /** The cutoff never passes the closed-hour boundary: what is deleted was aggregated first. */
  lemma CutoffBeforeBoundary(now: int)
    ensures now - RETENTION <= HourOf(now)
  {
  }

  // ---- The numbers behind a trend, by their positions in the table --------------------------

  /** A numeric reading of the device and the metric within the hour that starts at the bucket. */
  predicate IsReadingOf(r: MetricHistory, k: BucketKey) {
    && r.number.Some? && r.device == k.device && r.metric == k.metric
    && k.bucket <= r.at < k.bucket + 3_600_000_000
  }

  /** A reading of the bucket within the bounds. */
  predicate Counts(r: MetricHistory, k: BucketKey, floor: Option<int>, boundary: Option<int>) {
    && IsReadingOf(r, k)
    && (floor.Some? ==> floor.value <= r.at) && (boundary.Some? ==> r.at < boundary.value)
  }

  /** The numbers at some positions of the table. */
  function NumbersAt(rows: seq<MetricHistory>, idx: seq<nat>): (numbers: seq<real>)
    requires forall j :: 0 <= j < |idx| ==> idx[j] < |rows| && rows[idx[j]].number.Some?
    ensures |numbers| == |idx| && forall j :: 0 <= j < |idx| ==> numbers[j] == rows[idx[j]].number.value
  {
    seq(|idx|, j requires 0 <= j < |idx| => rows[idx[j]].number.value)
  }

  /** The positions are exactly those of the readings of the bucket from `floor` on and before `boundary`. */
  ghost predicate AreReadings(rows: seq<MetricHistory>, idx: seq<nat>, k: BucketKey, floor: Option<int>,
                              boundary: Option<int>)
  {
    && Positions(idx, |rows|)
    && (forall j :: 0 <= j < |idx| ==> rows[idx[j]].number.Some?)
    && forall i: nat :: i in idx <==>
         i < |rows| && Counts(rows[i], k, floor, boundary)
  }

  lemma FeedsIsReading(r: MetricHistory, k: BucketKey)
    requires k.bucket % HOUR == 0
    ensures Feeds(r, k) <==> IsReadingOf(r, k)
  {
    if IsReadingOf(r, k) {
      HourIsUnique(r.at, k.bucket);
    }
  }

  /** Values takes every reading of the bucket exactly once, in table order, and nothing else. */
  lemma {:induction false} ValuesAreReadings(rows: seq<MetricHistory>, k: BucketKey) returns (idx: seq<nat>)
    requires k.bucket % HOUR == 0
    ensures AreReadings(rows, idx, k, None, None) && Values(rows, k) == NumbersAt(rows, idx)
  {
    if rows == [] {
      idx := [];
    } else {
      var n := |rows| - 1;
      var before := ValuesAreReadings(rows[..n], k);
      FeedsIsReading(rows[n], k);
      ValuesAppend(rows[..n], [rows[n]], k);
      assert rows == rows[..n] + [rows[n]];
      OneMoreReading(rows[..n], rows[n], before, k, None, None);
      idx := Grown(before, n, Counts(rows[n], k, None, None));
    }
  }

  /** The last row joins the positions if it is a reading of the bucket within the bounds. */
  lemma OneMoreReading(rows: seq<MetricHistory>, r: MetricHistory, before: seq<nat>, k: BucketKey,
                       floor: Option<int>, boundary: Option<int>)
    requires AreReadings(rows, before, k, floor, boundary)
    ensures var idx := Grown(before, |rows|, Counts(r, k, floor, boundary));
            && AreReadings(rows + [r], idx, k, floor, boundary)
            && NumbersAt(rows + [r], idx) ==
               if Counts(r, k, floor, boundary) then NumbersAt(rows, before) + [r.number.value]
               else NumbersAt(rows, before)
  {
    var kept := Counts(r, k, floor, boundary);
    var longer, idx := rows + [r], Grown(before, |rows|, kept);
    GrownPositions(before, |rows|, kept);
    assert forall i: nat :: i in idx <==> i < |longer| && Counts(longer[i], k, floor, boundary) by {
      assert forall i :: 0 <= i < |rows| ==> longer[i] == rows[i];
    }
    GrownNumbers(rows, r, before, kept);
  }

  lemma GrownNumbers(rows: seq<MetricHistory>, r: MetricHistory, before: seq<nat>, kept: bool)
    requires forall j :: 0 <= j < |before| ==> before[j] < |rows| && rows[before[j]].number.Some?
    requires kept ==> r.number.Some?
    ensures var idx := Grown(before, |rows|, kept);
            && (forall j :: 0 <= j < |idx| ==> idx[j] < |rows + [r]| && (rows + [r])[idx[j]].number.Some?)
            && NumbersAt(rows + [r], idx) ==
               if kept then NumbersAt(rows, before) + [r.number.value] else NumbersAt(rows, before)
  {
  }

  lemma {:induction false} BeforeSnoc(rows: seq<MetricHistory>, r: MetricHistory, boundary: int)
    ensures Before(rows + [r], boundary) == Before(rows, boundary) + if r.at < boundary then [r] else []
  {
    if rows == [] {
      assert rows + [r] == [r] && Before([r][1..], boundary) == [];
    } else {
      BeforeSnoc(rows[1..], r, boundary);
      assert (rows + [r])[0] == rows[0] && (rows + [r])[1..] == rows[1..] + [r];
    }
  }

  lemma {:induction false} ValuesBeforeAreReadings(rows: seq<MetricHistory>, boundary: int, k: BucketKey)
    returns (idx: seq<nat>)
    requires k.bucket % HOUR == 0
    ensures AreReadings(rows, idx, k, None, Some(boundary)) && Values(Before(rows, boundary), k) == NumbersAt(rows, idx)
  {
    if rows == [] {
      idx := [];
    } else {
      var n := |rows| - 1;
      var before := ValuesBeforeAreReadings(rows[..n], boundary, k);
      FeedsIsReading(rows[n], k);
      BeforeSnoc(rows[..n], rows[n], boundary);
      ValuesAppend(Before(rows[..n], boundary), if rows[n].at < boundary then [rows[n]] else [], k);
      assert rows == rows[..n] + [rows[n]];
      OneMoreReading(rows[..n], rows[n], before, k, None, Some(boundary));
      idx := Grown(before, n, Counts(rows[n], k, None, Some(boundary)));
    }
  }

  lemma {:induction false} ValuesRetainedAreReadings(rows: seq<MetricHistory>, floor: Option<int>, k: BucketKey)
    returns (idx: seq<nat>)
    requires k.bucket % HOUR == 0
    ensures AreReadings(rows, idx, k, floor, None) && Values(Retained(rows, floor), k) == NumbersAt(rows, idx)
  {
    if rows == [] {
      idx := [];
    } else {
      var n := |rows| - 1;
      var before := ValuesRetainedAreReadings(rows[..n], floor, k);
      FeedsIsReading(rows[n], k);
      RetainedAppend(rows[..n], [rows[n]], floor);
      ValuesAppend(Retained(rows[..n], floor), Retained([rows[n]], floor), k);
      assert rows == rows[..n] + [rows[n]];
      OneMoreReading(rows[..n], rows[n], before, k, floor, None);
      idx := Grown(before, n, Counts(rows[n], k, floor, None));
    }
  }

  /** A trend over the readings at some positions: their number, their sum, the least and the greatest. */
  predicate Summarises(trend: MetricTrend, rows: seq<MetricHistory>, idx: seq<nat>)
    requires forall j :: 0 <= j < |idx| ==> idx[j] < |rows| && rows[idx[j]].number.Some?
  {
    && trend.count == |idx| && trend.avg * trend.count as real == Sum(NumbersAt(rows, idx))
    && (forall j :: 0 <= j < |idx| ==> trend.min <= rows[idx[j]].number.value <= trend.max)
    && (exists j :: 0 <= j < |idx| && rows[idx[j]].number.value == trend.min)
    && (exists j :: 0 <= j < |idx| && rows[idx[j]].number.value == trend.max)
  }

  lemma SummaryOfNumbers(rows: seq<MetricHistory>, idx: seq<nat>)
    requires forall j :: 0 <= j < |idx| ==> idx[j] < |rows| && rows[idx[j]].number.Some?
    requires idx != []
    ensures Summarises(Summarise(NumbersAt(rows, idx)), rows, idx)
  {
    var numbers := NumbersAt(rows, idx);
    SummaryMeaning(numbers);
    DescribedIsSummarised(Summarise(numbers), rows, idx);
  }

  lemma DescribedIsSummarised(trend: MetricTrend, rows: seq<MetricHistory>, idx: seq<nat>)
    requires forall j :: 0 <= j < |idx| ==> idx[j] < |rows| && rows[idx[j]].number.Some?
    requires Describes(trend, NumbersAt(rows, idx))
    ensures Summarises(trend, rows, idx)
  {
    var numbers := NumbersAt(rows, idx);
    var i :| 0 <= i < |numbers| && numbers[i] == trend.min;
    var j :| 0 <= j < |numbers| && numbers[j] == trend.max;
    assert forall l :: 0 <= l < |idx| ==> numbers[l] in numbers;
  }

  /** The aggregation query, for any table and boundary: a bucket has a group exactly if it starts on the hour
      and holds a reading before the boundary; and the group counts each such reading once and nothing else. */
  lemma TrendOverReadings(rows: seq<MetricHistory>, boundary: int, k: BucketKey) returns (idx: seq<nat>)
    requires k.bucket % 3_600_000_000 == 0
    ensures AreReadings(rows, idx, k, None, Some(boundary))
    ensures k in HourlyAggregates(rows, boundary) <==> idx != []
    ensures idx != [] ==> Summarises(HourlyAggregates(rows, boundary)[k], rows, idx)
  {
    idx := ValuesBeforeAreReadings(rows, boundary, k);
    GroupIsThere(rows, boundary, k);
    if idx != [] {
      SummaryOfNumbers(rows, idx);
    }
  }

  lemma GroupIsThere(rows: seq<MetricHistory>, boundary: int, k: BucketKey)
    ensures k in GroupKeys(rows, boundary) <==> Values(Before(rows, boundary), k) != []
    ensures k in GroupKeys(rows, boundary) ==> k.bucket % 3_600_000_000 == 0
  {
    BeforeMembers(rows, boundary);
    ValuesNonEmpty(Before(rows, boundary), k);
    if r :| r in Before(rows, boundary) && Feeds(r, k) {
      assert r in rows && KeyOf(r) == k;
    }
    if k in GroupKeys(rows, boundary) {
      GroupHasValues(rows, boundary, k);
    }
  }

  // ---- One cycle ----------------------------------------------------------------------------

  /** The rows at some positions of the table. */
  function RowsAt(rows: seq<MetricHistory>, idx: seq<nat>): (picked: seq<MetricHistory>)
    requires Positions(idx, |rows|)
    ensures |picked| == |idx| && forall j :: 0 <= j < |idx| ==> picked[j] == rows[idx[j]]
  {
    seq(|idx|, j requires 0 <= j < |idx| => rows[idx[j]])
  }

  /** The positions are exactly those of the rows at or after the floor. */
  ghost predicate AreSince(rows: seq<MetricHistory>, idx: seq<nat>, floor: int) {
    Positions(idx, |rows|) && forall i: nat :: i in idx <==> i < |rows| && floor <= rows[i].at
  }

  lemma {:induction false} RetainedAtPositions(rows: seq<MetricHistory>, floor: int) returns (idx: seq<nat>)
    ensures AreSince(rows, idx, floor) && Retained(rows, Some(floor)) == RowsAt(rows, idx)
  {
    if rows == [] {
      idx := [];
    } else {
      var n := |rows| - 1;
      var before := RetainedAtPositions(rows[..n], floor);
      idx := Grown(before, n, floor <= rows[n].at);
      RetainedSnoc(rows[..n], rows[n], floor);
      OneMoreSince(rows[..n], rows[n], before, floor);
      assert rows == rows[..n] + [rows[n]];
    }
  }

  lemma OneMoreSince(rows: seq<MetricHistory>, r: MetricHistory, before: seq<nat>, floor: int)
    requires AreSince(rows, before, floor)
    ensures var idx := Grown(before, |rows|, floor <= r.at);
            && AreSince(rows + [r], idx, floor)
            && RowsAt(rows + [r], idx) ==
               if floor <= r.at then RowsAt(rows, before) + [r] else RowsAt(rows, before)
  {
    GrownPositions(before, |rows|, floor <= r.at);
  }

  lemma RetainedSnoc(rows: seq<MetricHistory>, r: MetricHistory, floor: int)
    ensures Retained(rows + [r], Some(floor)) ==
            if floor <= r.at then Retained(rows, Some(floor)) + [r] else Retained(rows, Some(floor))
  {
    RetainedAppend(rows, [r], Some(floor));
    assert Retained([r][1..], Some(floor)) == [];
  }

  /** A committed cycle keeps the raw rows of the last seven days, each of them, in order, and touches neither
      devices nor events nor definitions. */
  lemma CycleKeepsRecentRows(t: Tables, now: int) returns (kept: seq<nat>)
    ensures var u := Housekept(t, now);
            && u.devices == t.devices && u.events == t.events && u.definitions == t.definitions
            && AreSince(t.history, kept, now - 604_800_000_000) && u.history == RowsAt(t.history, kept)
  {
    kept := RetainedAtPositions(t.history, now - 604_800_000_000);
  }

  /** It rewrites the trend of a bucket exactly if the table holds a reading of it from before the current hour,
      from all of these; every other trend stays as it is. */
  lemma CycleRewritesTrend(t: Tables, now: int, k: BucketKey) returns (idx: seq<nat>)
    requires k.bucket % 3_600_000_000 == 0
    ensures AreReadings(t.history, idx, k, None, Some(now - now % 3_600_000_000))
    ensures var trends := Housekept(t, now).trends;
            if idx != [] then k in trends && Summarises(trends[k], t.history, idx)
            else (k in trends <==> k in t.trends) && (k in trends ==> trends[k] == t.trends[k])
  {
    idx := RewrittenTrend(t.trends, t.history, HourOf(now), k);
  }

  lemma RewrittenTrend(trends: map<BucketKey, MetricTrend>, rows: seq<MetricHistory>, boundary: int, k: BucketKey)
    returns (idx: seq<nat>)
    requires k.bucket % 3_600_000_000 == 0
    ensures AreReadings(rows, idx, k, None, Some(boundary))
    ensures var after := trends + HourlyAggregates(rows, boundary);
            if idx != [] then k in after && Summarises(after[k], rows, idx)
            else (k in after <==> k in trends) && (k in after ==> after[k] == trends[k])
  {
    idx := TrendOverReadings(rows, boundary, k);
  }

  /** A numeric row that a cycle deletes has a trend in the same commit, and lies between its bounds. */
  lemma DeletedRowsAreAggregated(t: Tables, now: int, r: MetricHistory)
    requires r in t.history && r.number.Some?
    requires r !in Housekept(t, now).history
    ensures KeyOf(r) in Housekept(t, now).trends
    ensures var trend := Housekept(t, now).trends[KeyOf(r)];
            trend.min <= r.number.value <= trend.max && trend.min <= trend.avg <= trend.max
  {
    RetainedMembers(t.history, Some(now - RETENTION));
    CutoffBeforeBoundary(now);
    var k := KeyOf(r);
    AggregateOfBucket(t.history, HourOf(now), k);
    ValueIsThere(t.history, k, r);
    var vs := Values(t.history, k);
    MeanBounds(vs, MinOf(vs), MaxOf(vs));
  }

  /** Aggregating again recomputes and never accumulates: after more rows have come in and the boundary has
      moved on, every trend of a closed hour with rows is the summary of all of these, each counted once. */
  lemma AggregatingAgainRecomputes(trends: map<BucketKey, MetricTrend>, rows: seq<MetricHistory>,
                                   more: seq<MetricHistory>, boundary: int, later: int, k: BucketKey)
    requires boundary <= later && boundary % HOUR == 0 && later % HOUR == 0
    ensures var twice := trends + HourlyAggregates(rows, boundary) + HourlyAggregates(rows + more, later);
            var values := Values(rows, k) + Values(more, k);
            if k.bucket < later && values != [] then k in twice && twice[k] == Summarise(values)
            else (k in twice <==> k in trends) && (k in twice ==> twice[k] == trends[k])
  {
    AggregateOfBucket(rows, boundary, k);
    AggregateOfBucket(rows + more, later, k);
    ValuesAppend(rows, more, k);
  }

  /** Some bucket has numeric rows on both sides of the cutoff. */
  ghost predicate Splits(rows: seq<MetricHistory>, cutoff: int) {
    exists r, s :: r in rows && s in rows && r.number.Some? && s.number.Some? &&
                   KeyOf(r) == KeyOf(s) && r.at < cutoff <= s.at
  }

  /** A whole cycle repeated at the same instant changes nothing exactly when no bucket is split by
      the cutoff: a split bucket is aggregated again, from its surviving rows only. */
  lemma CycleIsIdempotentUnlessItSplits(t: Tables, now: int)
    ensures Housekept(Housekept(t, now), now) == Housekept(t, now) <==> !Splits(t.history, now - RETENTION)
  {
    var cutoff, boundary := now - RETENTION, HourOf(now);
    var once := t.trends + HourlyAggregates(t.history, boundary);
    var kept := Retained(t.history, Some(cutoff));
    RetainedTwice(t.history, Some(cutoff), cutoff);
    CutoffBeforeBoundary(now);
    if Splits(t.history, cutoff) {
      var r, s :| r in t.history && s in t.history && r.number.Some? && s.number.Some? &&
                  KeyOf(r) == KeyOf(s) && r.at < cutoff <= s.at;
      SplitBucketChanges(t.history, cutoff, boundary, r, s);
      assert (once + HourlyAggregates(kept, boundary))[KeyOf(s)] != once[KeyOf(s)];
    } else {
      forall k | k in GroupKeys(kept, boundary)
        ensures k in once && HourlyAggregates(kept, boundary)[k] == once[k]
      {
        UnsplitBucketStays(t.history, cutoff, boundary, k);
      }
      assert once + HourlyAggregates(kept, boundary) == once;
    }
  }

  lemma SplitBucketChanges(rows: seq<MetricHistory>, cutoff: int, boundary: int, r: MetricHistory, s: MetricHistory)
    requires boundary % HOUR == 0 && cutoff <= boundary
    requires r in rows && s in rows && r.number.Some? && s.number.Some?
    requires KeyOf(r) == KeyOf(s) && r.at < cutoff <= s.at
    ensures var k := KeyOf(s);
            var kept := Retained(rows, Some(cutoff));
            k in HourlyAggregates(rows, boundary) && k in HourlyAggregates(kept, boundary) &&
            HourlyAggregates(kept, boundary)[k].count < HourlyAggregates(rows, boundary)[k].count
  {
    var k := KeyOf(s);
    var kept := Retained(rows, Some(cutoff));
    HourBeforeBoundary(r.at, boundary);
    assert Feeds(r, k) && Feeds(s, k);
    RetainedMembers(rows, Some(cutoff));
    ValuesNonEmpty(rows, k);
    ValuesNonEmpty(kept, k);
    AggregateOfBucket(rows, boundary, k);
    AggregateOfBucket(kept, boundary, k);
    RetainedValues(rows, Some(cutoff), k);
  }

  lemma UnsplitBucketStays(rows: seq<MetricHistory>, cutoff: int, boundary: int, k: BucketKey)
    requires boundary % HOUR == 0 && !Splits(rows, cutoff)
    requires k in GroupKeys(Retained(rows, Some(cutoff)), boundary)
    ensures k in GroupKeys(rows, boundary)
    ensures HourlyAggregates(Retained(rows, Some(cutoff)), boundary)[k] == HourlyAggregates(rows, boundary)[k]
  {
    var kept := Retained(rows, Some(cutoff));
    RetainedMembers(rows, Some(cutoff));
    var s :| s in kept && s.number.Some? && s.at < boundary && KeyOf(s) == k;
    AggregateOfBucket(rows, boundary, k);
    AggregateOfBucket(kept, boundary, k);
    RetainedValues(rows, Some(cutoff), k);
  }
}
