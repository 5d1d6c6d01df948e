/** Whole runs of the two writers of the metric tables: collection cycles that insert raw rows, and
    housekeeping cycles that aggregate and delete. Every statement about the tables is made in terms
    of the log of the run alone: what was inserted, and which cycles committed. */
module RollupRuns {
  import opened Wrappers
  import opened Clock
  import opened Models
  import opened Aggregation
  import opened Selection
  import opened Rollup

  datatype Step =
    | Insert(rows: seq<MetricHistory>)            // a collection cycle committed these rows
    | Housekeeping(now: int, committed: bool)     // a housekeeping cycle committed or rolled back

  function Apply(t: Tables, step: Step): Tables {
    match step
    case Insert(rows) => t.(history := t.history + rows)
    case Housekeeping(now, committed) => if committed then Housekept(t, now) else t
  }

  function Exec(t: Tables, run: seq<Step>): Tables {
    if run == [] then t
    else Apply(Exec(t, run[..|run| - 1]), run[|run| - 1])
  }

  predicate Empty(t: Tables) {
    t.history == [] && t.trends == map[]
  }

  // ---- The log of a run ---------------------------------------------------------------------

  function Inserted(run: seq<Step>): seq<MetricHistory> {
    if run == [] then []
    else
      var log := Inserted(run[..|run| - 1]);
      match run[|run| - 1]
      case Insert(rows) => log + rows
      case Housekeeping(_, _) => log
  }

  predicate Commits(step: Step) {
    step.Housekeeping? && step.committed
  }

  /** The position of the last committed housekeeping cycle. */
  function LastCycle(run: seq<Step>): (j: Option<nat>)
    ensures j.Some? ==> j.value < |run| && Commits(run[j.value])
  {
    if run == [] then None
    else if Commits(run[|run| - 1]) then Some(|run| - 1)
    else LastCycle(run[..|run| - 1])
  }

  /** The retention cutoff of the last committed cycle. */
  function LastCutoff(run: seq<Step>): Option<int> {
    match LastCycle(run)
    case None => None
    case Some(j) => Some(run[j].now - RETENTION)
  }

  /** Clock readings of committed cycles never decrease, and no row is committed that is already older
      than the last cutoff used (a collection cycle lasts less than the seven days of retention). */
  predicate ValidRun(run: seq<Step>) {
    run != [] ==>
      var before := run[..|run| - 1];
      ValidRun(before) &&
      match run[|run| - 1]
      case Insert(rows) => forall r :: r in rows ==> AtOrAfter(r.at, LastCutoff(before))
      case Housekeeping(now, committed) => committed ==> AtOrAfter(now - RETENTION, LastCutoff(before))
  }

  /** The raw rows that the log says are left. */
  function Surviving(run: seq<Step>): seq<MetricHistory> {
    Retained(Inserted(run), LastCutoff(run))
  }

  /** The last committed cycle that found a surviving row of bucket `k` in a closed hour. */
  function LastRewrite(run: seq<Step>, k: BucketKey): (i: Option<nat>)
    ensures i.Some? ==> i.value < |run| && Commits(run[i.value])
  {
    if run == [] then None
    else
      var before, step := run[..|run| - 1], run[|run| - 1];
      if Commits(step) && k in GroupKeys(Surviving(before), HourOf(step.now)) then Some(|run| - 1)
      else LastRewrite(before, k)
  }

  // ---- The raw table ------------------------------------------------------------------------

  /** The raw table is the suffix in time of everything inserted that starts at the last cutoff. */
  lemma {:induction false} RawTableIsSurviving(t: Tables, run: seq<Step>)
    requires Empty(t) && ValidRun(run)
    ensures Exec(t, run).history == Surviving(run)
  {
    if run == [] {
    } else {
      var before := run[..|run| - 1];
      RawTableIsSurviving(t, before);
      LastCycleOfPrefix(run);
      match run[|run| - 1] {
        case Insert(rows) =>
          RetainedAppend(Inserted(before), rows, LastCutoff(before));
          RetainedAll(rows, LastCutoff(before));
        case Housekeeping(now, committed) =>
          if committed {
            RetainedTwice(Inserted(before), LastCutoff(before), now - RETENTION);
          }
      }
    }
  }

  lemma LastCycleOfPrefix(run: seq<Step>)
    requires run != []
    ensures !Commits(run[|run| - 1]) ==> LastCutoff(run) == LastCutoff(run[..|run| - 1])
    ensures Commits(run[|run| - 1]) ==> LastCutoff(run) == Some(run[|run| - 1].now - RETENTION)
  {
  }

  // ---- The trend table ----------------------------------------------------------------------

  /** A bucket has a trend exactly when some committed cycle aggregated it, and the trend is then the
      minimum, maximum, mean and count of the rows of that bucket inserted before the last such cycle
      and not older than the cutoff in force when it ran. */
  lemma {:induction false} TrendIsLastRewrite(t: Tables, run: seq<Step>, k: BucketKey)
    requires Empty(t) && ValidRun(run)
    ensures k in Exec(t, run).trends <==> LastRewrite(run, k).Some?
    ensures LastRewrite(run, k).Some? ==>
              var kept := Values(Surviving(run[..LastRewrite(run, k).value]), k);
              kept != [] && Exec(t, run).trends[k] == Summarise(kept)
  {
    if run == [] {
    } else {
      var before, step := run[..|run| - 1], run[|run| - 1];
      TrendIsLastRewrite(t, before, k);
      RawTableIsSurviving(t, before);
      if Commits(step) && k in GroupKeys(Surviving(before), HourOf(step.now)) {
        AggregateOfBucket(Surviving(before), HourOf(step.now), k);
      } else if LastRewrite(before, k).Some? {
        assert before[..LastRewrite(before, k).value] == run[..LastRewrite(before, k).value];
      }
    }
  }

  /** The same by the positions of the log: over every run a trend counts each reading of its bucket once that
      was inserted before the last rewrite and is not older than the cutoff then in force, and nothing else. */
  lemma TrendOverLog(t: Tables, run: seq<Step>, k: BucketKey) returns (idx: seq<nat>)
    requires Empty(t) && ValidRun(run) && k in Exec(t, run).trends
    ensures LastRewrite(run, k).Some? && k.bucket % 3_600_000_000 == 0
    ensures var before := run[..LastRewrite(run, k).value];
            && AreReadings(Inserted(before), idx, k, LastCutoff(before), None) && idx != []
            && Summarises(Exec(t, run).trends[k], Inserted(before), idx)
  {
    TrendIsLastRewrite(t, run, k);
    var before := run[..LastRewrite(run, k).value];
    ValuesNonEmpty(Surviving(before), k);
    idx := ValuesRetainedAreReadings(Inserted(before), LastCutoff(before), k);
    SummaryOfNumbers(Inserted(before), idx);
  }

  /** The rows of a bucket that has a trend were all inserted before its last rewrite, as far as the
      last committed cycle can tell: a later row would have survived until then and forced another one. */
  lemma {:induction false} NothingNewSinceRewrite(run: seq<Step>, k: BucketKey)
    requires ValidRun(run) && LastRewrite(run, k).Some?
    ensures LastCycle(run).Some? && LastRewrite(run, k).value <= LastCycle(run).value
    ensures k.bucket < HourOf(run[LastCycle(run).value].now)
    ensures Values(Inserted(run[..LastCycle(run).value]), k) == Values(Inserted(run[..LastRewrite(run, k).value]), k)
  {
    var before, step := run[..|run| - 1], run[|run| - 1];
    if LastRewrite(run, k) == Some(|run| - 1) {
      AggregateOfBucket(Surviving(before), HourOf(step.now), k);
    } else {
      NothingNewSinceRewrite(before, k);
      var i, j := LastRewrite(before, k).value, LastCycle(before).value;
      assert before[..i] == run[..i] && before[..j] == run[..j];
      if Commits(step) {
        CycleWithoutRewrite(before, step.now, k);
      }
    }
  }

  lemma CycleWithoutRewrite(run: seq<Step>, now: int, k: BucketKey)
    requires ValidRun(run) && LastCycle(run).Some? && AtOrAfter(now - RETENTION, LastCutoff(run))
    requires k.bucket < HourOf(run[LastCycle(run).value].now)
    requires k !in GroupKeys(Surviving(run), HourOf(now))
    ensures k.bucket < HourOf(now) && Values(Inserted(run), k) == Values(Inserted(run[..LastCycle(run).value]), k)
  {
    HoursGrow(run[LastCycle(run).value].now, now);
    RecentRowsForceRewrite(run, k, HourOf(now));
  }

  /** A bucket of a closed hour without surviving rows got no row since the last committed cycle. */
  lemma RecentRowsForceRewrite(run: seq<Step>, k: BucketKey, boundary: int)
    requires ValidRun(run) && LastCycle(run).Some?
    requires boundary % HOUR == 0 && k.bucket < boundary && k !in GroupKeys(Surviving(run), boundary)
    ensures Values(Inserted(run), k) == Values(Inserted(run[..LastCycle(run).value]), k)
  {
    var log := Inserted(run[..LastCycle(run).value]);
    var recent := InsertedSinceLastCycle(run);
    AggregateOfBucket(Surviving(run), boundary, k);
    RetainedAppend(log, recent, LastCutoff(run));
    RetainedAll(recent, LastCutoff(run));
    ValuesAppend(Retained(log, LastCutoff(run)), recent, k);
    ValuesAppend(log, recent, k);
  }

  /** What was inserted after the last committed cycle is not older than its cutoff. */
  lemma {:induction false} InsertedSinceLastCycle(run: seq<Step>) returns (recent: seq<MetricHistory>)
    requires ValidRun(run) && LastCycle(run).Some?
    ensures Inserted(run) == Inserted(run[..LastCycle(run).value]) + recent
    ensures forall r :: r in recent ==> AtOrAfter(r.at, LastCutoff(run))
  {
    var before, step := run[..|run| - 1], run[|run| - 1];
    if Commits(step) {
      recent := [];
    } else {
      recent := InsertedSinceLastCycle(before);
      assert before[..LastCycle(run).value] == run[..LastCycle(run).value];
      if step.Insert? {
        recent := recent + step.rows;
      }
    }
  }

  // ---- When a trend still describes its whole hour ------------------------------------------

  /** Everything inserted for the bucket up to the last committed cycle. */
  function WholeHour(run: seq<Step>, k: BucketKey): seq<real> {
    match LastCycle(run)
    case None => []
    case Some(j) => Values(Inserted(run[..j]), k)
  }

  /** A trend is the aggregate of its whole hour exactly when no row of the hour was older than the
      cutoff in force at the last rewrite, that is, when no cycle aggregated it after losing a part. */
  lemma TrendIsWholeHourIff(t: Tables, run: seq<Step>, k: BucketKey)
    requires Empty(t) && ValidRun(run) && k in Exec(t, run).trends
    ensures WholeHour(run, k) != []
    ensures LastRewrite(run, k).Some? && LastCycle(run).Some?
    ensures Exec(t, run).trends[k] == Summarise(WholeHour(run, k)) <==>
            forall r :: r in Inserted(run[..LastCycle(run).value]) && Feeds(r, k) ==>
              AtOrAfter(r.at, LastCutoff(run[..LastRewrite(run, k).value]))
  {
    TrendIsLastRewrite(t, run, k);
    NothingNewSinceRewrite(run, k);
    var i, j := LastRewrite(run, k).value, LastCycle(run).value;
    var floor := LastCutoff(run[..i]);
    RetainedValues(Inserted(run[..i]), floor, k);
    SameRowsSameFloor(Inserted(run[..i]), Inserted(run[..j]), run, i, j, k, floor);
  }

  /** Two logs, one a prefix of the other, with the same values for a bucket hold the same rows of it. */
  lemma SameRowsSameFloor(a: seq<MetricHistory>, b: seq<MetricHistory>, run: seq<Step>, i: nat, j: nat,
                          k: BucketKey, floor: Option<int>)
    requires i <= j <= |run| && a == Inserted(run[..i]) && b == Inserted(run[..j])
    requires Values(a, k) == Values(b, k)
    ensures (forall r :: r in a && Feeds(r, k) ==> AtOrAfter(r.at, floor)) <==>
            (forall r :: r in b && Feeds(r, k) ==> AtOrAfter(r.at, floor))
  {
    var more := InsertedGrows(run[..j], i);
    assert run[..j][..i] == run[..i];
    ValuesAppend(a, more, k);
    ValuesNonEmpty(more, k);
    assert forall r :: r in b <==> r in a || r in more;
  }

  lemma {:induction false} InsertedGrows(run: seq<Step>, i: nat) returns (more: seq<MetricHistory>)
    requires i <= |run|
    ensures Inserted(run) == Inserted(run[..i]) + more
  {
    if i == |run| {
      assert run[..i] == run;
      more := [];
    } else {
      var before := run[..|run| - 1];
      more := InsertedGrows(before, i);
      assert before[..i] == run[..i];
      if run[|run| - 1].Insert? {
        more := more + run[|run| - 1].rows;
      }
    }
  }

  /** Cutoffs grow along a run. */
  lemma {:induction false} CutoffsGrow(run: seq<Step>, i: nat)
    requires ValidRun(run) && i <= |run|
    ensures ValidRun(run[..i])
    ensures LastCutoff(run[..i]).Some? ==>
              LastCutoff(run).Some? && LastCutoff(run[..i]).value <= LastCutoff(run).value
  {
    if i == |run| {
      assert run[..i] == run;
    } else {
      var before := run[..|run| - 1];
      CutoffsGrow(before, i);
      assert before[..i] == run[..i];
      LastCycleOfPrefix(run);
    }
  }

  /** While the hour starts at or after every cutoff used so far, its trend covers all of it. */
  lemma TrendIsWholeWithinRetention(t: Tables, run: seq<Step>, k: BucketKey)
    requires Empty(t) && ValidRun(run) && k in Exec(t, run).trends
    requires AtOrAfter(k.bucket, LastCutoff(run))
    ensures WholeHour(run, k) != [] && Exec(t, run).trends[k] == Summarise(WholeHour(run, k))
  {
    TrendIsWholeHourIff(t, run, k);
    CutoffsGrow(run, LastRewrite(run, k).value);
  }

  predicate HourAligned(run: seq<Step>) {
    forall i :: 0 <= i < |run| && Commits(run[i]) ==> run[i].now % HOUR == 0
  }

  /** If every housekeeping cycle ran on the hour, every trend would cover its whole hour for ever. */
  lemma TrendIsWholeForEverIfAligned(t: Tables, run: seq<Step>, k: BucketKey)
    requires Empty(t) && ValidRun(run) && HourAligned(run) && k in Exec(t, run).trends
    ensures WholeHour(run, k) != [] && Exec(t, run).trends[k] == Summarise(WholeHour(run, k))
  {
    TrendIsLastRewrite(t, run, k);
    TrendIsWholeHourIff(t, run, k);
    AlignedFloorIsLow(run, LastRewrite(run, k).value, k);
  }

  /** An aligned cutoff that spares one row of an hour spares all of it. */
  lemma AlignedFloorIsLow(run: seq<Step>, i: nat, k: BucketKey)
    requires i <= |run| && HourAligned(run) && Values(Surviving(run[..i]), k) != []
    ensures AtOrAfter(k.bucket, LastCutoff(run[..i]))
  {
    var before := run[..i];
    ValuesNonEmpty(Surviving(before), k);
    var s :| s in Surviving(before) && Feeds(s, k);
    RetainedMembers(Inserted(before), LastCutoff(before));
    if LastCutoff(before).Some? {
      assert before[LastCycle(before).value] == run[LastCycle(before).value];
      HourBeforeBoundary(s.at, LastCutoff(before).value);
    }
  }

  // ---- What a trend describes in the end ----------------------------------------------------

  /** Committed cycles start less than `every` after the committed one before. */
  predicate CyclesWithin(run: seq<Step>, every: int) {
    run != [] ==>
      var before, step := run[..|run| - 1], run[|run| - 1];
      && CyclesWithin(before, every)
      && (Commits(step) && LastCycle(before).Some? ==> step.now < run[LastCycle(before).value].now + every)
  }

  /** No row of the bucket that the last rewrite aggregated outlived the cutoff of a later cycle: it would
      have forced another rewrite. */
  lemma {:induction false} NothingOutlivesLastRewrite(run: seq<Step>, k: BucketKey, r: MetricHistory)
    requires ValidRun(run) && LastRewrite(run, k).Some? && LastCycle(run) != LastRewrite(run, k)
    requires r in Inserted(run[..LastRewrite(run, k).value]) && Feeds(r, k)
    ensures r.at < run[LastRewrite(run, k).value].now - RETENTION
  {
    var before, step, i := run[..|run| - 1], run[|run| - 1], LastRewrite(run, k).value;
    assert before[..i] == run[..i];
    if LastCycle(before) != LastRewrite(before, k) {
      NothingOutlivesLastRewrite(before, k, r);
    } else {
      NothingNewSinceRewrite(before, k);
      HoursGrow(run[i].now, step.now);
      AggregateOfBucket(Surviving(before), HourOf(step.now), k);
      ValuesNonEmpty(Surviving(before), k);
      RetainedMembers(Inserted(before), LastCutoff(before));
      var more := InsertedGrows(before, i);
      assert r in Inserted(before);
    }
  }

  /** The final trend of an hour describes one interval between two cycles, not the hour: once a cutoff has
      passed the end of the hour, all readings in its trend lie within `every` after the cutoff that was
      in force when it was written last (unless it was written by the first cycle of all). */
  lemma FinalTrendCoversOneInterval(t: Tables, run: seq<Step>, k: BucketKey, every: int)
    requires Empty(t) && ValidRun(run) && CyclesWithin(run, every) && k in Exec(t, run).trends
    requires LastCutoff(run).Some? && k.bucket + HOUR <= LastCutoff(run).value
    ensures LastRewrite(run, k).Some?
    ensures var kept := Surviving(run[..LastRewrite(run, k).value]);
            var floor := LastCutoff(run[..LastRewrite(run, k).value]);
            && Values(kept, k) != [] && Exec(t, run).trends[k] == Summarise(Values(kept, k))
            && forall r :: r in kept && Feeds(r, k) && floor.Some? ==> floor.value <= r.at < floor.value + every
  {
    TrendIsLastRewrite(t, run, k);
    var i := LastRewrite(run, k).value;
    var floor := LastCutoff(run[..i]);
    RetainedMembers(Inserted(run[..i]), floor);
    forall r | r in Surviving(run[..i]) && Feeds(r, k) && floor.Some?
      ensures floor.value <= r.at < floor.value + every
    {
      if LastCycle(run) != Some(i) {
        NothingOutlivesLastRewrite(run, k, r);
      }
      CyclesWithinAt(run, i, every);
    }
  }

  lemma {:induction false} CyclesWithinAt(run: seq<Step>, i: nat, every: int)
    requires CyclesWithin(run, every) && i < |run| && Commits(run[i]) && LastCutoff(run[..i]).Some?
    ensures run[i].now - RETENTION < LastCutoff(run[..i]).value + every
  {
    var before := run[..|run| - 1];
    if i == |run| - 1 {
      assert before[LastCycle(before).value] == run[LastCycle(before).value];
    } else {
      assert before[..i] == run[..i];
      CyclesWithinAt(before, i, every);
    }
  }

  const MINUTE: int := 60 * SECOND
  const EARLY := MetricHistory(1, 1, 10 * MINUTE, Some(1.0), None)
  const LATE := MetricHistory(1, 1, 50 * MINUTE, Some(3.0), None)
  const READINGS := Insert([EARLY, LATE])
  const FIRST_CYCLE := Housekeeping(RETENTION + 20 * MINUTE, true)
  const SECOND_CYCLE := Housekeeping(RETENTION + 35 * MINUTE, true)

  /** With the real, unaligned cutoff it is not for ever. Two readings at minutes 10 and 50 of an hour;
      seven days later, cycles at minutes 20 and 35 of that hour: the second one rewrites the trend from
      the one surviving reading. */
  lemma StraddledHourLosesReadings(t: Tables)
    requires Empty(t)
    ensures var run := [READINGS, FIRST_CYCLE, SECOND_CYCLE];
            var k := BucketKey(1, 1, 0);
            ValidRun(run) && k in Exec(t, run).trends && WholeHour(run, k) == [1.0, 3.0] &&
            Exec(t, run).trends[k] == MetricTrend(3.0, 3.0, 3.0, 1)
  {
    var run, k := [READINGS, FIRST_CYCLE, SECOND_CYCLE], BucketKey(1, 1, 0);
    assert run[..2] == [READINGS, FIRST_CYCLE];
    StraddlingLog();
    StraddlingValues();
    assert LastRewrite(run, k) == Some(2) by {
      AggregateOfBucket([LATE], HourOf(SECOND_CYCLE.now), k);
    }
    TrendIsLastRewrite(t, run, k);
    assert Sum([3.0]) == 3.0;
  }

  lemma StraddlingValues()
    ensures Values([LATE], BucketKey(1, 1, 0)) == [3.0]
    ensures Values([EARLY, LATE], BucketKey(1, 1, 0)) == [1.0, 3.0]
  {
    HourIsUnique(EARLY.at, 0);
    HourIsUnique(LATE.at, 0);
    assert [EARLY, LATE][1..] == [LATE];
  }

  /** Repeated at the same instant, the first of these cycles changes the trend that it has just written. */
  lemma SplitCycleRepeated(t: Tables)
    requires Empty(t)
    ensures var u := Exec(t, [READINGS]);
            Housekept(Housekept(u, FIRST_CYCLE.now), FIRST_CYCLE.now) != Housekept(u, FIRST_CYCLE.now)
  {
    var u := Exec(t, [READINGS]);
    assert [READINGS][..0] == [] && [] + [EARLY, LATE] == [EARLY, LATE];
    HourIsUnique(EARLY.at, 0);
    HourIsUnique(LATE.at, 0);
    assert EARLY in u.history && LATE in u.history;
    CycleIsIdempotentUnlessItSplits(u, FIRST_CYCLE.now);
  }

  lemma StraddlingLog()
    ensures var run := [READINGS, FIRST_CYCLE];
            ValidRun(run) && LastCutoff(run) == Some(20 * MINUTE) &&
            Inserted(run) == [EARLY, LATE] && Surviving(run) == [LATE]
  {
    var run := [READINGS, FIRST_CYCLE];
    assert run[..1] == [READINGS] && [READINGS][..0] == [];
    assert LastCutoff([READINGS]) == None && ValidRun([]);
    assert Inserted([READINGS]) == [EARLY, LATE];
    assert [EARLY, LATE][1..] == [LATE];
    assert Retained([LATE], Some(20 * MINUTE)) == [LATE];
  }

  /** Once the cutoff has passed the end of an hour, its trend is final. */
  lemma {:induction false} TrendIsFinalAfterRetention(t: Tables, run: seq<Step>, i: nat, k: BucketKey)
    requires Empty(t) && ValidRun(run) && i <= |run|
    requires LastCutoff(run[..i]).Some? && k.bucket + HOUR <= LastCutoff(run[..i]).value
    ensures k in Exec(t, run).trends <==> k in Exec(t, run[..i]).trends
    ensures k in Exec(t, run).trends ==> Exec(t, run).trends[k] == Exec(t, run[..i]).trends[k]
  {
    if i == |run| {
      assert run[..i] == run;
    } else {
      var before, step := run[..|run| - 1], run[|run| - 1];
      assert before[..i] == run[..i];
      TrendIsFinalAfterRetention(t, before, i, k);
      if Commits(step) {
        CutoffsGrow(before, i);
        RawTableIsSurviving(t, before);
        RetainedMembers(Inserted(before), LastCutoff(before));
      }
    }
  }

  // ---- Nothing is erased without a trend ----------------------------------------------------

  /** A bucket that has a trend keeps one for ever. */
  lemma {:induction false} TrendKeysStay(t: Tables, run: seq<Step>, i: nat)
    requires i <= |run|
    ensures Exec(t, run[..i]).trends.Keys <= Exec(t, run).trends.Keys
  {
    if i == |run| {
      assert run[..i] == run;
    } else {
      var before := run[..|run| - 1];
      TrendKeysStay(t, before, i);
      assert before[..i] == run[..i];
    }
  }

  /** A numeric row that was ever inserted is still in the raw table, or it is older than the last
      cutoff and its bucket has a trend. */
  lemma {:induction false} EveryReadingIsKept(t: Tables, run: seq<Step>, r: MetricHistory)
    requires Empty(t) && ValidRun(run) && r in Inserted(run) && r.number.Some?
    ensures r in Exec(t, run).history ||
            (!AtOrAfter(r.at, LastCutoff(run)) && KeyOf(r) in Exec(t, run).trends)
  {
    RawTableIsSurviving(t, run);
    RetainedMembers(Inserted(run), LastCutoff(run));
    if r !in Exec(t, run).history {
      var before, step := run[..|run| - 1], run[|run| - 1];
      LastCycleOfPrefix(run);
      EveryReadingIsKept(t, before, r);
      if Commits(step) && r in Exec(t, before).history {
        DeletedRowsAreAggregated(Exec(t, before), step.now, r);
      }
    }
  }
}
