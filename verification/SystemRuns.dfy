/** Whole runs of everything that writes the tables: scans, collection cycles and housekeeping cycles on one
    database and one clock. Both halves of the state keep their meaning, and they agree with each other. */
module SystemRuns {
  import opened Wrappers
  import opened Clock
  import opened Models
  import opened Timeline
  import opened DeviceIdentity
  import opened DeviceScan
  import opened Collection
  import opened Rollup
  import MonitorRuns
  import MonitorTheorems
  import RollupRuns
  import AvailabilityEtl
  import Chart

  /** In the order of their commits. A cycle begins and ends at a reading of the clock. */
  datatype Step =
    | Scan(at: int, found: Option<seq<Incoming>>, answers: map<string, SnmpInfo>)
    | Collect(begins: int, ends: int, pings: seq<Ping>, readings: seq<MetricHistory>, fault: Option<nat>)
    | Housekeeping(begins: int, ends: int, committed: bool)

  function MonitorStep(step: Step): MonitorRuns.Step
    requires !step.Housekeeping?
  {
    match step
    case Scan(at, found, answers) => MonitorRuns.Scan(at, found, answers)
    case Collect(begins, _, pings, readings, fault) => MonitorRuns.Collect(begins, pings, readings, fault)
  }

  /** What a step does to the metric tables: only a committed collection cycle inserts. */
  function MetricStep(step: Step): RollupRuns.Step {
    match step
    case Scan(_, _, _) => RollupRuns.Insert([])
    case Collect(_, _, _, readings, fault) => RollupRuns.Insert(if fault.None? then readings else [])
    case Housekeeping(begins, _, committed) => RollupRuns.Housekeeping(begins, committed)
  }

  function Apply(t: Tables, step: Step): Tables
    requires ValidStep(t, step)
  {
    if step.Housekeeping? then RollupRuns.Apply(t, MetricStep(step)) else MonitorRuns.Apply(t, MonitorStep(step))
  }

  /** A reading comes from a device of the cycle that supports SNMP and has answered its ping, after all pings
      were applied and before the cycle ended. */
  predicate TakenFrom(devices: seq<Device>, pings: seq<Ping>, ends: int, r: MetricHistory) {
    && 0 <= r.device < |devices| && devices[r.device].snmp.supported
    && PingFor(pings, r.device).Some? && PingFor(pings, r.device).value.online
    && (forall p :: p in pings ==> p.checkedAt <= r.at) && r.at <= ends
  }

  predicate ValidStep(t: Tables, step: Step) {
    match step
    case Scan(_, _, _) => true
    case Collect(begins, ends, pings, readings, _) =>
      && Answers(t.devices, begins, pings)
      && forall r :: r in readings ==> TakenFrom(t.devices, pings, ends, r)
    case Housekeeping(_, _, _) => true
  }

  /** The end of the last cycle of either loop. */
  function LastEnd(run: seq<Step>): Option<int> {
    if run == [] then None
    else if run[|run| - 1].Scan? then LastEnd(run[..|run| - 1])
    else Some(run[|run| - 1].ends)
  }

  function LastCollect(run: seq<Step>): Option<int> {
    if run == [] then None
    else if run[|run| - 1].Collect? then Some(run[|run| - 1].ends)
    else LastCollect(run[..|run| - 1])
  }

  function LastHousekeeping(run: seq<Step>): Option<int> {
    if run == [] then None
    else if run[|run| - 1].Housekeeping? then Some(run[|run| - 1].ends)
    else LastHousekeeping(run[..|run| - 1])
  }

  predicate Follows(t: int, last: Option<int>) {
    last.Some? ==> last.value < t
  }

  /** One clock: cycles commit in its order, each loop sleeps between its cycles, and a collection cycle takes
      at most the time of retention. */
  predicate InTime(before: seq<Step>, step: Step) {
    step.Scan? ||
    (&& step.begins <= step.ends && AtOrAfter(step.ends, LastEnd(before))
     && (step.Collect? ==> Follows(step.begins, LastCollect(before)) && step.ends <= step.begins + RETENTION)
     && (step.Housekeeping? ==> Follows(step.begins, LastHousekeeping(before))))
  }

  predicate ValidRun(t: Tables, run: seq<Step>)
    decreases |run|, 0
  {
    run != [] ==>
      var before, step := run[..|run| - 1], run[|run| - 1];
      ValidRun(t, before) && ValidStep(Exec(t, before), step) && InTime(before, step)
  }

  function Exec(t: Tables, run: seq<Step>): Tables
    requires ValidRun(t, run)
    decreases |run|, 1
  {
    if run == [] then t
    else Apply(Exec(t, run[..|run| - 1]), run[|run| - 1])
  }

  predicate Empty(t: Tables) {
    MonitorRuns.Empty(t) && RollupRuns.Empty(t)
  }

  // ---- The two views of a run ---------------------------------------------------------------

  function MonitorSteps(run: seq<Step>): seq<MonitorRuns.Step> {
    if run == [] then []
    else
      var before := MonitorSteps(run[..|run| - 1]);
      if run[|run| - 1].Housekeeping? then before else before + [MonitorStep(run[|run| - 1])]
  }

  function MetricSteps(run: seq<Step>): (steps: seq<RollupRuns.Step>)
    ensures |steps| == |run|
  {
    if run == [] then [] else MetricSteps(run[..|run| - 1]) + [MetricStep(run[|run| - 1])]
  }

  function ChecksOf(run: seq<Step>, device: nat): seq<Check> {
    MonitorRuns.ChecksOf(MonitorSteps(run), device)
  }

  /** Every reading that a committed collection cycle has saved. */
  function Saved(run: seq<Step>): seq<MetricHistory> {
    RollupRuns.Inserted(MetricSteps(run))
  }

  predicate SameMonitored(t: Tables, u: Tables) {
    t.devices == u.devices && t.events == u.events
  }

  lemma {:induction false} PingsIgnoreMetrics(t: Tables, u: Tables, pings: seq<Ping>, snapshot: seq<Device>)
    requires SameMonitored(t, u) && |snapshot| == |t.devices|
    requires forall i :: 0 <= i < |pings| ==> pings[i].device < |t.devices|
    ensures ApplyPings(t, pings, snapshot).Ok? == ApplyPings(u, pings, snapshot).Ok?
    ensures ApplyPings(t, pings, snapshot).Ok? ==>
              SameMonitored(ApplyPings(t, pings, snapshot).value, ApplyPings(u, pings, snapshot).value) &&
              ApplyPings(t, pings, snapshot).value.history == t.history &&
              ApplyPings(t, pings, snapshot).value.trends == t.trends
  {
    if pings == [] {
    } else {
      PingsIgnoreMetrics(t, u, pings[..|pings| - 1], snapshot);
    }
  }

  /** A cycle reads nothing of the metric tables, and only appends its readings to them. */
  lemma CycleIgnoresMetrics(t: Tables, u: Tables, now: int, pings: seq<Ping>, readings: seq<MetricHistory>)
    requires SameMonitored(t, u) && Answers(t.devices, now, pings) && (pings == [] ==> readings == [])
    ensures Collected(t, now, pings, readings).Ok? == Collected(u, now, pings, readings).Ok?
    ensures Collected(t, now, pings, readings).Ok? ==>
              var done := Collected(t, now, pings, readings).value;
              SameMonitored(done, Collected(u, now, pings, readings).value) &&
              done.history == t.history + readings && done.trends == t.trends
  {
    AnswersAreDistinct(t.devices, now, pings);
    if pings == [] {
      assert t.history + readings == t.history;
    } else {
      PingsIgnoreMetrics(t, u, pings, t.devices);
    }
  }

  lemma NoAnswersNoReadings(t: Tables, step: Step)
    requires ValidStep(t, step) && step.Collect?
    ensures step.pings == [] ==> step.readings == []
  {
    if step.readings != [] {
      var r := step.readings[0];
      assert r in step.readings;
      assert TakenFrom(t.devices, step.pings, step.ends, r);
    }
  }

  /** To the device and event tables a run looks like its scans and collection cycles. */
  lemma {:induction false} MonitorView(start: Tables, run: seq<Step>)
    requires Empty(start) && ValidRun(start, run)
    ensures MonitorRuns.ValidRun(start, MonitorSteps(run))
    ensures SameMonitored(Exec(start, run), MonitorRuns.Exec(start, MonitorSteps(run)))
  {
    if run == [] {
    } else {
      var before, step := run[..|run| - 1], run[|run| - 1];
      MonitorView(start, before);
      if !step.Housekeeping? {
        var steps := MonitorSteps(before);
        assert (steps + [MonitorStep(step)])[..|steps|] == steps;
        if step.Collect? {
          NoAnswersNoReadings(Exec(start, before), step);
          CycleIgnoresMetrics(Exec(start, before), MonitorRuns.Exec(start, steps), step.begins, step.pings,
                              step.readings);
        }
      }
    }
  }

  /** No cycle of a run fails for an ambiguous open event. */
  lemma CyclesCommit(start: Tables, run: seq<Step>, step: Step)
    requires Empty(start) && ValidRun(start, run) && ValidStep(Exec(start, run), step) && step.Collect?
    ensures Collected(Exec(start, run), step.begins, step.pings, step.readings).Ok?
  {
    MonitorView(start, run);
    var u := MonitorRuns.Exec(start, MonitorSteps(run));
    MonitorTheorems.CyclesNeverMeetTwoOpenEvents(start, MonitorSteps(run), step.begins, step.pings, step.readings);
    NoAnswersNoReadings(Exec(start, run), step);
    CycleIgnoresMetrics(Exec(start, run), u, step.begins, step.pings, step.readings);
  }

  /** The last cutoff lies a retention before the end of some housekeeping cycle, hence of the last cycle. */
  lemma {:induction false} CutoffBehindClock(start: Tables, run: seq<Step>)
    requires ValidRun(start, run) && RollupRuns.LastCutoff(MetricSteps(run)).Some?
    ensures LastEnd(run).Some? && LastHousekeeping(run).Some?
    ensures RollupRuns.LastCutoff(MetricSteps(run)).value + RETENTION <= LastHousekeeping(run).value
    ensures LastHousekeeping(run).value <= LastEnd(run).value
  {
    var before, steps := run[..|run| - 1], MetricSteps(run);
    assert steps[..|steps| - 1] == MetricSteps(before);
    RollupRuns.LastCycleOfPrefix(steps);
    if RollupRuns.LastCutoff(MetricSteps(before)).Some? {
      CutoffBehindClock(start, before);
    }
  }

  /** To the metric tables a run looks like insertions and housekeeping cycles; and no reading is saved that is
      older than the last cutoff, because collection cycles are shorter than the retention. */
  lemma {:induction false} MetricView(start: Tables, run: seq<Step>)
    requires Empty(start) && ValidRun(start, run)
    ensures RollupRuns.ValidRun(MetricSteps(run))
    ensures Exec(start, run).history == RollupRuns.Exec(start, MetricSteps(run)).history
    ensures Exec(start, run).trends == RollupRuns.Exec(start, MetricSteps(run)).trends
  {
    if run == [] {
    } else {
      var before, step, steps := run[..|run| - 1], run[|run| - 1], MetricSteps(run);
      assert steps[..|steps| - 1] == MetricSteps(before);
      MetricView(start, before);
      if RollupRuns.LastCutoff(MetricSteps(before)).Some? {
        CutoffBehindClock(start, before);
      }
      StepOnMetrics(start, before, step);
      if step.Collect? {
        ReadingsAreRecent(Exec(start, before), step);
      }
    }
  }

  lemma ReadingsAreRecent(t: Tables, step: Step)
    requires ValidStep(t, step) && step.Collect?
    ensures forall r :: r in step.readings ==> step.begins <= r.at <= step.ends
  {
    forall r | r in step.readings
      ensures step.begins <= r.at <= step.ends
    {
      var p := PingFor(step.pings, r.device).value;
      assert p in step.pings;
    }
  }

  lemma StepOnMetrics(start: Tables, run: seq<Step>, step: Step)
    requires Empty(start) && ValidRun(start, run) && ValidStep(Exec(start, run), step)
    ensures var t := Exec(start, run);
            && Apply(t, step).history == RollupRuns.Apply(t, MetricStep(step)).history
            && Apply(t, step).trends == RollupRuns.Apply(t, MetricStep(step)).trends
  {
    if step.Collect? {
      CyclesCommit(start, run, step);
      CycleOnMetrics(Exec(start, run), step);
    } else if step.Scan? {
      assert Exec(start, run).history + [] == Exec(start, run).history;
    }
  }

  lemma CycleOnMetrics(t: Tables, step: Step)
    requires ValidStep(t, step) && step.Collect? && Collected(t, step.begins, step.pings, step.readings).Ok?
    ensures Apply(t, step).history == RollupRuns.Apply(t, MetricStep(step)).history
    ensures Apply(t, step).trends == RollupRuns.Apply(t, MetricStep(step)).trends
  {
    NoAnswersNoReadings(t, step);
    CycleIgnoresMetrics(t, t, step.begins, step.pings, step.readings);
    assert t.history + [] == t.history;
  }

  // ---- Both halves keep their meaning -------------------------------------------------------

  /** In every reachable state of the whole system: the events and the polling state of every device mean its
      committed checks, the raw table holds the saved readings that are not older than the last cutoff, and
      every reading ever saved is still there or has a trend. */
  lemma StateMeansRun(start: Tables, run: seq<Step>)
    requires Empty(start) && ValidRun(start, run)
    ensures forall d: nat :: MonitorRuns.DeviceMeans(Exec(start, run), d, ChecksOf(run, d))
    ensures Exec(start, run).history == Retained(Saved(run), RollupRuns.LastCutoff(MetricSteps(run)))
    ensures forall r :: r in Saved(run) && r.number.Some? ==>
              r in Exec(start, run).history || KeyOf(r) in Exec(start, run).trends
  {
    MonitorView(start, run);
    MonitorRuns.StateMeansChecks(start, MonitorSteps(run));
    forall d: nat
      ensures MonitorRuns.DeviceMeans(Exec(start, run), d, ChecksOf(run, d))
    {
      assert MonitorRuns.DeviceMeans(MonitorRuns.Exec(start, MonitorSteps(run)), d, ChecksOf(run, d));
    }
    MetricView(start, run);
    RollupRuns.RawTableIsSurviving(start, MetricSteps(run));
    forall r | r in Saved(run) && r.number.Some?
      ensures r in Exec(start, run).history || KeyOf(r) in Exec(start, run).trends
    {
      RollupRuns.EveryReadingIsKept(start, MetricSteps(run), r);
    }
  }

  /** No hour of a range in which a reading was ever saved is missing from its chart. */
  lemma NoGap(start: Tables, run: seq<Step>, r: MetricHistory, since: int) returns (p: Chart.Resample.ChartPoint)
    requires Empty(start) && ValidRun(start, run) && r in Saved(run) && r.number.Some? && since <= HourOf(r.at)
    ensures p in Chart.Merged(Exec(start, run), r.device, r.metric, since) && HourOf(p.t) == HourOf(r.at)
  {
    MetricView(start, run);
    p := Chart.NoGap(start, MetricSteps(run), r, since);
  }

  // ---- The two halves agree -----------------------------------------------------------------

  /** The device of the reading is registered, is known to support SNMP, and was ONLINE at the reading. */
  predicate FoundOnline(t: Tables, run: seq<Step>, r: MetricHistory) {
    && 0 <= r.device < |t.devices| && t.devices[r.device].snmp.supported
    && StatusAt(ChecksOf(run, r.device), r.at) == ONLINE
  }

  /** Every reading ever saved was taken while its device was ONLINE, by the device's own log: the ping of its
      cycle had found it so, and no later cycle can put a check before it. */
  lemma {:induction false} ReadingsFindDevicesOnline(start: Tables, run: seq<Step>, r: MetricHistory)
    requires Empty(start) && ValidRun(start, run) && r in Saved(run)
    ensures FoundOnline(Exec(start, run), run, r)
    ensures LastCollect(run).Some? && r.at <= LastCollect(run).value
  {
    var before, step := run[..|run| - 1], run[|run| - 1];
    assert run == before + [step];
    SavedByStep(run, r);
    if r in Saved(before) {
      ReadingsFindDevicesOnline(start, before, r);
    }
    if step.Scan? {
      ScanKeepsFound(Exec(start, before), before, step, r);
    } else if step.Collect? {
      CollectKeepsFound(start, before, step, r);
    }
  }

  lemma SavedByStep(run: seq<Step>, r: MetricHistory)
    requires run != [] && r in Saved(run)
    ensures r in Saved(run[..|run| - 1]) ||
            (run[|run| - 1].Collect? && run[|run| - 1].fault.None? && r in run[|run| - 1].readings)
  {
    var steps := MetricSteps(run);
    assert steps[..|steps| - 1] == MetricSteps(run[..|run| - 1]);
  }

  lemma ScanKeepsFound(t: Tables, run: seq<Step>, step: Step, r: MetricHistory)
    requires FoundOnline(t, run, r) && step.Scan?
    ensures FoundOnline(Apply(t, step), run + [step], r)
  {
    LogOfStep(run, step, r.device);
    if Scanned(t.devices, step.found, step.answers, step.at).Ok? {
      SupportStays(t.devices, step.found, step.answers, step.at, r.device);
    }
  }

  lemma LogOfStep(run: seq<Step>, step: Step, d: nat)
    requires !step.Housekeeping?
    ensures ChecksOf(run + [step], d) ==
            if step.Collect? && step.fault.None? then MonitorRuns.LogAfter(ChecksOf(run, d), PingFor(step.pings, d))
            else ChecksOf(run, d)
  {
    var longer, steps := run + [step], MonitorSteps(run);
    assert longer[..|longer| - 1] == run;
    assert (steps + [MonitorStep(step)])[..|steps|] == steps;
  }

  lemma CollectKeepsFound(start: Tables, run: seq<Step>, step: Step, r: MetricHistory)
    requires Empty(start) && ValidRun(start, run) && ValidStep(Exec(start, run), step) && InTime(run, step)
    requires step.Collect?
    requires (FoundOnline(Exec(start, run), run, r) && LastCollect(run).Some? && r.at <= LastCollect(run).value) ||
             (step.fault.None? && r in step.readings)
    ensures FoundOnline(Apply(Exec(start, run), step), run + [step], r) && r.at <= step.ends
  {
    var t := Exec(start, run);
    LogOfStep(run, step, r.device);
    CyclesCommit(start, run, step);
    if step.fault.None? {
      AnswersAreDistinct(t.devices, step.begins, step.pings);
      CycleKeepsSupport(start, run, step, r.device);
      match PingFor(step.pings, r.device) {
        case None =>
        case Some(p) =>
          assert p in step.pings;
          StatusAfterCheck(ChecksOf(run, r.device), Check(p.checkedAt, p.online), r.at);
      }
    }
  }

  lemma StatusAfterCheck(checks: seq<Check>, x: Check, t: int)
    ensures StatusAt(checks + [x], t) == if x.at <= t then StatusOf(x.online) else StatusAt(checks, t)
  {
    assert (checks + [x])[..|checks|] == checks;
  }

  lemma CycleKeepsSupport(start: Tables, run: seq<Step>, step: Step, d: nat)
    requires Empty(start) && ValidRun(start, run) && ValidStep(Exec(start, run), step)
    requires step.Collect? && step.fault.None? && d < |Exec(start, run).devices|
    ensures var t, u := Exec(start, run), Apply(Exec(start, run), step);
            d < |u.devices| && u.devices[d].snmp == t.devices[d].snmp
  {
    var t := Exec(start, run);
    CyclesCommit(start, run, step);
    AnswersAreDistinct(t.devices, step.begins, step.pings);
    if step.pings != [] {
      PingsKeepSnmp(t, step.pings, t.devices, d);
    }
  }

  lemma {:induction false} PingsKeepSnmp(t: Tables, pings: seq<Ping>, snapshot: seq<Device>, d: nat)
    requires |snapshot| == |t.devices| && forall i :: 0 <= i < |pings| ==> pings[i].device < |t.devices|
    requires ApplyPings(t, pings, snapshot).Ok? && d < |t.devices|
    ensures ApplyPings(t, pings, snapshot).value.devices[d].snmp == t.devices[d].snmp
  {
    if pings == [] {
    } else {
      PingsKeepSnmp(t, pings[..|pings| - 1], snapshot, d);
    }
  }

  /** A trend is never a summary of an hour that its device spent OFFLINE: at some instant of the hour the
      device was ONLINE. */
  lemma TrendsHaveOnlineTime(start: Tables, run: seq<Step>, k: BucketKey) returns (instant: int)
    requires Empty(start) && ValidRun(start, run) && k in Exec(start, run).trends
    ensures 0 <= k.device < |Exec(start, run).devices|
    ensures k.bucket <= instant < k.bucket + HOUR && StatusAt(ChecksOf(run, k.device), instant) == ONLINE
  {
    var steps := MetricSteps(run);
    MetricView(start, run);
    RollupRuns.TrendIsLastRewrite(start, steps, k);
    var i := RollupRuns.LastRewrite(steps, k).value;
    var kept := RollupRuns.Surviving(steps[..i]);
    ValuesNonEmpty(kept, k);
    var r :| r in kept && Feeds(r, k);
    RetainedMembers(RollupRuns.Inserted(steps[..i]), RollupRuns.LastCutoff(steps[..i]));
    var more := RollupRuns.InsertedGrows(steps, i);
    ReadingsFindDevicesOnline(start, run, r);
    instant := r.at;
  }

  /** A chart and an availability figure of the same window never contradict each other: a device with a raw
      reading in the window has an availability above zero. */
  lemma ReadingMeansAvailability(start: Tables, run: seq<Step>, r: MetricHistory, rangeHours: int, now: int)
    requires Empty(start) && ValidRun(start, run) && r in Exec(start, run).history
    requires now - rangeHours * HOUR <= r.at < now
    ensures 0 <= r.device &&
            MonitorTheorems.Available(AvailabilityEtl.Summary(Exec(start, run).events, r.device, rangeHours, now))
  {
    assert r in Saved(run) by {
      StateMeansRun(start, run);
      RetainedMembers(Saved(run), RollupRuns.LastCutoff(MetricSteps(run)));
    }
    assert FoundOnline(Exec(start, run), run, r) by {
      ReadingsFindDevicesOnline(start, run, r);
    }
    assert EventsOf(Exec(start, run).events, r.device) == TimelineOf(r.device, ChecksOf(run, r.device)) &&
           Ascending(ChecksOf(run, r.device)) by {
      StateMeansRun(start, run);
      assert MonitorRuns.DeviceMeans(Exec(start, run), r.device, ChecksOf(run, r.device));
      MonitorRuns.SpacedAscends(ChecksOf(run, r.device));
    }
    MonitorTheorems.OnlineIsAvailable(Exec(start, run).events, r.device, ChecksOf(run, r.device), rangeHours, now,
                                      r.at);
  }
}
