/** Whole runs of the writers of the device and event tables: scans that register devices, and
    collection cycles that ping the due ones. The state is characterised by the log of checks alone. */
module MonitorRuns {
  import opened Wrappers
  import opened Clock
  import opened Models
  import opened Timeline
  import opened PollingBackoff
  import opened DeviceIdentity
  import opened DeviceScan
  import opened Collection

  datatype Step =
    | Scan(at: int, found: Option<seq<Incoming>>, answers: map<string, SnmpInfo>)
    | Collect(now: int, pings: seq<Ping>, readings: seq<MetricHistory>, fault: Option<nat>)
      // fault: the number of pings applied when an exception cuts the cycle short, if one does

  /** A failing scan and a failing cycle are rolled back. */
  function Apply(t: Tables, step: Step): Tables
    requires ValidStep(t, step)
  {
    match step
    case Scan(at, found, answers) =>
      (match Scanned(t.devices, found, answers, at)
       case Ok(rows) => t.(devices := rows)
       case Err(_) => t)
    case Collect(now, pings, readings, fault) =>
      if fault.Some? then t
      else
        match Collected(t, now, pings, readings)
        case Ok(u) => u
        case Err(_) => t
  }

  /** A cycle pings exactly the devices that are due when it starts. */
  predicate ValidStep(t: Tables, step: Step) {
    step.Collect? ==> Answers(t.devices, step.now, step.pings)
  }

  predicate Commits(step: Step) {
    step.Collect? && step.fault.None?
  }

  predicate ValidRun(t: Tables, run: seq<Step>)
    decreases |run|, 0
  {
    run != [] ==>
      ValidRun(t, run[..|run| - 1]) && ValidStep(Exec(t, run[..|run| - 1]), run[|run| - 1])
  }

  function Exec(t: Tables, run: seq<Step>): Tables
    requires ValidRun(t, run)
    decreases |run|, 1
  {
    if run == [] then t
    else Apply(Exec(t, run[..|run| - 1]), run[|run| - 1])
  }

  predicate Empty(t: Tables) {
    t.devices == [] && t.events == []
  }

  // ---- The log of a run ---------------------------------------------------------------------

  function ChecksOf(run: seq<Step>, device: nat): seq<Check> {
    if run == [] then []
    else
      var before, step := ChecksOf(run[..|run| - 1], device), run[|run| - 1];
      if Commits(step) then
        match PingFor(step.pings, device)
        case None => before
        case Some(p) => before + [Check(p.checkedAt, p.online)]
      else before
  }

  /** The failures since the last success, or since the device was registered. */
  function TrailingFailures(checks: seq<Check>): nat {
    if checks == [] || checks[|checks| - 1].online then 0
    else 1 + TrailingFailures(checks[..|checks| - 1])
  }

  /** The polling state that the log of a device implies. */
  function PollingFrom(checks: seq<Check>): Polling
    requires checks != []
  {
    var last, k := checks[|checks| - 1], TrailingFailures(checks);
    Polling(StatusOf(last.online), NextPollInterval(k), k, last.at + NextPollInterval(k) * SECOND, Some(last.at))
  }

  /** A check never comes earlier than the interval stored at the check before it. */
  predicate Spaced(checks: seq<Check>) {
    forall i :: 0 <= i < |checks| - 1 ==> SpacedAt(checks, i)
  }

  predicate SpacedAt(checks: seq<Check>, i: nat)
    requires i < |checks| - 1
  {
    checks[i].at + NextPollInterval(TrailingFailures(checks[..i + 1])) * SECOND <= checks[i + 1].at
  }

  /** A row nobody has checked. */
  predicate Unchecked(p: Polling) {
    p.status == UNKNOWN && p.failures == 0 && p.interval == DEFAULT_INTERVAL && p.lastCheckedAt.None?
  }

  predicate DeviceMeans(t: Tables, d: nat, checks: seq<Check>) {
    && Spaced(checks)
    && EventsOf(t.events, d) == TimelineOf(d, checks)
    && (d >= |t.devices| ==> checks == [])
    && (d < |t.devices| ==>
          if checks == [] then Unchecked(t.devices[d].polling) else t.devices[d].polling == PollingFrom(checks))
  }

  // ---- The state is what the log says -------------------------------------------------------

  lemma {:induction false} SpacedAscends(checks: seq<Check>)
    requires Spaced(checks)
    ensures Ascending(checks)
    ensures forall i, j :: 0 <= i < j < |checks| ==> checks[i].at + BASE_INTERVAL_SECONDS * SECOND <= checks[j].at
  {
    if |checks| > 1 {
      var n := |checks| - 1;
      SpacedPrefix(checks, n);
      SpacedAscends(checks[..n]);
      assert SpacedAt(checks, n - 1);
      BackoffShape(TrailingFailures(checks[..n]), TrailingFailures(checks[..n]));
    }
  }

  lemma SpacedPrefix(checks: seq<Check>, n: nat)
    requires Spaced(checks) && n <= |checks|
    ensures Spaced(checks[..n])
  {
    forall i | 0 <= i < n - 1
      ensures SpacedAt(checks[..n], i)
    {
      assert SpacedAt(checks, i) && checks[..n][..i + 1] == checks[..i + 1];
    }
  }

  lemma SpacedSnoc(checks: seq<Check>, x: Check)
    requires Spaced(checks)
    requires checks != [] ==> PollingFrom(checks).nextPollAt <= x.at
    ensures Spaced(checks + [x])
  {
    var longer := checks + [x];
    forall i | 0 <= i < |longer| - 1
      ensures SpacedAt(longer, i)
    {
      assert longer[..i + 1] == checks[..i + 1];
      if i == |checks| - 1 {
        assert checks[..i + 1] == checks;
      } else {
        assert SpacedAt(checks, i);
      }
    }
  }

  /** The polling state after one more check. */
  lemma PollingSnoc(checks: seq<Check>, x: Check, before: Polling)
    requires if checks == [] then Unchecked(before) else before == PollingFrom(checks)
    ensures Polled(before.failures, x.online, x.at) == PollingFrom(checks + [x])
    ensures Repeats(checks, x) <==> StatusOf(x.online) == before.status
  {
    var longer := checks + [x];
    assert longer[..|longer| - 1] == checks;
    assert before.failures == TrailingFailures(checks);
    assert TrailingFailures(longer) == if x.online then 0 else TrailingFailures(checks) + 1;
  }

  /** A ping of a due device extends its log by one check, and the rows of the device with it. */
  lemma PingExtendsLog(t: Tables, u: Tables, p: Ping, checks: seq<Check>)
    requires DeviceMeans(t, p.device, checks) && DeviceStep(t, u, Some(p), p.device)
    requires t.devices[p.device].polling.nextPollAt <= p.checkedAt
    ensures DeviceMeans(u, p.device, checks + [Check(p.checkedAt, p.online)])
  {
    var x := Check(p.checkedAt, p.online);
    SpacedSnoc(checks, x);
    TimelineSnoc(p.device, checks, x);
    PollingSnoc(checks, x, t.devices[p.device].polling);
  }

  lemma ScanKeepsRows(rows: seq<Device>, found: Option<seq<Incoming>>, answers: map<string, SnmpInfo>, now: int)
    requires Scanned(rows, found, answers, now).Ok?
    ensures var done := Scanned(rows, found, answers, now).value;
            && |rows| <= |done|
            && (forall d :: 0 <= d < |rows| ==> done[d].polling == rows[d].polling)
            && (forall d :: |rows| <= d < |done| ==> Unchecked(done[d].polling))
  {
    if found.Some? {
      ProcessKeepsRows(rows, found.value, now);
    }
  }

  lemma {:induction false} ProcessKeepsRows(rows: seq<Device>, batch: seq<Incoming>, now: int)
    requires Process(rows, batch, now).Ok?
    ensures var p := Process(rows, batch, now).value;
            && (forall d :: 0 <= d < |rows| ==> p.rows[d].polling == rows[d].polling)
            && (forall d :: 0 <= d < |p.added| ==> Unchecked(p.added[d].polling))
  {
    if batch == [] {
    } else {
      ProcessKeepsRows(rows, batch[..|batch| - 1], now);
    }
  }

  /** In every reachable state, for every device: its events are the timeline of its committed checks,
      its polling state is the one those checks imply, it is UNKNOWN exactly while nobody has checked
      it, and its checks keep their intervals. */
  lemma {:induction false} StateMeansChecks(start: Tables, run: seq<Step>)
    requires Empty(start) && ValidRun(start, run)
    ensures forall d: nat :: DeviceMeans(Exec(start, run), d, ChecksOf(run, d))
  {
    if run == [] {
    } else {
      var before, step := run[..|run| - 1], run[|run| - 1];
      var t := Exec(start, before);
      StateMeansChecks(start, before);
      match step {
        case Scan(at, found, answers) =>
          if Scanned(t.devices, found, answers, at).Ok? {
            ScanKeepsRows(t.devices, found, answers, at);
            assert forall d: nat ::
                DeviceMeans(t, d, ChecksOf(before, d)) ==> DeviceMeans(Exec(start, run), d, ChecksOf(run, d));
          }
        case Collect(now, pings, readings, fault) =>
          if fault.None? {
            CycleExtendsLogs(t, before, now, pings, readings);
            forall d: nat
              ensures DeviceMeans(Exec(start, run), d, ChecksOf(run, d))
            {
            }
          }
      }
    }
  }

  /** The log of a device after a cycle. */
  function LogAfter(checks: seq<Check>, ping: Option<Ping>): seq<Check> {
    match ping
    case None => checks
    case Some(p) => checks + [Check(p.checkedAt, p.online)]
  }

  /** From a state that means its checks a cycle cannot meet two open events, and it leaves a state
      that means the longer logs. */
  lemma CycleExtendsLogs(t: Tables, run: seq<Step>, now: int, pings: seq<Ping>, readings: seq<MetricHistory>)
    requires Answers(t.devices, now, pings)
    requires forall d: nat :: DeviceMeans(t, d, ChecksOf(run, d))
    ensures Collected(t, now, pings, readings).Ok?
    ensures var u := Collected(t, now, pings, readings).value;
            forall d: nat :: DeviceMeans(u, d, LogAfter(ChecksOf(run, d), PingFor(pings, d)))
  {
    AnswersAreDistinct(t.devices, now, pings);
    forall d: nat
      ensures CountOpen(EventsOf(t.events, d), d) <= 1
    {
      assert DeviceMeans(t, d, ChecksOf(run, d));
      SpacedAscends(ChecksOf(run, d));
      TimelineIsWellFormed(d, ChecksOf(run, d));
      OneOpen(EventsOf(t.events, d), d);
    }
    ApplyPingsLocally(t, pings);
    var v := ApplyPings(t, pings, t.devices).value;
    var u := Collected(t, now, pings, readings).value;
    forall d: nat
      ensures DeviceMeans(u, d, LogAfter(ChecksOf(run, d), PingFor(pings, d)))
    {
      assert DeviceMeans(t, d, ChecksOf(run, d));
      assert DeviceStep(t, v, PingFor(pings, d), d);
      match PingFor(pings, d) {
        case None =>
        case Some(p) =>
          var i :| 0 <= i < |pings| && pings[i] == p;
          PingExtendsLog(t, v, p, ChecksOf(run, d));
      }
    }
  }
}
