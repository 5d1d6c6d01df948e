/** What the reachable states of the monitor guarantee to its readers. */
module MonitorTheorems {
  import opened Wrappers
  import opened Clock
  import opened Models
  import opened Timeline
  import opened PollingBackoff
  import opened DeviceIdentity
  import opened Collection
  import opened MonitorRuns
  import opened AvailabilityEtl

  // ---- The timeline of every device ---------------------------------------------------------

  /** In every reachable state a device is UNKNOWN exactly when it has no event; otherwise its events
      alternate, each ending where the next one starts, and the only open one is the last, whose
      status is that of the device. */
  lemma TimelineInvariant(start: Tables, run: seq<Step>, d: nat)
    requires Empty(start) && ValidRun(start, run)
    ensures var t := Exec(start, run);
            var events := EventsOf(t.events, d);
            && WellFormed(events, d)
            && CountOpen(t.events, d) == (if events == [] then 0 else 1)
            && (d >= |t.devices| ==> events == [])
            && (d < |t.devices| ==>
                  && (t.devices[d].polling.status == UNKNOWN <==> events == [])
                  && (events != [] ==> t.devices[d].polling.status == events[|events| - 1].status))
  {
    var checks := ChecksOf(run, d);
    StateMeansChecks(start, run);
    assert DeviceMeans(Exec(start, run), d, checks);
    SpacedAscends(checks);
    TimelineIsWellFormed(d, checks);
    OneOpen(EventsOf(Exec(start, run).events, d), d);
    OpenRowsOfDevice(Exec(start, run).events, d);
  }

  /** No reachable state makes the lookup of the open event ambiguous: a cycle that does not fail for
      another reason commits. */
  lemma CyclesNeverMeetTwoOpenEvents(start: Tables, run: seq<Step>, now: int, pings: seq<Ping>,
                                     readings: seq<MetricHistory>)
    requires Empty(start) && ValidRun(start, run) && Answers(Exec(start, run).devices, now, pings)
    ensures Collected(Exec(start, run), now, pings, readings).Ok?
  {
    StateMeansChecks(start, run);
    CycleExtendsLogs(Exec(start, run), run, now, pings, readings);
  }

  // ---- Backoff over whole runs --------------------------------------------------------------

  /** The counter stored for a device is the length of the run of failures at the end of its log. */
  lemma {:induction false} TrailingFailuresMeans(checks: seq<Check>)
    ensures var k := TrailingFailures(checks);
            && k <= |checks|
            && (forall i :: |checks| - k <= i < |checks| ==> !checks[i].online)
            && (k < |checks| ==> checks[|checks| - k - 1].online)
  {
    if checks != [] && !checks[|checks| - 1].online {
      TrailingFailuresMeans(checks[..|checks| - 1]);
    }
  }

  /** A device with k failures since its last success has counter k, the interval of k failures, and a
      next poll that interval after its last check; and no check ever came before it was due. */
  lemma BackoffInvariant(start: Tables, run: seq<Step>, d: nat)
    requires Empty(start) && ValidRun(start, run) && d < |Exec(start, run).devices|
    ensures var polling, checks := Exec(start, run).devices[d].polling, ChecksOf(run, d);
            && polling.failures == TrailingFailures(checks)
            && polling.interval == NextPollInterval(polling.failures)
            && 60 <= polling.interval <= 3600
            && (checks == [] ==> polling.status == UNKNOWN && polling.lastCheckedAt == None)
            && (checks != [] ==>
                  && polling.status == (if checks[|checks| - 1].online then ONLINE else OFFLINE)
                  && polling.lastCheckedAt == Some(checks[|checks| - 1].at)
                  && polling.nextPollAt == checks[|checks| - 1].at + polling.interval * 1_000_000)
            && forall i :: 0 <= i < |checks| - 1 ==> SpacedAt(checks, i)
  {
    StateMeansChecks(start, run);
    assert DeviceMeans(Exec(start, run), d, ChecksOf(run, d));
    BackoffShape(TrailingFailures(ChecksOf(run, d)), TrailingFailures(ChecksOf(run, d)));
  }

  /** The start of the last committed cycle. */
  function LastStart(run: seq<Step>): Option<int> {
    if run == [] then None
    else
      var step := run[|run| - 1];
      if Commits(step) then Some(step.now) else LastStart(run[..|run| - 1])
  }

  /** Committed cycles start at most `every` after the one before, and read every answer at most
      `lasting` after their start. */
  predicate Punctual(run: seq<Step>, every: int, lasting: int) {
    run != [] ==>
      var before, step := run[..|run| - 1], run[|run| - 1];
      && Punctual(before, every, lasting)
      && (Commits(step) ==>
            && (LastStart(before).Some? ==> step.now <= LastStart(before).value + every)
            && forall p :: p in step.pings ==> p.checkedAt <= step.now + lasting)
  }

  /** After a committed cycle no device that was ever checked is overdue at its start. */
  lemma {:induction false} NobodyOverdue(start: Tables, run: seq<Step>, d: nat)
    requires Empty(start) && ValidRun(start, run) && LastStart(run).Some? && ChecksOf(run, d) != []
    ensures LastStart(run).value < PollingFrom(ChecksOf(run, d)).nextPollAt
  {
    var before, step := run[..|run| - 1], run[|run| - 1];
    if Commits(step) {
      var t := Exec(start, before);
      StateMeansChecks(start, before);
      assert DeviceMeans(t, d, ChecksOf(before, d));
      AnswersAreDistinct(t.devices, step.now, step.pings);
      match PingFor(step.pings, d) {
        case None =>
        case Some(p) =>
          var i :| 0 <= i < |step.pings| && step.pings[i] == p;
          var k := TrailingFailures(ChecksOf(run, d));
          BackoffShape(k, k);
      }
    } else {
      NobodyOverdue(start, before, d);
    }
  }

  predicate CheckedWithin(checks: seq<Check>, slack: int, i: nat)
    requires i < |checks| - 1
  {
    && checks[i + 1].at < checks[i].at + NextPollInterval(TrailingFailures(checks[..i + 1])) * SECOND + slack
    && checks[i + 1].at < checks[i].at + MAX_INTERVAL_SECONDS * SECOND + slack
  }

  predicate CheckedInTime(checks: seq<Check>, slack: int) {
    forall i :: 0 <= i < |checks| - 1 ==> CheckedWithin(checks, slack, i)
  }

  /** If cycles are punctual, no device waits for its next check longer than the stored interval plus
      the distance of two cycles plus the length of one; so never longer than an hour plus these. */
  lemma {:induction false} ChecksComeInTime(start: Tables, run: seq<Step>, every: int, lasting: int, d: nat)
    requires Empty(start) && ValidRun(start, run) && Punctual(run, every, lasting)
    ensures CheckedInTime(ChecksOf(run, d), every + lasting)
  {
    if run == [] {
    } else {
      var before, step := run[..|run| - 1], run[|run| - 1];
      ChecksComeInTime(start, before, every, lasting, d);
      if Commits(step) && PingFor(step.pings, d).Some? {
        LatestCheckInTime(start, run, every, lasting, d, PingFor(step.pings, d).value);
      }
    }
  }

  lemma LatestCheckInTime(start: Tables, run: seq<Step>, every: int, lasting: int, d: nat, p: Ping)
    requires Empty(start) && ValidRun(start, run) && Punctual(run, every, lasting) && run != []
    requires var step := run[|run| - 1]; Commits(step) && PingFor(step.pings, d) == Some(p)
    requires CheckedInTime(ChecksOf(run[..|run| - 1], d), every + lasting)
    ensures CheckedInTime(ChecksOf(run, d), every + lasting)
  {
    var before := run[..|run| - 1];
    var checks := ChecksOf(before, d);
    assert checks != [] ==> p.checkedAt < PollingFrom(checks).nextPollAt + every + lasting by {
      if checks != [] {
        CheckedMeansCycle(before, d);
        NobodyOverdue(start, before, d);
      }
    }
    InTimeSnoc(checks, Check(p.checkedAt, p.online), every + lasting);
  }

  lemma InTimeSnoc(checks: seq<Check>, x: Check, slack: int)
    requires CheckedInTime(checks, slack)
    requires checks != [] ==> x.at < PollingFrom(checks).nextPollAt + slack
    ensures CheckedInTime(checks + [x], slack)
  {
    var longer := checks + [x];
    forall i | 0 <= i < |longer| - 1
      ensures CheckedWithin(longer, slack, i)
    {
      assert longer[..i + 1] == checks[..i + 1];
      if i == |checks| - 1 {
        assert checks[..i + 1] == checks;
        BackoffShape(TrailingFailures(checks), TrailingFailures(checks));
      } else {
        assert CheckedWithin(checks, slack, i);
      }
    }
  }

  lemma {:induction false} CheckedMeansCycle(run: seq<Step>, d: nat)
    requires ChecksOf(run, d) != []
    ensures LastStart(run).Some?
  {
    var step := run[|run| - 1];
    if !Commits(step) {
      CheckedMeansCycle(run[..|run| - 1], d);
    }
  }

  // ---- How long events last -----------------------------------------------------------------

  /** The shortest time from a check to the next one, given what the first one found. */
  function LeastGap(online: bool): int {
    if online then BASE_INTERVAL_SECONDS * SECOND else 2 * BASE_INTERVAL_SECONDS * SECOND
  }

  predicate GapsKept(checks: seq<Check>) {
    forall i :: 0 <= i < |checks| - 1 ==> checks[i].at + LeastGap(checks[i].online) <= checks[i + 1].at
  }

  lemma SpacedKeepsGaps(checks: seq<Check>)
    requires Spaced(checks)
    ensures GapsKept(checks)
  {
    forall i | 0 <= i < |checks| - 1
      ensures checks[i].at + LeastGap(checks[i].online) <= checks[i + 1].at
    {
      assert SpacedAt(checks, i);
      var k := TrailingFailures(checks[..i + 1]);
      BackoffShape(0, k);
      if !checks[i].online {
        BackoffShape(1, k);
        BackoffShape(0, 1);
      }
    }
  }

  lemma {:induction false} RunsLast(device: nat, checks: seq<Check>)
    requires Ascending(checks) && GapsKept(checks)
    ensures forall e :: e in TimelineOf(device, checks) && e.endedAt.Some? ==>
              e.startedAt + LeastGap(e.status == ONLINE) <= e.endedAt.value
  {
    if checks == [] {
    } else {
      var n := RunLength(checks);
      RunsLast(device, checks[n..]);
      var events := TimelineOf(device, checks);
      assert forall e :: e in events ==> e == events[0] || e in TimelineOf(device, checks[n..]);
      if n < |checks| {
        assert checks[0].at + LeastGap(checks[0].online) <= checks[1].at;
        assert 1 < n ==> checks[1].at < checks[n].at;
      }
    }
  }

  /** In every reachable state an ended ONLINE event lasted at least a minute, and an ended outage at
      least two: the backoff of the first failure keeps its device from being checked earlier. */
  lemma EventsLast(start: Tables, run: seq<Step>, e: AvailabilityEvent)
    requires Empty(start) && ValidRun(start, run)
    requires e in Exec(start, run).events && e.endedAt.Some?
    ensures e.startedAt + (if e.status == ONLINE then 60 else 120) * SECOND <= e.endedAt.value
  {
    var checks := ChecksOf(run, e.device);
    StateMeansChecks(start, run);
    assert DeviceMeans(Exec(start, run), e.device, checks);
    EventsOfMembers(Exec(start, run).events, e.device);
    SpacedAscends(checks);
    SpacedKeepsGaps(checks);
    RunsLast(e.device, checks);
  }

  // ---- The summary of a device --------------------------------------------------------------

  /** The summary of a device in any reachable state, in terms of its checks: the percentage counts the
      instants of the window at which the last check had found it online, without ever being capped;
      the downtime counts those at which it had been found offline; together they fill the window from
      the first check on. */
  lemma SummaryMeansChecks(start: Tables, run: seq<Step>, d: nat, rangeHours: int, now: int)
    requires Empty(start) && ValidRun(start, run) && rangeHours > 0
    ensures Faithful(Summary(Exec(start, run).events, d, rangeHours, now), ChecksOf(run, d),
                     now - rangeHours * HOUR, now)
  {
    LogExplainsEvents(start, run, d);
    SummaryOfTimeline(Exec(start, run).events, d, ChecksOf(run, d), rangeHours, now);
  }

  lemma LogExplainsEvents(start: Tables, run: seq<Step>, d: nat)
    requires Empty(start) && ValidRun(start, run)
    ensures EventsOf(Exec(start, run).events, d) == TimelineOf(d, ChecksOf(run, d)) && Ascending(ChecksOf(run, d))
  {
    StateMeansChecks(start, run);
    assert DeviceMeans(Exec(start, run), d, ChecksOf(run, d));
    SpacedAscends(ChecksOf(run, d));
  }

  ghost predicate Faithful(summary: AvailabilitySummary, checks: seq<Check>, from: int, now: int)
    requires from < now
  {
    var up, down := |InstantsWith(checks, ONLINE, from, now)|, |InstantsWith(checks, OFFLINE, from, now)|;
    && Reports(summary, up, down, now - from)
    && up + down == (if checks == [] then 0 else Max(0, now - Max(from, checks[0].at)))
  }

  /** The share of the window in per cent, and whole seconds. */
  predicate Reports(summary: AvailabilitySummary, up: nat, down: nat, window: int)
    requires window > 0
  {
    && summary.availabilityPct == Some(up as real / window as real * 100.0)
    && summary.downtimeSeconds == down / SECOND
  }

  lemma SummaryOfTimeline(events: seq<AvailabilityEvent>, d: nat, checks: seq<Check>, rangeHours: int, now: int)
    requires rangeHours > 0 && EventsOf(events, d) == TimelineOf(d, checks) && Ascending(checks)
    ensures Faithful(Summary(events, d, rangeHours, now), checks, now - rangeHours * HOUR, now)
  {
    var from := now - rangeHours * HOUR;
    var up, down := |InstantsWith(checks, ONLINE, from, now)|, |InstantsWith(checks, OFFLINE, from, now)|;
    TotalsOfTimeline(d, checks, from, now);
    assert Reports(Summary(events, d, rangeHours, now), up, down, now - from) by {
      assert SumDurations(EventsOf(events, d), ONLINE, from, now) == up;
      assert SumDurations(EventsOf(events, d), OFFLINE, from, now) == down;
      SummaryOfTotals(events, d, rangeHours, now, from, up, down);
    }
  }

  lemma TotalsOfTimeline(d: nat, checks: seq<Check>, from: int, now: int)
    requires Ascending(checks) && from < now
    ensures SumDurations(TimelineOf(d, checks), ONLINE, from, now) == |InstantsWith(checks, ONLINE, from, now)|
    ensures SumDurations(TimelineOf(d, checks), OFFLINE, from, now) == |InstantsWith(checks, OFFLINE, from, now)|
    ensures |InstantsWith(checks, ONLINE, from, now)| + |InstantsWith(checks, OFFLINE, from, now)| ==
            if checks == [] then 0 else Max(0, now - Max(from, checks[0].at))
  {
    DurationsCountInstants(d, checks, ONLINE, from, now);
    DurationsCountInstants(d, checks, OFFLINE, from, now);
    if checks != [] {
      KnownTimeIsFilled(d, checks, from, now);
    }
  }

  lemma SummaryOfTotals(events: seq<AvailabilityEvent>, d: nat, rangeHours: int, now: int, from: int, up: nat,
                        down: nat)
    requires rangeHours > 0 && from == now - rangeHours * HOUR
    requires SumDurations(EventsOf(events, d), ONLINE, from, now) == up <= now - from
    requires SumDurations(EventsOf(events, d), OFFLINE, from, now) == down
    ensures Reports(Summary(events, d, rangeHours, now), up, down, now - from)
  {
    SummaryOfRows(events, d, rangeHours, now);
    Uncapped(up, now - from);
  }

  lemma Uncapped(part: nat, window: int)
    requires window > 0 && part <= window
    ensures Percent(part, window) == Some(part as real / window as real * 100.0)
  {
  }

  /** The summary in terms of all the rows of the device, whatever they are. */
  lemma SummaryOfRows(events: seq<AvailabilityEvent>, d: nat, rangeHours: int, now: int)
    requires rangeHours > 0
    ensures var from := now - rangeHours * HOUR;
            var rows := EventsOf(events, d);
            && Summary(events, d, rangeHours, now).availabilityPct ==
               Percent(SumDurations(rows, ONLINE, from, now), now - from)
            && Summary(events, d, rangeHours, now).downtimeSeconds == SumDurations(rows, OFFLINE, from, now) / SECOND
  {
    DroppedEventsClipToZero(EventsOf(events, d), ONLINE, now - rangeHours * HOUR, now);
    DroppedEventsClipToZero(EventsOf(events, d), OFFLINE, now - rangeHours * HOUR, now);
  }

  predicate Available(summary: AvailabilitySummary) {
    summary.availabilityPct.Some? && summary.availabilityPct.value > 0.0
  }

  /** A device that was ONLINE at an instant of the window has an availability above zero. */
  lemma OnlineIsAvailable(events: seq<AvailabilityEvent>, d: nat, checks: seq<Check>, rangeHours: int, now: int, t: int)
    requires EventsOf(events, d) == TimelineOf(d, checks) && Ascending(checks)
    requires now - rangeHours * HOUR <= t < now && StatusAt(checks, t) == ONLINE
    ensures Available(Summary(events, d, rangeHours, now))
  {
    var from := now - rangeHours * HOUR;
    var total := SumDurations(EventsOf(events, d), ONLINE, from, now);
    assert total > 0 by {
      OnlineTimeIsCounted(d, checks, from, now, t);
    }
    assert Summary(events, d, rangeHours, now).availabilityPct ==
           Percent(total, now - from) by {
      SummaryOfRows(events, d, rangeHours, now);
    }
    SharePositive(total, now - from);
  }

  lemma OnlineTimeIsCounted(d: nat, checks: seq<Check>, from: int, now: int, t: int)
    requires Ascending(checks) && from <= t < now && StatusAt(checks, t) == ONLINE
    ensures SumDurations(TimelineOf(d, checks), ONLINE, from, now) > 0
  {
    DurationsCountInstants(d, checks, ONLINE, from, now);
    assert t in InstantsWith(checks, ONLINE, from, now);
  }

  lemma SharePositive(part: nat, window: int)
    requires part > 0 && window > 0
    ensures Percent(part, window).Some? && Percent(part, window).value > 0.0
  {
  }

  // ---- The dashboard ------------------------------------------------------------------------

  /** The open outages among the rows of the first `n` devices. */
  function ProblemsUpTo(events: seq<AvailabilityEvent>, n: nat): nat {
    if n == 0 then 0 else ProblemsUpTo(events, n - 1) + CountProblems(EventsOf(events, n - 1))
  }

  lemma {:induction false} ProblemsOfCons(e: AvailabilityEvent, rest: seq<AvailabilityEvent>, n: nat)
    ensures ProblemsUpTo([e] + rest, n) ==
            ProblemsUpTo(rest, n) + if e.device < n then CountProblems([e]) else 0
  {
    assert ([e] + rest)[1..] == rest;
    if n > 0 {
      ProblemsOfCons(e, rest, n - 1);
      assert e.device == n - 1 ==> ([e] + EventsOf(rest, n - 1))[1..] == EventsOf(rest, n - 1);
    }
  }

  lemma {:induction false} ProblemsByDevice(events: seq<AvailabilityEvent>, n: nat)
    requires forall e :: e in events ==> e.device < n
    ensures CountProblems(events) == ProblemsUpTo(events, n)
  {
    if events == [] {
      NoProblems(n);
    } else {
      ProblemsByDevice(events[1..], n);
      ProblemsOfCons(events[0], events[1..], n);
      assert events == [events[0]] + events[1..];
      assert events[0] in events;
    }
  }

  lemma {:induction false} NoProblems(n: nat)
    ensures ProblemsUpTo([], n) == 0
  {
    if n > 0 {
      NoProblems(n - 1);
    }
  }

  lemma {:induction false} ProblemsOfTimeline(events: seq<AvailabilityEvent>, d: nat)
    requires WellFormed(events, d)
    ensures CountProblems(events) == if events != [] && events[|events| - 1].status == OFFLINE then 1 else 0
  {
    if |events| > 1 {
      assert events[0].endedAt.Some?;
      assert forall i {:trigger events[1..][i].endedAt} :: 0 <= i < |events| - 2 ==>
          events[1..][i] == events[i + 1] && events[i + 1].endedAt.Some?;
      ProblemsOfTimeline(events[1..], d);
    }
  }

  /** The device has an open outage exactly if it is OFFLINE. */
  predicate ProblemIfOffline(events: seq<AvailabilityEvent>, devices: seq<Device>, d: nat)
    requires d < |devices|
  {
    CountProblems(EventsOf(events, d)) == if devices[d].polling.status == OFFLINE then 1 else 0
  }

  lemma {:induction false} ProblemsAreOfflineDevices(events: seq<AvailabilityEvent>, devices: seq<Device>, n: nat)
    requires n <= |devices| && forall d :: 0 <= d < |devices| ==> ProblemIfOffline(events, devices, d)
    ensures ProblemsUpTo(events, n) == CountStatus(devices[..n], OFFLINE)
  {
    if n > 0 {
      ProblemsAreOfflineDevices(events, devices, n - 1);
      assert ProblemIfOffline(events, devices, n - 1);
      assert devices[..n][..n - 1] == devices[..n - 1];
    }
  }

  lemma OneProblemIfOffline(start: Tables, run: seq<Step>, d: nat)
    requires Empty(start) && ValidRun(start, run) && d < |Exec(start, run).devices|
    ensures ProblemIfOffline(Exec(start, run).events, Exec(start, run).devices, d)
  {
    var events, status := EventsOf(Exec(start, run).events, d), Exec(start, run).devices[d].polling.status;
    assert WellFormed(events, d) && (status == UNKNOWN <==> events == []) &&
           (events != [] ==> status == events[|events| - 1].status) by {
      TimelineInvariant(start, run, d);
    }
    ProblemsOfTimeline(events, d);
  }

  lemma {:induction false} EveryDeviceHasOneStatus(devices: seq<Device>)
    ensures CountStatus(devices, ONLINE) + CountStatus(devices, OFFLINE) + CountStatus(devices, UNKNOWN) == |devices|
  {
    if devices == [] {
    } else {
      EveryDeviceHasOneStatus(devices[..|devices| - 1]);
    }
  }

  lemma EventsBelongToDevices(start: Tables, run: seq<Step>)
    requires Empty(start) && ValidRun(start, run)
    ensures forall e :: e in Exec(start, run).events ==> e.device < |Exec(start, run).devices|
  {
    var t := Exec(start, run);
    forall e | e in t.events
      ensures e.device < |t.devices|
    {
      TimelineInvariant(start, run, e.device);
      EventsOfMembers(t.events, e.device);
      assert e in EventsOf(t.events, e.device);
    }
  }

  /** In every reachable state and for every range, the open problems that the dashboard counts in the
      event table are the offline devices that it counts in the device table, and the three statuses
      add up to the total. */
  lemma DashboardCountsAgree(start: Tables, run: seq<Step>, rangeHours: int, now: int)
    requires Empty(start) && ValidRun(start, run)
    ensures var board := Dashboard(Exec(start, run).devices, Exec(start, run).events, rangeHours, now);
            && board.openProblems == board.offline
            && board.online + board.offline + board.unknown == board.total
  {
    ProblemsAreOffline(start, run);
    BoardCounts(Exec(start, run).devices, Exec(start, run).events, rangeHours, now);
  }

  lemma ProblemsAreOffline(start: Tables, run: seq<Step>)
    requires Empty(start) && ValidRun(start, run)
    ensures CountProblems(Exec(start, run).events) == CountStatus(Exec(start, run).devices, OFFLINE)
  {
    var t := Exec(start, run);
    EventsBelongToDevices(start, run);
    ProblemsByDevice(t.events, |t.devices|);
    forall d | 0 <= d < |t.devices|
      ensures ProblemIfOffline(t.events, t.devices, d)
    {
      OneProblemIfOffline(start, run, d);
    }
    ProblemsAreOfflineDevices(t.events, t.devices, |t.devices|);
    assert t.devices[..|t.devices|] == t.devices;
  }

  lemma BoardCounts(devices: seq<Device>, events: seq<AvailabilityEvent>, rangeHours: int, now: int)
    requires CountProblems(events) == CountStatus(devices, OFFLINE)
    ensures var board := Dashboard(devices, events, rangeHours, now);
            && board.openProblems == board.offline
            && board.online + board.offline + board.unknown == board.total
  {
    OpenEventsAlwaysOverlap(events, now - rangeHours * HOUR);
    EveryDeviceHasOneStatus(devices);
  }

  ghost function KnownDevices(devices: seq<Device>): set<nat> {
    set d: nat | d < |devices| && devices[d].polling.status != UNKNOWN
  }

  lemma {:induction false} CountKnown(devices: seq<Device>)
    ensures |KnownDevices(devices)| == CountStatus(devices, ONLINE) + CountStatus(devices, OFFLINE)
  {
    if devices == [] {
      assert KnownDevices(devices) == {};
    } else {
      var n := |devices| - 1;
      var before := devices[..n];
      CountKnown(before);
      assert KnownDevices(devices) ==
             if devices[n].polling.status != UNKNOWN then KnownDevices(before) + {n} else KnownDevices(before);
      assert n !in KnownDevices(before);
    }
  }

  ghost function Members(ids: seq<nat>): set<nat> {
    if ids == [] then {} else Members(ids[..|ids| - 1]) + {ids[|ids| - 1]}
  }

  lemma {:induction false} MembersAre(ids: seq<nat>)
    ensures forall d: nat :: d in Members(ids) <==> d in ids
  {
    if ids == [] {
    } else {
      MembersAre(ids[..|ids| - 1]);
      assert ids == ids[..|ids| - 1] + [ids[|ids| - 1]];
    }
  }

  predicate Different(ids: seq<nat>) {
    forall i, j :: 0 <= i < j < |ids| ==> ids[i] != ids[j]
  }

  lemma {:induction false} DistinctCount(ids: seq<nat>)
    requires Different(ids)
    ensures |Members(ids)| == |ids|
  {
    if ids == [] {
    } else {
      var before, last := ids[..|ids| - 1], ids[|ids| - 1];
      DistinctCount(before);
      MembersAre(before);
      LastIsNew(ids);
    }
  }

  lemma LastIsNew(ids: seq<nat>)
    requires ids != [] && Different(ids)
    ensures ids[|ids| - 1] !in ids[..|ids| - 1]
  {
    assert forall i :: 0 <= i < |ids| - 1 ==> ids[..|ids| - 1][i] == ids[i] && ids[i] != ids[|ids| - 1];
  }

  /** The list holds exactly the devices whose status is known. */
  ghost predicate ListsKnown(devices: seq<Device>, ids: seq<nat>) {
    forall d: nat :: d in ids <==> d < |devices| && devices[d].polling.status != UNKNOWN
  }

  /** The devices that the average runs over are those that the board counts as online or offline. */
  ghost predicate CoversKnown(devices: seq<Device>, events: seq<AvailabilityEvent>, rangeHours: int, now: int) {
    var board := Dashboard(devices, events, rangeHours, now);
    var ids := UniqueDevices(ListSince(events, now - rangeHours * HOUR));
    |ids| == board.online + board.offline && ListsKnown(devices, ids)
  }

  /** The dashboard average runs over as many devices as it counts online or offline: exactly those
      whose status is known, whatever the range. */
  lemma AverageCoversKnownDevices(start: Tables, run: seq<Step>, rangeHours: int, now: int)
    requires Empty(start) && ValidRun(start, run)
    ensures CoversKnown(Exec(start, run).devices, Exec(start, run).events, rangeHours, now)
  {
    forall d: nat
      ensures KnownByEvents(Exec(start, run).devices, Exec(start, run).events, d)
    {
      TimelineInvariant(start, run, d);
    }
    KnownAreCovered(Exec(start, run).devices, Exec(start, run).events, rangeHours, now);
  }

  /** The status of the device is known exactly when it has a timeline. */
  predicate KnownByEvents(devices: seq<Device>, events: seq<AvailabilityEvent>, d: nat) {
    && WellFormed(EventsOf(events, d), d)
    && (EventsOf(events, d) != [] <==> d < |devices| && devices[d].polling.status != UNKNOWN)
  }

  lemma KnownAreCovered(devices: seq<Device>, events: seq<AvailabilityEvent>, rangeHours: int, now: int)
    requires forall d: nat :: KnownByEvents(devices, events, d)
    ensures CoversKnown(devices, events, rangeHours, now)
  {
    var from := now - rangeHours * HOUR;
    forall d: nat
      ensures d in UniqueDevices(ListSince(events, from)) <==> d < |devices| && devices[d].polling.status != UNKNOWN
    {
      assert KnownByEvents(devices, events, d);
      OpenRowIsListed(events, d, from);
    }
    CountListed(devices, UniqueDevices(ListSince(events, from)));
  }

  lemma CountListed(devices: seq<Device>, ids: seq<nat>)
    requires Different(ids) && ListsKnown(devices, ids)
    ensures |ids| == CountStatus(devices, ONLINE) + CountStatus(devices, OFFLINE)
  {
    DistinctCount(ids);
    MembersAre(ids);
    assert Members(ids) == KnownDevices(devices);
    CountKnown(devices);
  }

  /** A device with a timeline is listed for every window, thanks to its open event. */
  lemma OpenRowIsListed(events: seq<AvailabilityEvent>, d: nat, from: int)
    requires WellFormed(EventsOf(events, d), d)
    ensures d in UniqueDevices(ListSince(events, from)) <==> EventsOf(events, d) != []
  {
    var rows, mine := ListSince(events, from), EventsOf(events, d);
    EventsOfMembers(events, d);
    ListSinceMembers(events, from);
    if mine != [] {
      assert mine[|mine| - 1] in mine;
      assert mine[|mine| - 1] in rows;
    } else {
      assert forall e :: e in rows && e.device == d ==> e in mine;
    }
  }
}
