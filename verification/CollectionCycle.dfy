/** The collection cycle and its background loop. */
module CollectionCycle {
  import opened Wrappers
  import opened Clock
  import opened Models
  import opened Database
  import opened Timeline
  import opened PollingBackoff
  import opened DeviceIdentity
  import opened DeviceScan
  import opened Collection
  import opened MonitorRuns
  import opened MonitorTheorems
  import opened MonitorRepositories
  import opened MetricRepositories

  method ApplyPingResult(result: Ping, before: Polling, devices: DeviceRepository, events: AvailabilityEventRepository)
    returns (r: Result<(), DbError>)
    requires devices.session == events.session && result.device < |devices.session.tables.devices|
    modifies devices.session
    ensures match ApplyPing(old(devices.session.tables), result, before)
            case Err(e) => r == Err(e)
            case Ok(t) => r == Ok(()) && devices.session.tables == t
    ensures r.Ok? ==>
              var t, status := old(devices.session.tables), if result.online then ONLINE else OFFLINE;
              var failures := if result.online then 0 else before.failures + 1;
              var interval := NextPollInterval(failures);
              var polling := Polling(status, interval, failures, result.checkedAt + interval * 1_000_000,
                                     Some(result.checkedAt));
              && devices.session.tables.devices ==
                 t.devices[result.device := t.devices[result.device].(polling := polling)]
              && (status == before.status ==> devices.session.tables.events == t.events)
              && (status != before.status ==>
                    devices.session.tables.events ==
                    CloseRows(t.events, result.device, result.checkedAt) +
                    [AvailabilityEvent(result.device, status, result.checkedAt, None)])
  {
    var newStatus := if result.online then ONLINE else OFFLINE;
    var failures := if result.online then 0 else before.failures + 1;
    var interval := NextPollInterval(failures);
    var checkedAt := result.checkedAt;
    devices.RecordPollResult(result.device,
      Polling(newStatus, interval, failures, checkedAt + interval * SECOND, Some(checkedAt)));
    if newStatus != before.status {
      var closed := events.CloseOpenEvent(result.device, checkedAt);
      if closed.Err? { return Err(closed.error); }
      events.OpenEvent(result.device, newStatus, checkedAt);
    }
    r := Ok(());
  }

  /** The loop over the ping results, against the snapshot taken before them. */
  method ApplyPingResults(pings: seq<Ping>, statusBefore: seq<Device>, fault: Option<nat>,
                          devices: DeviceRepository, events: AvailabilityEventRepository)
    returns (r: Result<(), DbError>)
    requires devices.session == events.session && statusBefore == devices.session.tables.devices
    requires forall i :: 0 <= i < |pings| ==> pings[i].device < |statusBefore|
    modifies devices.session
    ensures if fault.Some? && fault.value < |pings| then r.Err?
            else match ApplyPings(old(devices.session.tables), pings, statusBefore)
                 case Err(e) => r == Err(e)
                 case Ok(t) => r == Ok(()) && devices.session.tables == t
  {
    var session := devices.session;
    ghost var t := session.tables;
    for i := 0 to |pings|
      invariant ApplyPings(t, pings[..i], statusBefore) == Ok(session.tables)
      invariant fault.Some? ==> i <= fault.value || |pings| <= fault.value
    {
      if fault == Some(i) { return Err(DriverError); }
      assert pings[..i + 1][..i] == pings[..i];
      var applied := ApplyPingResult(pings[i], statusBefore[pings[i].device].polling, devices, events);
      if applied.Err? {
        PingErrorStays(t, pings, i + 1);
        return Err(applied.error);
      }
    }
    assert pings[..|pings|] == pings;
    r := Ok(());
  }

  /** One cycle. `pings` are the answers to the due devices, `readings` the rows that SNMP yields, and
      `fault` the number of pings applied when an exception cuts the cycle short, if one does. */
  method RunCollectionCycle(db: Database, now: int, pings: seq<Ping>, readings: seq<MetricHistory>, fault: Option<nat>)
    returns (r: Result<(), DbError>)
    requires Answers(db.tables.devices, now, pings)
    modifies db
    ensures fault.Some? ==> db.tables == old(db.tables)
    ensures fault.None? ==>
              match Collected(old(db.tables), now, pings, readings)
              case Err(e) => r == Err(e) && db.tables == old(db.tables)
              case Ok(t) => r == Ok(()) && db.tables == t
  {
    var session := new Session(db);
    var deviceRepo := new DeviceRepository(session);
    var eventRepo := new AvailabilityEventRepository(session);
    var historyRepo := new MetricHistoryRepository(session);
    AnswersAreDistinct(db.tables.devices, now, pings);
    var dueDevices := deviceRepo.ListDueForPoll(now);
    if dueDevices == [] { return Ok(()); }
    var statusBefore := session.tables.devices;
    var applied := ApplyPingResults(pings, statusBefore, fault, deviceRepo, eventRepo);
    if applied.Err? { return applied; }
    historyRepo.SaveMany(readings);
    if fault.Some? { return Err(DriverError); }
    session.Commit();
    r := Ok(());
  }

  lemma {:induction false} PingErrorStays(t: Tables, pings: seq<Ping>, n: nat)
    requires n <= |pings| && forall i :: 0 <= i < |pings| ==> pings[i].device < |t.devices|
    requires ApplyPings(t, pings[..n], t.devices).Err?
    ensures ApplyPings(t, pings, t.devices) == ApplyPings(t, pings[..n], t.devices)
    decreases |pings|
  {
    if n == |pings| {
      assert pings[..n] == pings;
    } else {
      var before := pings[..|pings| - 1];
      assert before[..n] == pings[..n];
      PingErrorStays(t, before, n);
    }
  }

  /** A scan registers what it found, or takes all registered devices if it was told not to look, and fills in
      the SNMP data of those that answered at their address, in one commit. */
  method RunScan(db: Database, found: Option<seq<Incoming>>, answers: map<string, SnmpInfo>, at: int)
    returns (r: Result<(), DbError>)
    modifies db
    ensures match Scanned(old(db.tables).devices, found, answers, at)
            case Err(e) => r == Err(e) && db.tables == old(db.tables)
            case Ok(rows) => r == Ok(()) && db.tables == old(db.tables).(devices := rows)
  {
    var session := new Session(db);
    var deviceRepo := new DeviceRepository(session);
    var targets: seq<nat>;
    match found {
      case Some(batch) =>
        var upserted := deviceRepo.UpsertMany(batch, at);
        if upserted.Err? { return Err(upserted.error); }
        targets := upserted.value;
        IdsAreRows(db.tables.devices, batch, at);
      case None =>
        targets := deviceRepo.ListAll();
    }
    ProbeTargets(deviceRepo, targets, answers);
    session.Commit();
    r := Ok(());
  }

  method ProbeTargets(devices: DeviceRepository, targets: seq<nat>, answers: map<string, SnmpInfo>)
    requires forall i :: 0 <= i < |targets| ==> targets[i] < |devices.session.tables.devices|
    modifies devices.session
    ensures devices.session.tables ==
            old(devices.session.tables).(devices := Probed(old(devices.session.tables).devices, targets, answers))
  {
    var session := devices.session;
    ghost var t := session.tables;
    assert Probed(t.devices, [], answers) == t.devices;
    for i := 0 to |targets|
      invariant session.tables == t.(devices := Probed(t.devices, targets[..i], answers))
    {
      var ip := session.tables.devices[targets[i]].ip;
      ProbedSnoc(t.devices, targets[..i], targets[i], answers);
      assert targets[..i + 1] == targets[..i] + [targets[i]];
      if ip in answers {
        devices.UpdateSnmpInfo(targets[i], answers[ip]);
      }
    }
    assert targets[..|targets|] == targets;
  }

  /** The loop, between which scans happen: it outlives every failed cycle, and from empty tables no
      cycle ever fails for an ambiguous open event. After any valid sequence of steps the database is
      the one that the run defines, and every device's rows mean its committed checks. */
  method RunForever(db: Database, run: seq<Step>)
    requires Empty(db.tables) && ValidRun(db.tables, run)
    modifies db
    ensures db.tables == Exec(old(db.tables), run)
    ensures forall d: nat :: DeviceMeans(db.tables, d, ChecksOf(run, d))
  {
    ghost var start := db.tables;
    for i := 0 to |run|
      invariant ValidRun(start, run[..i])
      invariant db.tables == Exec(start, run[..i])
    {
      assert run[..i + 1][..i] == run[..i];
      PrefixIsValid(start, run, i + 1);
      if run[i].Collect? {
        CyclesNeverMeetTwoOpenEvents(start, run[..i], run[i].now, run[i].pings, run[i].readings);
      }
      var r := TakeStep(db, run[i]);
      assert Commits(run[i]) ==> r.Ok?;
    }
    assert run[..|run|] == run;
    StateMeansChecks(start, run);
  }

  method TakeStep(db: Database, step: Step) returns (r: Result<(), DbError>)
    requires ValidStep(db.tables, step)
    modifies db
    ensures db.tables == MonitorRuns.Apply(old(db.tables), step)
    ensures Commits(step) ==> r.Ok? == Collected(old(db.tables), step.now, step.pings, step.readings).Ok?
  {
    match step {
      case Scan(at, found, answers) =>
        r := RunScan(db, found, answers, at);
      case Collect(now, pings, readings, fault) =>
        r := RunCollectionCycle(db, now, pings, readings, fault);
    }
  }

  lemma {:induction false} PrefixIsValid(t: Tables, run: seq<Step>, n: nat)
    requires ValidRun(t, run) && n <= |run|
    ensures ValidRun(t, run[..n])
    decreases |run|
  {
    if n == |run| {
      assert run[..n] == run;
    } else {
      PrefixIsValid(t, run[..|run| - 1], n);
      assert run[..|run| - 1][..n] == run[..n];
    }
  }
}
