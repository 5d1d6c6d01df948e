/** Device identity over whole runs of scans and collection cycles. */
module IdentityRuns {
  import opened Wrappers
  import opened Models
  import opened DeviceIdentity
  import opened DeviceScan
  import opened Collection
  import opened MonitorRuns

  // ---- No step takes an identity away -------------------------------------------------------

  predicate SameIdentity(a: Device, b: Device) {
    a.mac == b.mac && (a.mac.None? ==> a.ip == b.ip && a.subnet == b.subnet)
  }

  /** The rows before are still there, with their identities. */
  predicate KeepsIdentities(rows: seq<Device>, after: seq<Device>) {
    |rows| <= |after| && forall i :: 0 <= i < |rows| ==> SameIdentity(rows[i], after[i])
  }

  /** Rows with the identities of rows that were unique are unique, and once they are not they never will be. */
  lemma KeepingKeepsApart(rows: seq<Device>, after: seq<Device>)
    requires KeepsIdentities(rows, after)
    ensures Identified(after) ==> Identified(rows)
    ensures |rows| == |after| ==> (Identified(rows) <==> Identified(after))
    ensures forall x :: Twins(rows, x) ==> Twins(after, x)
  {
    forall x | Twins(rows, x)
      ensures Twins(after, x)
    {
      var i, j :| 0 <= i < j < |rows| && Matches(rows[i], x) && Matches(rows[j], x);
      assert Matches(after[i], x) && Matches(after[j], x);
    }
  }

  lemma {:induction false} PendingKeepsIdentities(rows: seq<Device>, batch: seq<Incoming>, now: int)
    requires Process(rows, batch, now).Ok?
    ensures KeepsIdentities(rows, Process(rows, batch, now).value.rows)
  {
    if batch == [] {
    } else {
      PendingKeepsIdentities(rows, batch[..|batch| - 1], now);
    }
  }

  lemma ScanKeepsIdentities(rows: seq<Device>, found: Option<seq<Incoming>>, answers: map<string, SnmpInfo>, now: int)
    requires Scanned(rows, found, answers, now).Ok?
    ensures KeepsIdentities(rows, Scanned(rows, found, answers, now).value)
  {
    if found.Some? {
      PendingKeepsIdentities(rows, found.value, now);
    }
  }

  lemma {:induction false} PingsKeepIdentities(t: Tables, pings: seq<Ping>, snapshot: seq<Device>)
    requires |snapshot| == |t.devices| && forall i :: 0 <= i < |pings| ==> pings[i].device < |t.devices|
    requires ApplyPings(t, pings, snapshot).Ok?
    ensures KeepsIdentities(t.devices, ApplyPings(t, pings, snapshot).value.devices)
  {
    if pings == [] {
    } else {
      PingsKeepIdentities(t, pings[..|pings| - 1], snapshot);
    }
  }

  lemma StepKeepsIdentities(t: Tables, step: Step)
    requires ValidStep(t, step)
    ensures KeepsIdentities(t.devices, Apply(t, step).devices)
    ensures step.Collect? ==> |Apply(t, step).devices| == |t.devices|
  {
    match step {
      case Scan(at, found, answers) =>
        if Scanned(t.devices, found, answers, at).Ok? {
          ScanKeepsIdentities(t.devices, found, answers, at);
        }
      case Collect(now, pings, readings, fault) =>
        AnswersAreDistinct(t.devices, now, pings);
        if fault.None? && Collected(t, now, pings, readings).Ok? && pings != [] {
          PingsKeepIdentities(t, pings, t.devices);
        }
    }
  }

  // ---- Exactly when identities stay unique --------------------------------------------------

  /** A committed batch reports no new address twice. */
  predicate CleanScan(rows: seq<Device>, step: Step) {
    step.Scan? && step.found.Some? && UpsertMany(rows, step.found.value, step.at).Ok? ==>
      FreshAddressesDistinct(rows, step.found.value)
  }

  predicate ScansClean(start: Tables, run: seq<Step>)
    requires ValidRun(start, run)
  {
    run != [] ==>
      var before := run[..|run| - 1];
      ScansClean(start, before) && CleanScan(Exec(start, before).devices, run[|run| - 1])
  }

  /** From an empty table, identities are unique exactly while no committed batch has reported a new address
      twice. */
  lemma {:induction false} IdentitiesUniqueIff(start: Tables, run: seq<Step>)
    requires Empty(start) && ValidRun(start, run)
    ensures Identified(Exec(start, run).devices) <==> ScansClean(start, run)
  {
    if run == [] {
    } else {
      var before, step := run[..|run| - 1], run[|run| - 1];
      var t := Exec(start, before);
      IdentitiesUniqueIff(start, before);
      StepKeepsIdentities(t, step);
      KeepingKeepsApart(t.devices, Apply(t, step).devices);
      if step.Scan? && Identified(t.devices) {
        ScanUniqueIff(t.devices, step.found, step.answers, step.at);
      }
    }
  }

  lemma ScanUniqueIff(rows: seq<Device>, found: Option<seq<Incoming>>, answers: map<string, SnmpInfo>, now: int)
    requires Identified(rows)
    ensures Scanned(rows, found, answers, now).Ok? ==>
              (Identified(Scanned(rows, found, answers, now).value) <==>
               (found.Some? ==> FreshAddressesDistinct(rows, found.value)))
    ensures Scanned(rows, found, answers, now).Err? ==> Scanned(rows, found, answers, now).error == IntegrityError
  {
    if found.Some? {
      UpsertKeepsIdentityIff(rows, found.value, now);
      if UpsertMany(rows, found.value, now).Ok? {
        var done := UpsertMany(rows, found.value, now).value;
        KeepingKeepsApart(done.rows, Probed(done.rows, done.ids, answers));
      }
    } else {
      KeepingKeepsApart(rows, Probed(rows, AllOf(rows), answers));
    }
  }

  // ---- A duplicate is for ever --------------------------------------------------------------

  lemma {:induction false} TwinsStay(t: Tables, run: seq<Step>, x: Incoming)
    requires ValidRun(t, run) && Twins(t.devices, x)
    ensures Twins(Exec(t, run).devices, x)
  {
    if run == [] {
    } else {
      var before := run[..|run| - 1];
      TwinsStay(t, before, x);
      StepKeepsIdentities(Exec(t, before), run[|run| - 1]);
      KeepingKeepsApart(Exec(t, before).devices, Exec(t, run).devices);
    }
  }

  /** After a batch that reports a new address twice has been committed, every later batch with that address
      under the same subnet fails, whatever happens in between. */
  lemma DuplicateAddressPoisonsUpserts(t: Tables, batch: seq<Incoming>, at: int, j: nat, k: nat,
                                       u: Tables, run: seq<Step>, later: seq<Incoming>, y: Incoming, now: int)
    requires Identified(t.devices) && UpsertMany(t.devices, batch, at).Ok?
    requires j < k < |batch| && batch[j].mac.None? && batch[k].mac.None?
    requires batch[j].ip == batch[k].ip && batch[j].subnet == batch[k].subnet && !Seen(t.devices, batch[j])
    requires u.devices == UpsertMany(t.devices, batch, at).value.rows && ValidRun(u, run)
    requires y in later && y.mac.None? && y.ip == batch[j].ip && y.subnet == batch[j].subnet
    ensures UpsertMany(Exec(u, run).devices, later, now) == Err(MultipleResultsFound)
  {
    DuplicateAddressMakesTwins(t.devices, batch, at, j, k);
    TwinsStay(u, run, batch[j]);
    TwinsFail(Exec(u, run).devices, later, now, batch[j], y);
  }

  // ---- The scans that are really made -------------------------------------------------------

  /** A batch comes from ARP, which knows every mac, or from a sweep that pings each address once. */
  predicate FromOneSource(batch: seq<Incoming>) {
    || (forall j :: 0 <= j < |batch| ==> batch[j].mac.Some?)
    || (&& (forall j :: 0 <= j < |batch| ==> batch[j].mac.None?)
        && (forall j, k :: 0 <= j < k < |batch| ==> batch[j].ip != batch[k].ip))
  }

  predicate ScansAreReal(run: seq<Step>) {
    forall i :: 0 <= i < |run| && run[i].Scan? && run[i].found.Some? ==> FromOneSource(run[i].found.value)
  }

  /** With such batches identities are unique in every reachable state, so that no lookup is ever ambiguous;
      all that can fail a scan is a new mac that ARP reports at two addresses. */
  lemma RealScansKeepIdentities(start: Tables, run: seq<Step>, batch: seq<Incoming>, now: int)
    requires Empty(start) && ValidRun(start, run) && ScansAreReal(run)
    ensures Identified(Exec(start, run).devices)
    ensures UpsertMany(Exec(start, run).devices, batch, now).Err? <==>
              !FreshMacsDistinct(Exec(start, run).devices, batch)
    ensures UpsertMany(Exec(start, run).devices, batch, now).Err? ==>
              UpsertMany(Exec(start, run).devices, batch, now).error == IntegrityError
  {
    RealScansAreClean(start, run);
    IdentitiesUniqueIff(start, run);
    UpsertKeepsIdentityIff(Exec(start, run).devices, batch, now);
  }

  lemma {:induction false} RealScansAreClean(start: Tables, run: seq<Step>)
    requires ValidRun(start, run) && ScansAreReal(run)
    ensures ScansClean(start, run)
  {
    if run == [] {
    } else {
      var before := run[..|run| - 1];
      assert forall i :: 0 <= i < |before| ==> before[i] == run[i];
      RealScansAreClean(start, before);
    }
  }
}
