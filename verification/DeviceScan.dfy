/** What one scan does to the device table: it registers what it found, and probes its targets for SNMP. */
module DeviceScan {
  import opened Wrappers
  import opened Models
  import opened DeviceIdentity

  /** The row of a target: if something answered at its address, its SNMP data is that answer. */
  function ProbedRow(row: Device, target: bool, answers: map<string, SnmpInfo>): Device {
    if target && row.ip in answers then row.(snmp := answers[row.ip].(supported := true)) else row
  }

  function Probed(rows: seq<Device>, targets: seq<nat>, answers: map<string, SnmpInfo>): (probed: seq<Device>)
    ensures |probed| == |rows|
    ensures forall i :: 0 <= i < |rows| ==> probed[i] == ProbedRow(rows[i], i in targets, answers)
  {
    seq(|rows|, i requires 0 <= i < |rows| => ProbedRow(rows[i], i in targets, answers))
  }

  /** One more target: an earlier probe of the same row changes nothing. */
  lemma ProbedSnoc(rows: seq<Device>, targets: seq<nat>, target: nat, answers: map<string, SnmpInfo>)
    requires target < |rows|
    ensures var before := Probed(rows, targets, answers);
            && before[target].ip == rows[target].ip
            && Probed(rows, targets + [target], answers) ==
               before[target := ProbedRow(before[target], true, answers)]
  {
    assert forall i: nat :: i in targets + [target] <==> i in targets || i == target;
  }

  function AllOf(rows: seq<Device>): (all: seq<nat>)
    ensures |all| == |rows| && forall i :: 0 <= i < |rows| ==> all[i] == i
  {
    seq(|rows|, i requires 0 <= i < |rows| => i)
  }

  /** The rows that a scan commits. `found` is None when the scan is told not to look for devices and takes
      all the registered ones. */
  function Scanned(rows: seq<Device>, found: Option<seq<Incoming>>, answers: map<string, SnmpInfo>, now: int)
    : Result<seq<Device>, DbError>
  {
    match found
    case None => Ok(Probed(rows, AllOf(rows), answers))
    case Some(batch) =>
      match UpsertMany(rows, batch, now)
      case Err(e) => Err(e)
      case Ok(done) => Ok(Probed(done.rows, done.ids, answers))
  }

  /** A scan, in full: it fails exactly if its upsert does; every target whose address answered carries that
      answer and supports SNMP; nothing else differs from what the upsert left. */
  lemma ScanOverRows(rows: seq<Device>, found: Option<seq<Incoming>>, answers: map<string, SnmpInfo>, now: int)
    ensures found.None? ==> Scanned(rows, found, answers, now).Ok?
    ensures found.Some? && UpsertMany(rows, found.value, now).Err? ==>
              Scanned(rows, found, answers, now) == Err(UpsertMany(rows, found.value, now).error)
    ensures found.Some? && UpsertMany(rows, found.value, now).Ok? ==> Scanned(rows, found, answers, now).Ok?
    ensures Scanned(rows, found, answers, now).Ok? ==>
              var after := Scanned(rows, found, answers, now).value;
              var left := if found.None? then rows else UpsertMany(rows, found.value, now).value.rows;
              && |after| == |left|
              && forall d :: 0 <= d < |left| ==>
                   var target := found.None? || d in UpsertMany(rows, found.value, now).value.ids;
                   && after[d] == left[d].(snmp := after[d].snmp)
                   && (target && after[d].ip in answers ==> after[d].snmp == answers[after[d].ip].(supported := true))
                   && (!target || after[d].ip !in answers ==> after[d].snmp == left[d].snmp)
  {
    forall d | 0 <= d < |rows|
      ensures d in AllOf(rows)
    {
      assert AllOf(rows)[d] == d;
    }
  }

  /** The rows that an upsert returns exist. */
  lemma IdsAreRows(rows: seq<Device>, batch: seq<Incoming>, now: int)
    requires UpsertMany(rows, batch, now).Ok?
    ensures var done := UpsertMany(rows, batch, now).value;
            forall i :: 0 <= i < |done.ids| ==> done.ids[i] < |done.rows|
  {
    PendingIdsAreRows(rows, batch, now);
  }

  lemma {:induction false} PendingIdsAreRows(rows: seq<Device>, batch: seq<Incoming>, now: int)
    requires Process(rows, batch, now).Ok?
    ensures var p := Process(rows, batch, now).value;
            forall i :: 0 <= i < |p.ids| ==> p.ids[i] < |p.rows| + |p.added|
  {
    if batch == [] {
    } else {
      PendingIdsAreRows(rows, batch[..|batch| - 1], now);
    }
  }

  /** SNMP support, once found, is never taken back, and a scan that answers for the address of a returned
      device finds it. */
  lemma SupportStays(rows: seq<Device>, found: Option<seq<Incoming>>, answers: map<string, SnmpInfo>, now: int, d: nat)
    requires Scanned(rows, found, answers, now).Ok? && d < |rows|
    ensures d < |Scanned(rows, found, answers, now).value|
    ensures rows[d].snmp.supported ==> Scanned(rows, found, answers, now).value[d].snmp.supported
  {
    if found.Some? {
      PendingKeepsSupport(rows, found.value, now, d);
    }
  }

  lemma {:induction false} PendingKeepsSupport(rows: seq<Device>, batch: seq<Incoming>, now: int, d: nat)
    requires Process(rows, batch, now).Ok? && d < |rows|
    ensures Process(rows, batch, now).value.rows[d].snmp == rows[d].snmp
  {
    if batch == [] {
    } else {
      PendingKeepsSupport(rows, batch[..|batch| - 1], now, d);
    }
  }
}
