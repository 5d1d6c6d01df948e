/** The repositories of the device and event tables. */
module MonitorRepositories {
  import opened Wrappers
  import opened Models
  import opened Database
  import opened Timeline
  import opened DeviceIdentity
  import opened Collection
  import DeviceScan
  import AvailabilityEtl

  class DeviceRepository {
    const session: Session

    constructor (session: Session)
      ensures this.session == session
    {
      this.session := session;
    }

    /** A failing upsert leaves the tables as they were; otherwise the session holds the upserted rows
        and the result lists, position by position, the row of every report. */
    method UpsertMany(devices: seq<Incoming>, now: int) returns (r: Result<seq<nat>, DbError>)
      modifies session
      ensures match DeviceIdentity.UpsertMany(old(session.tables).devices, devices, now)
              case Err(e) => r == Err(e) && session.tables == old(session.tables)
              case Ok(done) => r == Ok(done.ids) && session.tables == old(session.tables).(devices := done.rows)
    {
      var flushed := session.tables.devices;
      var rows, added := flushed, [];
      var result: seq<nat> := [];
      for i := 0 to |devices|
        invariant session.tables == old(session.tables)
        invariant |rows| == |flushed|
        invariant Process(flushed, devices[..i], now) == Ok(Pending(rows, added, result))
      {
        var incoming := devices[i];
        assert devices[..i + 1][..i] == devices[..i];
        var existing := Lookup(flushed, incoming);
        if existing.Err? {
          ErrorStays(flushed, devices, i + 1, now);
          return Err(existing.error);
        }
        match existing.value {
          case None =>
            result := result + [|flushed| + |added|];
            added := added + [NewDevice(incoming, now)];
          case Some(row) =>
            rows := rows[row := Updated(rows[row], incoming)];
            result := result + [row];
        }
      }
      assert devices[..|devices|] == devices;
      if !MacsUnique(rows + added) { return Err(IntegrityError); }
      session.tables := session.tables.(devices := rows + added);
      r := Ok(result);
    }

    method ListDueForPoll(now: int) returns (due: seq<nat>)
      ensures due == DueForPoll(session.tables.devices, now)
      ensures forall d :: d in due <==>
                0 <= d < |session.tables.devices| && session.tables.devices[d].polling.nextPollAt <= now
    {
      due := DueForPoll(session.tables.devices, now);
    }

    /** Sets the polling state of one device and nothing else. */
    method RecordPollResult(device: nat, polling: Polling)
      requires device < |session.tables.devices|
      modifies session
      ensures session.tables == old(session.tables).(devices := session.tables.devices)
      ensures session.tables.devices ==
              old(session.tables).devices[device := old(session.tables).devices[device].(polling := polling)]
    {
      var rows := session.tables.devices;
      session.tables := session.tables.(devices := rows[device := rows[device].(polling := polling)]);
    }

    method ListAll() returns (all: seq<nat>)
      ensures all == DeviceScan.AllOf(session.tables.devices)
    {
      all := DeviceScan.AllOf(session.tables.devices);
    }

    /** Fills in the SNMP identity of one device and marks it as supporting SNMP. */
    method UpdateSnmpInfo(device: nat, info: SnmpInfo)
      requires device < |session.tables.devices|
      modifies session
      ensures session.tables == old(session.tables).(devices := session.tables.devices)
      ensures session.tables.devices ==
              var rows := old(session.tables).devices;
              rows[device := rows[device].(snmp := info.(supported := true))]
    {
      var rows := session.tables.devices;
      session.tables := session.tables.(devices := rows[device := rows[device].(snmp := info.(supported := true))]);
    }
  }

  /** A batch that fails on a prefix fails as a whole, with the same error. */
  lemma {:induction false} ErrorStays(flushed: seq<Device>, batch: seq<Incoming>, n: nat, now: int)
    requires n <= |batch| && Process(flushed, batch[..n], now).Err?
    ensures Process(flushed, batch, now) == Process(flushed, batch[..n], now)
    decreases |batch|
  {
    if n == |batch| {
      assert batch[..n] == batch;
    } else {
      var before := batch[..|batch| - 1];
      assert before[..n] == batch[..n];
      ErrorStays(flushed, before, n, now);
    }
  }

  class AvailabilityEventRepository {
    const session: Session

    constructor (session: Session)
      ensures this.session == session
    {
      this.session := session;
    }

    /** Ends the open event of the device, if there is one; two of them are an error. */
    method CloseOpenEvent(device: nat, endedAt: int) returns (r: Result<(), DbError>)
      modifies session
      ensures match Collection.CloseOpenEvent(old(session.tables).events, device, endedAt)
              case Err(e) => r == Err(e) && session.tables == old(session.tables)
              case Ok(events) => r == Ok(()) && session.tables == old(session.tables).(events := events)
      ensures var events := old(session.tables).events;
              r.Err? <==> exists i, j :: 0 <= i < j < |events| && IsOpen(events[i], device) && IsOpen(events[j], device)
      ensures r.Err? ==> r.error == MultipleResultsFound
      ensures r.Ok? ==> |session.tables.events| == |old(session.tables).events|
      ensures r.Ok? ==> forall i :: 0 <= i < |session.tables.events| ==>
                          var before := old(session.tables).events[i];
                          session.tables.events[i] ==
                          if before.device == device && before.endedAt.None?
                          then before.(endedAt := Some(endedAt)) else before
    {
      var events := session.tables.events;
      TwoOpenRows(events, device);
      if CountOpen(events, device) > 1 { return Err(MultipleResultsFound); }
      session.tables := session.tables.(events := CloseRows(events, device, endedAt));
      r := Ok(());
    }

    method OpenEvent(device: nat, status: DeviceStatus, startedAt: int)
      modifies session
      ensures session.tables == old(session.tables).(events :=
                old(session.tables).events + [AvailabilityEvent(device, status, startedAt, None)])
    {
      session.tables := session.tables.(events :=
        session.tables.events + [AvailabilityEvent(device, status, startedAt, None)]);
    }

    /** Exactly the events of the device that are open or ended at or after `since`, each as often as it is in
        the table, ordered by their start. */
    method ListByDeviceSince(device: nat, since: int) returns (rows: seq<AvailabilityEvent>)
      ensures rows == AvailabilityEtl.ListByDeviceSince(session.tables.events, device, since)
      ensures forall e :: e in rows <==>
                e in session.tables.events && e.device == device && (e.endedAt.Some? ==> since <= e.endedAt.value)
      ensures forall e :: e in rows ==> multiset(rows)[e] == multiset(session.tables.events)[e]
      ensures forall i, j :: 0 <= i < j < |rows| ==> rows[i].startedAt <= rows[j].startedAt
    {
      AvailabilityEtl.RowsOfDevice(session.tables.events, device, since);
      AvailabilityEtl.EventsOfMembers(session.tables.events, device);
      AvailabilityEtl.ListSinceMembers(EventsOf(session.tables.events, device), since);
      rows := AvailabilityEtl.ListByDeviceSince(session.tables.events, device, since);
    }
  }
}
