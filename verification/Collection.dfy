/** What one collection cycle does to the device and event tables. */
module Collection {
  import opened Wrappers
  import opened Clock
  import opened Models
  import opened Timeline
  import opened PollingBackoff

  /** The answer of a ping, with the clock reading taken when it is applied. */
  datatype Ping = Ping(device: nat, online: bool, checkedAt: int)

  /** The devices whose next poll has fallen due, in table order. */
  function DueForPoll(devices: seq<Device>, now: int): (due: seq<nat>)
    ensures forall d :: d in due <==> 0 <= d < |devices| && devices[d].polling.nextPollAt <= now
    ensures forall i :: 0 <= i < |due| ==> due[i] < |devices|
    ensures forall i, j :: 0 <= i < j < |due| ==> due[i] < due[j]
  {
    if devices == [] then []
    else
      var n := |devices| - 1;
      var before := DueForPoll(devices[..n], now);
      if devices[n].polling.nextPollAt <= now then before + [n] else before
  }

  /** The polling state after a check, given the failures counted before it. */
  function Polled(failuresBefore: int, online: bool, checkedAt: int): Polling {
    var failures := if online then 0 else failuresBefore + 1;
    var interval := NextPollInterval(failures);
    Polling(StatusOf(online), interval, failures, checkedAt + interval * SECOND, Some(checkedAt))
  }

  /** one_or_none() on the open rows of the device, then the update of that row. */
  function CloseOpenEvent(events: seq<AvailabilityEvent>, device: nat, endedAt: int)
    : Result<seq<AvailabilityEvent>, DbError>
  {
    if CountOpen(events, device) > 1 then Err(MultipleResultsFound) else Ok(CloseRows(events, device, endedAt))
  }

  /** One ping result applied against the snapshot of the device taken before the pings. */
  function ApplyPing(t: Tables, ping: Ping, before: Polling): Result<Tables, DbError>
    requires ping.device < |t.devices|
  {
    var status := StatusOf(ping.online);
    var polled := t.(devices := t.devices[ping.device :=
      t.devices[ping.device].(polling := Polled(before.failures, ping.online, ping.checkedAt))]);
    if status == before.status then Ok(polled)
    else
      match CloseOpenEvent(t.events, ping.device, ping.checkedAt)
      case Err(e) => Err(e)
      case Ok(closed) =>
        Ok(polled.(events := closed + [AvailabilityEvent(ping.device, status, ping.checkedAt, None)]))
  }

  function ApplyPings(t: Tables, pings: seq<Ping>, snapshot: seq<Device>): (r: Result<Tables, DbError>)
    requires |snapshot| == |t.devices| && forall i :: 0 <= i < |pings| ==> pings[i].device < |t.devices|
    ensures r.Ok? ==> |r.value.devices| == |t.devices|
  {
    if pings == [] then Ok(t)
    else
      var last := pings[|pings| - 1];
      match ApplyPings(t, pings[..|pings| - 1], snapshot)
      case Err(e) => Err(e)
      case Ok(u) => ApplyPing(u, last, snapshot[last.device].polling)
  }

  /** One answer per due device, in order, each read at or after the start of the cycle. */
  predicate Answers(devices: seq<Device>, now: int, pings: seq<Ping>) {
    && |pings| == |DueForPoll(devices, now)|
    && forall i :: 0 <= i < |pings| ==> pings[i].device == DueForPoll(devices, now)[i] && now <= pings[i].checkedAt
  }

  /** The state that a cycle tries to commit; without due devices it ends at once. */
  function Collected(t: Tables, now: int, pings: seq<Ping>, readings: seq<MetricHistory>): Result<Tables, DbError>
    requires Answers(t.devices, now, pings)
  {
    if pings == [] then Ok(t)
    else
      match ApplyPings(t, pings, t.devices)
      case Err(e) => Err(e)
      case Ok(u) => Ok(u.(history := u.history + readings))
  }

  // ---- One device among many ----------------------------------------------------------------

  /** What a ping leaves of the events of its device. */
  function EventsAfter(events: seq<AvailabilityEvent>, status: DeviceStatus, ping: Ping): seq<AvailabilityEvent> {
    Extended(events, StatusOf(ping.online) == status, ping.device, Check(ping.checkedAt, ping.online))
  }

  lemma {:induction false} EventsOfClosed(events: seq<AvailabilityEvent>, device: nat, at: int, other: nat)
    ensures EventsOf(CloseRows(events, device, at), other) ==
            if other == device then CloseRows(EventsOf(events, device), device, at) else EventsOf(events, other)
  {
    if events == [] {
    } else {
      EventsOfClosed(events[1..], device, at, other);
      var closed := CloseRows(events, device, at);
      assert closed[1..] == CloseRows(events[1..], device, at);
      assert closed[0].device == events[0].device;
      assert other == device && events[0].device == device ==>
          CloseRows([events[0]] + EventsOf(events[1..], device), device, at) ==
          [closed[0]] + CloseRows(EventsOf(events[1..], device), device, at);
    }
  }

  lemma {:induction false} OpenRowsOfDevice(events: seq<AvailabilityEvent>, device: nat)
    ensures CountOpen(events, device) == CountOpen(EventsOf(events, device), device)
  {
    if events == [] {
    } else {
      OpenRowsOfDevice(events[1..], device);
      assert ([events[0]] + EventsOf(events[1..], device))[1..] == EventsOf(events[1..], device);
    }
  }

  predicate SameElsewhere(t: Tables, u: Tables) {
    t.definitions == u.definitions && t.history == u.history && t.trends == u.trends && |t.devices| == |u.devices|
  }

  /** A ping changes its own device and the events of it, and nothing else. */
  lemma ApplyPingLocally(t: Tables, ping: Ping, before: Polling)
    requires ping.device < |t.devices| && CountOpen(EventsOf(t.events, ping.device), ping.device) <= 1
    ensures ApplyPing(t, ping, before).Ok?
    ensures var u := ApplyPing(t, ping, before).value;
            && SameElsewhere(t, u)
            && u.devices[ping.device] ==
               t.devices[ping.device].(polling := Polled(before.failures, ping.online, ping.checkedAt))
            && EventsOf(u.events, ping.device) == EventsAfter(EventsOf(t.events, ping.device), before.status, ping)
            && forall d: nat :: d != ping.device ==>
                 EventsOf(u.events, d) == EventsOf(t.events, d) && (d < |t.devices| ==> u.devices[d] == t.devices[d])
  {
    OpenRowsOfDevice(t.events, ping.device);
    var event := AvailabilityEvent(ping.device, StatusOf(ping.online), ping.checkedAt, None);
    forall d: nat
      ensures EventsOf(CloseRows(t.events, ping.device, ping.checkedAt) + [event], d) ==
              if d == ping.device then CloseRows(EventsOf(t.events, d), d, ping.checkedAt) + [event]
              else EventsOf(t.events, d)
    {
      EventsOfAppend(CloseRows(t.events, ping.device, ping.checkedAt), event, d);
      EventsOfClosed(t.events, ping.device, ping.checkedAt, d);
    }
  }

  /** The answer for a device. */
  function PingFor(pings: seq<Ping>, device: nat): (p: Option<Ping>)
    ensures p.Some? ==> p.value in pings && p.value.device == device
    ensures p.None? ==> forall q :: q in pings ==> q.device != device
  {
    if pings == [] then None
    else
      var before, last := pings[..|pings| - 1], pings[|pings| - 1];
      assert pings == before + [last];
      if last.device == device then Some(last) else PingFor(before, device)
  }

  /** What a cycle does to one device: nothing, or exactly its own ping. */
  predicate DeviceStep(t: Tables, u: Tables, ping: Option<Ping>, d: nat) {
    && |u.devices| == |t.devices|
    && match ping
       case None =>
         EventsOf(u.events, d) == EventsOf(t.events, d) && (d < |t.devices| ==> u.devices[d] == t.devices[d])
       case Some(p) =>
         && d < |t.devices|
         && u.devices[d] == t.devices[d].(polling := Polled(t.devices[d].polling.failures, p.online, p.checkedAt))
         && EventsOf(u.events, d) == EventsAfter(EventsOf(t.events, d), t.devices[d].polling.status, p)
  }

  predicate Distinct(pings: seq<Ping>) {
    forall i, j :: 0 <= i < j < |pings| ==> pings[i].device != pings[j].device
  }

  /** The snapshot is as good as the current row, because every device is pinged once; no lookup of the
      open event is ambiguous if none was before; and every device gets exactly its own ping. */
  lemma {:induction false} ApplyPingsLocally(t: Tables, pings: seq<Ping>)
    requires forall i :: 0 <= i < |pings| ==> pings[i].device < |t.devices|
    requires Distinct(pings) && forall d: nat :: CountOpen(EventsOf(t.events, d), d) <= 1
    ensures ApplyPings(t, pings, t.devices).Ok?
    ensures var u := ApplyPings(t, pings, t.devices).value;
            SameElsewhere(t, u) && forall d: nat :: DeviceStep(t, u, PingFor(pings, d), d)
  {
    if pings == [] {
    } else {
      var before, last := pings[..|pings| - 1], pings[|pings| - 1];
      ApplyPingsLocally(t, before);
      var u := ApplyPings(t, before, t.devices).value;
      var k := last.device;
      assert forall i :: 0 <= i < |before| ==> before[i] == pings[i] && pings[i].device != k;
      assert PingFor(before, k).None?;
      assert DeviceStep(t, u, PingFor(before, k), k);
      ApplyPingLocally(u, last, t.devices[k].polling);
      var v := ApplyPing(u, last, t.devices[k].polling).value;
      forall d: nat
        ensures DeviceStep(t, v, PingFor(pings, d), d)
      {
        assert DeviceStep(t, u, PingFor(before, d), d);
      }
    }
  }

  lemma AnswersAreDistinct(devices: seq<Device>, now: int, pings: seq<Ping>)
    requires Answers(devices, now, pings)
    ensures Distinct(pings) && forall i :: 0 <= i < |pings| ==> pings[i].device < |devices|
    ensures forall d: nat :: PingFor(pings, d).Some? <==> d < |devices| && devices[d].polling.nextPollAt <= now
  {
    var due := DueForPoll(devices, now);
    forall d: nat
      ensures PingFor(pings, d).Some? <==> d < |devices| && devices[d].polling.nextPollAt <= now
    {
      if d in due {
        var i :| 0 <= i < |due| && due[i] == d;
        assert pings[i] in pings;
      }
      if PingFor(pings, d).Some? {
        var i :| 0 <= i < |pings| && pings[i] == PingFor(pings, d).value;
        assert due[i] in due;
      }
    }
  }

  /** A committed cycle, whatever the state: it appends its readings if a device was due, changes nothing of a
      device but its polling state, and touches neither trends nor definitions. */
  lemma CycleTouches(t: Tables, now: int, pings: seq<Ping>, readings: seq<MetricHistory>)
    requires Answers(t.devices, now, pings) && Collected(t, now, pings, readings).Ok?
    ensures var u := Collected(t, now, pings, readings).value;
            && u.history == (if pings == [] then t.history else t.history + readings)
            && u.trends == t.trends && u.definitions == t.definitions && |u.devices| == |t.devices|
            && forall d :: 0 <= d < |t.devices| ==> u.devices[d] == t.devices[d].(polling := u.devices[d].polling)
  {
    AnswersAreDistinct(t.devices, now, pings);
    if pings != [] {
      PingsTouch(t, pings, t.devices);
    }
  }

  lemma {:induction false} PingsTouch(t: Tables, pings: seq<Ping>, snapshot: seq<Device>)
    requires |snapshot| == |t.devices| && forall i :: 0 <= i < |pings| ==> pings[i].device < |t.devices|
    requires ApplyPings(t, pings, snapshot).Ok?
    ensures var u := ApplyPings(t, pings, snapshot).value;
            && SameElsewhere(t, u)
            && forall d :: 0 <= d < |t.devices| ==> u.devices[d] == t.devices[d].(polling := u.devices[d].polling)
  {
    if pings == [] {
    } else {
      PingsTouch(t, pings[..|pings| - 1], snapshot);
    }
  }
}
