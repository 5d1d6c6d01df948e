/** The checks of one device, and the timeline of availability events that they determine. */
module Timeline {
  import opened Wrappers
  import opened Models

  /** One committed ping of a device. */
  datatype Check = Check(at: int, online: bool)

  function StatusOf(online: bool): DeviceStatus {
    if online then ONLINE else OFFLINE
  }

  /** The status of the device at an instant: what its last check at or before it found. */
  function StatusAt(checks: seq<Check>, t: int): DeviceStatus {
    if checks == [] then UNKNOWN
    else if checks[|checks| - 1].at <= t then StatusOf(checks[|checks| - 1].online)
    else StatusAt(checks[..|checks| - 1], t)
  }

  /** The number of checks in the first maximal run of equal results. */
  function RunLength(checks: seq<Check>): (n: nat)
    requires checks != []
    ensures IsRunLength(checks, n)
  {
    if |checks| > 1 && checks[1].online == checks[0].online then 1 + RunLength(checks[1..]) else 1
  }

  predicate IsRunLength(checks: seq<Check>, n: nat) {
    && 1 <= n <= |checks|
    && (forall i :: 0 <= i < n ==> checks[i].online == checks[0].online)
    && (n < |checks| ==> checks[n].online != checks[0].online)
  }

  /** One event per maximal run of equal results, from its first check to the first check of the next run. */
  function TimelineOf(device: nat, checks: seq<Check>): seq<AvailabilityEvent> {
    if checks == [] then []
    else
      var n := RunLength(checks);
      var end := if n < |checks| then Some(checks[n].at) else None;
      [AvailabilityEvent(device, StatusOf(checks[0].online), checks[0].at, end)] + TimelineOf(device, checks[n..])
  }

  predicate Ascending(checks: seq<Check>) {
    forall i, j :: 0 <= i < j < |checks| ==> checks[i].at < checks[j].at
  }

  // ---- Event rows ---------------------------------------------------------------------------

  predicate IsOpen(e: AvailabilityEvent, device: nat) {
    e.device == device && e.endedAt.None?
  }

  function EventsOf(events: seq<AvailabilityEvent>, device: nat): seq<AvailabilityEvent> {
    if events == [] then []
    else if events[0].device == device then [events[0]] + EventsOf(events[1..], device)
    else EventsOf(events[1..], device)
  }

  function CountOpen(events: seq<AvailabilityEvent>, device: nat): nat {
    if events == [] then 0
    else (if IsOpen(events[0], device) then 1 else 0) + CountOpen(events[1..], device)
  }

  function CloseRow(e: AvailabilityEvent, device: nat, at: int): AvailabilityEvent {
    if IsOpen(e, device) then e.(endedAt := Some(at)) else e
  }

  function CloseRows(events: seq<AvailabilityEvent>, device: nat, at: int): (closed: seq<AvailabilityEvent>)
    ensures |closed| == |events|
    ensures forall i :: 0 <= i < |events| ==> closed[i] == CloseRow(events[i], device, at)
  {
    seq(|events|, i requires 0 <= i < |events| => CloseRow(events[i], device, at))
  }

  lemma {:induction false} EventsOfAppend(events: seq<AvailabilityEvent>, e: AvailabilityEvent, device: nat)
    ensures EventsOf(events + [e], device) == EventsOf(events, device) + if e.device == device then [e] else []
  {
    if events == [] {
      assert events + [e] == [e];
      assert EventsOf([e][1..], device) == [];
    } else {
      EventsOfAppend(events[1..], e, device);
      assert (events + [e])[1..] == events[1..] + [e];
    }
  }

  lemma {:induction false} SomeOpenRow(events: seq<AvailabilityEvent>, device: nat)
    ensures CountOpen(events, device) > 0 <==> exists i :: 0 <= i < |events| && IsOpen(events[i], device)
  {
    if events == [] {
    } else {
      SomeOpenRow(events[1..], device);
      assert forall i :: 0 < i < |events| ==> events[i] == events[1..][i - 1];
    }
  }

  /** The count passes one exactly if two rows of the device are open. */
  lemma {:induction false} TwoOpenRows(events: seq<AvailabilityEvent>, device: nat)
    ensures CountOpen(events, device) > 1 <==>
            exists i, j :: 0 <= i < j < |events| && IsOpen(events[i], device) && IsOpen(events[j], device)
  {
    if events == [] {
    } else {
      TwoOpenRows(events[1..], device);
      SomeOpenRow(events[1..], device);
      assert forall i :: 0 < i < |events| ==> events[i] == events[1..][i - 1];
    }
  }

  // ---- Well-formed timelines ----------------------------------------------------------------

  /** A timeline: events of one device that alternate between ONLINE and OFFLINE, each ending where the
      next one starts, the last one open; every event lasts at least `gap`. */
  predicate WellFormed(events: seq<AvailabilityEvent>, device: nat) {
    && (forall i :: 0 <= i < |events| ==> events[i].device == device && events[i].status != UNKNOWN)
    && (forall i {:trigger events[i].endedAt} :: 0 <= i < |events| - 1 ==>
          events[i].endedAt == Some(events[i + 1].startedAt) && events[i].status != events[i + 1].status &&
          events[i].startedAt < events[i + 1].startedAt)
    && (events != [] ==> events[|events| - 1].endedAt.None?)
  }

  lemma {:induction false} TimelineIsWellFormed(device: nat, checks: seq<Check>)
    requires Ascending(checks)
    ensures WellFormed(TimelineOf(device, checks), device)
    ensures checks == [] <==> TimelineOf(device, checks) == []
    ensures checks != [] ==> Frames(TimelineOf(device, checks), checks)
    decreases |checks|
  {
    if checks == [] {
    } else {
      var n := RunLength(checks);
      if n < |checks| {
        TimelineIsWellFormed(device, checks[n..]);
        FirstRunEnds(device, checks, n);
        RunBeforeTimeline(device, checks, n, TimelineOf(device, checks[n..]));
      } else {
        SingleRun(device, checks, n);
        assert checks[|checks| - 1].online == checks[0].online;
      }
    }
  }

  /** A timeline starts with the first check and ends with the status of the last one. */
  predicate Frames(events: seq<AvailabilityEvent>, checks: seq<Check>)
    requires checks != []
  {
    && events != []
    && events[0].startedAt == checks[0].at && events[0].status == StatusOf(checks[0].online)
    && events[|events| - 1].status == StatusOf(checks[|checks| - 1].online)
  }

  lemma RunBeforeTimeline(device: nat, checks: seq<Check>, n: nat, rest: seq<AvailabilityEvent>)
    requires Ascending(checks) && n < |checks| && IsRunLength(checks, n)
    requires WellFormed(rest, device) && Frames(rest, checks[n..])
    ensures WellFormed([FirstEvent(device, checks, n)] + rest, device)
    ensures Frames([FirstEvent(device, checks, n)] + rest, checks)
  {
    assert checks[n..][0] == checks[n] && checks[n..][|checks| - n - 1] == checks[|checks| - 1];
    ConsIsWellFormed(FirstEvent(device, checks, n), rest, device);
  }

  lemma ConsIsWellFormed(head: AvailabilityEvent, rest: seq<AvailabilityEvent>, device: nat)
    requires WellFormed(rest, device) && rest != []
    requires head.device == device && head.status != UNKNOWN && head.status != rest[0].status
    requires head.endedAt == Some(rest[0].startedAt) && head.startedAt < rest[0].startedAt
    ensures WellFormed([head] + rest, device)
  {
    var events := [head] + rest;
    forall i {:trigger events[i].endedAt} | 0 <= i < |events| - 1
      ensures events[i].endedAt == Some(events[i + 1].startedAt) && events[i].status != events[i + 1].status &&
              events[i].startedAt < events[i + 1].startedAt
    {
      if i > 0 {
        assert rest[i - 1].endedAt == Some(rest[i - 1 + 1].startedAt);
      }
    }
  }

  /** Exactly one row of a non-empty timeline is open: its last. */
  lemma {:induction false} OneOpen(events: seq<AvailabilityEvent>, device: nat)
    requires WellFormed(events, device)
    ensures CountOpen(events, device) == if events == [] then 0 else 1
  {
    if |events| > 1 {
      assert events[0].endedAt.Some?;
      assert forall i {:trigger events[1..][i].endedAt} :: 0 <= i < |events| - 2 ==>
          events[1..][i] == events[i + 1] && events[i + 1].endedAt.Some?;
      OneOpen(events[1..], device);
    }
  }

  // ---- One more check -----------------------------------------------------------------------

  lemma RunLengthIs(checks: seq<Check>, n: nat)
    requires checks != [] && IsRunLength(checks, n)
    ensures RunLength(checks) == n
  {
  }

  function Opened(device: nat, x: Check): AvailabilityEvent {
    AvailabilityEvent(device, StatusOf(x.online), x.at, None)
  }

  /** A timeline after one more check, which repeats the last result or does not. */
  function Extended(events: seq<AvailabilityEvent>, repeats: bool, device: nat, x: Check): seq<AvailabilityEvent> {
    if repeats then events else CloseRows(events, device, x.at) + [Opened(device, x)]
  }

  predicate Repeats(checks: seq<Check>, x: Check) {
    checks != [] && checks[|checks| - 1].online == x.online
  }

  /** What a further check does to a timeline: nothing if it repeats the last result; otherwise it
      closes the open event and opens the next one. */
  lemma {:induction false} TimelineSnoc(device: nat, checks: seq<Check>, x: Check)
    ensures TimelineOf(device, checks + [x]) == Extended(TimelineOf(device, checks), Repeats(checks, x), device, x)
  {
    if checks == [] {
      assert checks + [x] == [x];
      SingleRun(device, [x], 1);
    } else {
      var n := RunLength(checks);
      if n < |checks| {
        TimelineSnoc(device, checks[n..], x);
        SnocAfterRun(device, checks, x, n);
      } else {
        SnocToRun(device, checks, x);
      }
    }
  }

  lemma SingleRun(device: nat, checks: seq<Check>, n: nat)
    requires checks != [] && n == |checks| && IsRunLength(checks, n)
    ensures TimelineOf(device, checks) == [Opened(device, checks[0])]
  {
    RunLengthIs(checks, n);
    assert checks[n..] == [];
  }

  lemma SnocToRun(device: nat, checks: seq<Check>, x: Check)
    requires checks != [] && RunLength(checks) == |checks|
    ensures TimelineOf(device, checks + [x]) == Extended(TimelineOf(device, checks), Repeats(checks, x), device, x)
  {
    var longer, n := checks + [x], |checks|;
    SingleRun(device, checks, n);
    if checks[n - 1].online == x.online {
      SingleRun(device, longer, n + 1);
    } else {
      RunLengthIs(longer, n);
      assert longer[n..] == [x];
      SingleRun(device, [x], 1);
    }
  }

  /** The event of a first run that has ended. */
  function FirstEvent(device: nat, checks: seq<Check>, n: nat): AvailabilityEvent
    requires n < |checks|
  {
    AvailabilityEvent(device, StatusOf(checks[0].online), checks[0].at, Some(checks[n].at))
  }

  lemma FirstRunEnds(device: nat, checks: seq<Check>, n: nat)
    requires n < |checks| && IsRunLength(checks, n)
    ensures TimelineOf(device, checks) == [FirstEvent(device, checks, n)] + TimelineOf(device, checks[n..])
  {
    RunLengthIs(checks, n);
  }

  lemma SnocAfterRun(device: nat, checks: seq<Check>, x: Check, n: nat)
    requires n < |checks| && IsRunLength(checks, n)
    requires TimelineOf(device, checks[n..] + [x]) ==
             Extended(TimelineOf(device, checks[n..]), Repeats(checks[n..], x), device, x)
    ensures TimelineOf(device, checks + [x]) == Extended(TimelineOf(device, checks), Repeats(checks, x), device, x)
  {
    var longer, rest := checks + [x], checks[n..];
    assert longer[n..] == rest + [x];
    assert FirstEvent(device, longer, n) == FirstEvent(device, checks, n);
    FirstRunEnds(device, longer, n);
    FirstRunEnds(device, checks, n);
    assert Repeats(checks, x) == Repeats(rest, x) by {
      assert rest[|rest| - 1] == checks[|checks| - 1];
    }
    ExtendedBehind(FirstEvent(device, checks, n), TimelineOf(device, rest), Repeats(rest, x), device, x);
  }

  lemma ExtendedBehind(head: AvailabilityEvent, rest: seq<AvailabilityEvent>, repeats: bool, device: nat, x: Check)
    requires head.endedAt.Some?
    ensures Extended([head] + rest, repeats, device, x) == [head] + Extended(rest, repeats, device, x)
  {
    assert CloseRows([head] + rest, device, x.at) == [head] + CloseRows(rest, device, x.at);
  }

  // ---- What a timeline says at an instant ---------------------------------------------------

  /** The event is in force at the instant. */
  predicate Covers(e: AvailabilityEvent, t: int) {
    e.startedAt <= t && (e.endedAt.Some? ==> t < e.endedAt.value)
  }

  /** How many events of a status are in force at an instant. */
  function Covering(events: seq<AvailabilityEvent>, status: DeviceStatus, t: int): nat {
    if events == [] then 0
    else (if events[0].status == status && Covers(events[0], t) then 1 else 0) + Covering(events[1..], status, t)
  }

  /** A suffix of the checks decides every instant from its first check on. */
  lemma {:induction false} StatusAtSuffix(checks: seq<Check>, n: nat, t: int)
    requires n < |checks| && checks[n].at <= t
    ensures StatusAt(checks, t) == StatusAt(checks[n..], t)
  {
    var last := |checks| - 1;
    assert checks[n..][last - n] == checks[last];
    if checks[last].at > t {
      StatusAtSuffix(checks[..last], n, t);
      assert checks[..last][n..] == checks[n..][..last - n];
    }
  }

  /** Between the first check and the end of its run the status is that of the run. */
  lemma {:induction false} StatusAtRun(checks: seq<Check>, n: nat, t: int)
    requires Ascending(checks) && checks != [] && IsRunLength(checks, n) && checks[0].at <= t
    requires n < |checks| ==> t < checks[n].at
    ensures StatusAt(checks, t) == StatusOf(checks[0].online)
    decreases |checks|
  {
    var last := |checks| - 1;
    if checks[last].at > t {
      var before := checks[..last];
      StatusAtRun(before, if n < |checks| then n else n - 1, t);
    }
  }

  lemma {:induction false} StatusBeforeFirst(checks: seq<Check>, t: int)
    requires Ascending(checks) && (checks != [] ==> t < checks[0].at)
    ensures StatusAt(checks, t) == UNKNOWN
  {
    if checks == [] {
    } else {
      assert |checks| > 1 ==> checks[0].at < checks[|checks| - 1].at;
      StatusBeforeFirst(checks[..|checks| - 1], t);
    }
  }

  /** The timeline tells, at every instant, exactly what the last check found: one event in force, of
      that status, or none before the first check. */
  lemma {:induction false} TimelineMeansChecks(device: nat, checks: seq<Check>, status: DeviceStatus, t: int)
    requires Ascending(checks) && status != UNKNOWN
    ensures Covering(TimelineOf(device, checks), status, t) == if StatusAt(checks, t) == status then 1 else 0
    decreases |checks|
  {
    if checks == [] {
    } else {
      var n := RunLength(checks);
      TimelineMeansChecks(device, checks[n..], status, t);
      StatusAcrossRun(checks, n, t);
      CoveringBehind(device, checks, n, status, t);
    }
  }

  lemma CoveringBehind(device: nat, checks: seq<Check>, n: nat, status: DeviceStatus, t: int)
    requires checks != [] && n == RunLength(checks)
    ensures Covering(TimelineOf(device, checks), status, t) ==
            Covering(TimelineOf(device, checks[n..]), status, t) +
            if status == StatusOf(checks[0].online) && checks[0].at <= t && (n < |checks| ==> t < checks[n].at)
            then 1 else 0
  {
    assert TimelineOf(device, checks)[1..] == TimelineOf(device, checks[n..]);
  }

  /** The first run decides the instants it spans, and the rest of the checks decides the others. */
  lemma StatusAcrossRun(checks: seq<Check>, n: nat, t: int)
    requires Ascending(checks) && checks != [] && IsRunLength(checks, n)
    ensures if checks[0].at <= t && (n < |checks| ==> t < checks[n].at)
            then StatusAt(checks, t) == StatusOf(checks[0].online) && StatusAt(checks[n..], t) == UNKNOWN
            else StatusAt(checks, t) == StatusAt(checks[n..], t)
  {
    var rest := checks[n..];
    assert n < |checks| ==> rest[0] == checks[n];
    if t < checks[0].at {
      StatusBeforeFirst(checks, t);
      StatusBeforeFirst(rest, t);
    } else if n < |checks| && checks[n].at <= t {
      StatusAtSuffix(checks, n, t);
    } else {
      StatusAtRun(checks, n, t);
      StatusBeforeFirst(rest, t);
    }
  }
}
