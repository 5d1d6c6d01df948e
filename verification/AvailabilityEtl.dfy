/** Availability, downtime and mean time to repair, computed from availability events clipped to a window. */
module AvailabilityEtl {
  import opened Wrappers
  import opened Clock
  import opened Models
  import opened Timeline
  import opened Selection
  import Aggregation

  datatype AvailabilitySummary = AvailabilitySummary(
    device: nat,
    rangeHours: int,
    availabilityPct: Option<real>,   // None: not a number, for a window of length zero
    downtimeSeconds: int,
    mttrSeconds: Option<real>)

  datatype DashboardSummary = DashboardSummary(
    total: nat,
    online: nat,
    offline: nat,
    unknown: nat,
    snmpSupported: nat,
    avgAvailabilityPct: Option<real>,
    openProblems: nat)

  // ---- Queries ------------------------------------------------------------------------------

  predicate Overlaps(e: AvailabilityEvent, since: int) {
    e.endedAt.Some? ==> since <= e.endedAt.value
  }

  function Overlapping(events: seq<AvailabilityEvent>, since: int): seq<AvailabilityEvent> {
    if events == [] then []
    else if Overlaps(events[0], since) then [events[0]] + Overlapping(events[1..], since)
    else Overlapping(events[1..], since)
  }

  function InsertByStart(e: AvailabilityEvent, sorted: seq<AvailabilityEvent>): seq<AvailabilityEvent> {
    if sorted == [] || e.startedAt <= sorted[0].startedAt then [e] + sorted
    else [sorted[0]] + InsertByStart(e, sorted[1..])
  }

  /** ORDER BY started_at ascending; rows that start together keep their order. */
  function ByStart(events: seq<AvailabilityEvent>): seq<AvailabilityEvent> {
    if events == [] then [] else InsertByStart(events[0], ByStart(events[1..]))
  }

  function ListSince(events: seq<AvailabilityEvent>, since: int): seq<AvailabilityEvent> {
    ByStart(Overlapping(events, since))
  }

  function ListByDeviceSince(events: seq<AvailabilityEvent>, device: nat, since: int): seq<AvailabilityEvent> {
    ListSince(EventsOf(events, device), since)
  }

  // ---- Clipping -----------------------------------------------------------------------------

  /** The length of an event inside the window, never negative; an open event ends with the window. */
  function Duration(e: AvailabilityEvent, from: int, until: int): nat {
    var end := if e.endedAt.Some? then e.endedAt.value else until;
    Max(0, Min(end, until) - Max(e.startedAt, from))
  }

  function SumDurations(events: seq<AvailabilityEvent>, status: DeviceStatus, from: int, until: int): nat {
    if events == [] then 0
    else (if events[0].status == status then Duration(events[0], from, until) else 0) +
         SumDurations(events[1..], status, from, until)
  }

  /** The clipped lengths of the outages that have ended. */
  function RepairDurations(events: seq<AvailabilityEvent>, from: int, until: int): seq<real> {
    if events == [] then []
    else
      var rest := RepairDurations(events[1..], from, until);
      if events[0].status == OFFLINE && events[0].endedAt.Some?
      then [Duration(events[0], from, until) as real] + rest else rest
  }

  function MeanTimeToRepair(repairs: seq<real>): Option<real> {
    if repairs == [] then None else Some(Aggregation.Mean(repairs) / SECOND as real)
  }

  function MinReal(a: real, b: real): real { if a <= b then a else b }

  function Percent(part: int, window: int): Option<real> {
    if window == 0 then None else Some(MinReal(part as real / window as real * 100.0, 100.0))
  }

  function Summary(events: seq<AvailabilityEvent>, device: nat, rangeHours: int, now: int): AvailabilitySummary {
    var from := now - rangeHours * HOUR;
    var rows := ListByDeviceSince(events, device, from);
    if rows == [] then AvailabilitySummary(device, rangeHours, Some(0.0), 0, None)
    else
      var repairs := RepairDurations(rows, from, now);
      AvailabilitySummary(
        device, rangeHours,
        Percent(SumDurations(rows, ONLINE, from, now), now - from),
        SumDurations(rows, OFFLINE, from, now) / SECOND,
        MeanTimeToRepair(repairs))
  }

  // ---- The dashboard ------------------------------------------------------------------------

  function CountStatus(devices: seq<Device>, status: DeviceStatus): nat {
    if devices == [] then 0
    else CountStatus(devices[..|devices| - 1], status) +
         if devices[|devices| - 1].polling.status == status then 1 else 0
  }

  function CountSnmp(devices: seq<Device>): nat {
    if devices == [] then 0
    else CountSnmp(devices[..|devices| - 1]) + if devices[|devices| - 1].snmp.supported then 1 else 0
  }

  /** Open outages. */
  function CountProblems(events: seq<AvailabilityEvent>): nat {
    if events == [] then 0
    else (if events[0].endedAt.None? && events[0].status == OFFLINE then 1 else 0) + CountProblems(events[1..])
  }

  /** The devices of an event list, each once. */
  function UniqueDevices(events: seq<AvailabilityEvent>): (ids: seq<nat>)
    ensures forall d :: d in ids <==> exists e :: e in events && e.device == d
    ensures forall i, j :: 0 <= i < j < |ids| ==> ids[i] != ids[j]
    ensures ids == [] <==> events == []
  {
    if events == [] then []
    else
      var before, e := events[..|events| - 1], events[|events| - 1];
      assert events == before + [e];
      if e.device in UniqueDevices(before) then UniqueDevices(before) else UniqueDevices(before) + [e.device]
  }

  /** The online time of one device, selected from the rows of all of them. */
  function OnlineOf(events: seq<AvailabilityEvent>, device: nat, from: int, until: int): nat {
    if events == [] then 0
    else (if events[0].device == device && events[0].status == ONLINE then Duration(events[0], from, until) else 0) +
         OnlineOf(events[1..], device, from, until)
  }

  function Percentages(events: seq<AvailabilityEvent>, ids: seq<nat>, from: int, until: int): seq<real>
    requires from != until
  {
    seq(|ids|, i requires 0 <= i < |ids| => Percent(OnlineOf(events, ids[i], from, until), until - from).value)
  }

  function Dashboard(devices: seq<Device>, events: seq<AvailabilityEvent>, rangeHours: int, now: int)
    : DashboardSummary
  {
    var from := now - rangeHours * HOUR;
    var rows := ListSince(events, from);
    var ids := UniqueDevices(rows);
    DashboardSummary(
      |devices|, CountStatus(devices, ONLINE), CountStatus(devices, OFFLINE), CountStatus(devices, UNKNOWN),
      CountSnmp(devices),
      if rows == [] then Some(0.0)
      else if from == now then None
      else Some(Aggregation.Mean(Percentages(rows, ids, from, now))),
      CountProblems(rows))
  }

  // ---- The order of rows --------------------------------------------------------------------

  predicate StartsAscend(events: seq<AvailabilityEvent>) {
    forall i, j :: 0 <= i < j < |events| ==> events[i].startedAt <= events[j].startedAt
  }

  lemma {:induction false} InsertSorts(e: AvailabilityEvent, sorted: seq<AvailabilityEvent>)
    requires StartsAscend(sorted)
    ensures StartsAscend(InsertByStart(e, sorted))
    ensures multiset(InsertByStart(e, sorted)) == multiset(sorted) + multiset{e}
  {
    if sorted != [] && sorted[0].startedAt < e.startedAt {
      var rest := InsertByStart(e, sorted[1..]);
      InsertSorts(e, sorted[1..]);
      assert sorted == [sorted[0]] + sorted[1..];
      FirstStaysFirst(e, sorted, rest);
    }
  }

  lemma FirstStaysFirst(e: AvailabilityEvent, sorted: seq<AvailabilityEvent>, rest: seq<AvailabilityEvent>)
    requires sorted != [] && StartsAscend(sorted) && sorted[0].startedAt < e.startedAt
    requires StartsAscend(rest) && multiset(rest) == multiset(sorted[1..]) + multiset{e}
    ensures StartsAscend([sorted[0]] + rest)
  {
    forall i | 0 <= i < |rest|
      ensures sorted[0].startedAt <= rest[i].startedAt
    {
      assert rest[i] in multiset(rest);
      assert rest[i] == e || rest[i] in sorted[1..];
    }
  }

  /** The sorted rows are the same rows, each as often. */
  lemma {:induction false} ByStartSorts(events: seq<AvailabilityEvent>)
    ensures StartsAscend(ByStart(events)) && multiset(ByStart(events)) == multiset(events)
    ensures forall e :: e in ByStart(events) <==> e in events
  {
    if events == [] {
    } else {
      ByStartSorts(events[1..]);
      InsertSorts(events[0], ByStart(events[1..]));
      assert events == [events[0]] + events[1..];
    }
    SameMembers(ByStart(events), events);
  }

  lemma SameMembers(a: seq<AvailabilityEvent>, b: seq<AvailabilityEvent>)
    requires multiset(a) == multiset(b)
    ensures forall e :: e in a <==> e in b
  {
    assert forall e :: e in a <==> e in multiset(a);
    assert forall e :: e in b <==> e in multiset(b);
  }

  lemma {:induction false} InsertKeepsTotals(e: AvailabilityEvent, sorted: seq<AvailabilityEvent>, status: DeviceStatus,
                                             device: nat, from: int, until: int)
    ensures SumDurations(InsertByStart(e, sorted), status, from, until) ==
            SumDurations([e], status, from, until) + SumDurations(sorted, status, from, until)
    ensures OnlineOf(InsertByStart(e, sorted), device, from, until) ==
            OnlineOf([e], device, from, until) + OnlineOf(sorted, device, from, until)
    ensures CountProblems(InsertByStart(e, sorted)) == CountProblems([e]) + CountProblems(sorted)
  {
    assert ([e] + sorted)[1..] == sorted && [e][1..] == [];
    if sorted != [] && sorted[0].startedAt < e.startedAt {
      InsertKeepsTotals(e, sorted[1..], status, device, from, until);
      assert InsertByStart(e, sorted)[1..] == InsertByStart(e, sorted[1..]);
    }
  }

  /** No total depends on the order of the rows. */
  lemma {:induction false} ByStartKeepsTotals(events: seq<AvailabilityEvent>, status: DeviceStatus, device: nat,
                                              from: int, until: int)
    ensures SumDurations(ByStart(events), status, from, until) == SumDurations(events, status, from, until)
    ensures OnlineOf(ByStart(events), device, from, until) == OnlineOf(events, device, from, until)
    ensures CountProblems(ByStart(events)) == CountProblems(events)
  {
    if events == [] {
    } else {
      ByStartKeepsTotals(events[1..], status, device, from, until);
      InsertKeepsTotals(events[0], ByStart(events[1..]), status, device, from, until);
      assert [events[0]][1..] == [];
    }
  }

  // ---- Rows outside the window --------------------------------------------------------------

  /** Leaving out the events that ended before the window changes no total: each of them clips to zero. */
  lemma DroppedEventsClipToZero(events: seq<AvailabilityEvent>, status: DeviceStatus, from: int, until: int)
    ensures SumDurations(ListSince(events, from), status, from, until) == SumDurations(events, status, from, until)
  {
    OutsidersClipToZero(events, status, from, until);
    ByStartKeepsTotals(Overlapping(events, from), status, 0, from, until);
  }

  lemma {:induction false} OutsidersClipToZero(events: seq<AvailabilityEvent>, status: DeviceStatus, from: int,
                                               until: int)
    ensures SumDurations(Overlapping(events, from), status, from, until) == SumDurations(events, status, from, until)
  {
    if events == [] {
    } else {
      OutsidersClipToZero(events[1..], status, from, until);
    }
  }

  /** Selecting a device and selecting the window commute. */
  lemma DeviceThenWindow(events: seq<AvailabilityEvent>, device: nat, from: int, until: int)
    ensures OnlineOf(ListSince(events, from), device, from, until) ==
            SumDurations(ListByDeviceSince(events, device, from), ONLINE, from, until)
    ensures ListByDeviceSince(events, device, from) != [] <==>
            exists e :: e in ListSince(events, from) && e.device == device
  {
    OnlineOfDevice(Overlapping(events, from), device, from, until);
    WindowOfDevice(events, device, from);
    ByStartKeepsTotals(Overlapping(events, from), ONLINE, device, from, until);
    ByStartKeepsTotals(Overlapping(EventsOf(events, device), from), ONLINE, device, from, until);
    ListSinceMembers(events, from);
    ListSinceMembers(EventsOf(events, device), from);
    EventsOfMembers(events, device);
    var mine := ListByDeviceSince(events, device, from);
    if mine != [] {
      assert mine[0] in mine;
    }
  }

  lemma {:induction false} OnlineOfDevice(events: seq<AvailabilityEvent>, device: nat, from: int, until: int)
    ensures OnlineOf(events, device, from, until) == SumDurations(EventsOf(events, device), ONLINE, from, until)
  {
    if events == [] {
    } else {
      OnlineOfDevice(events[1..], device, from, until);
    }
  }

  lemma {:induction false} WindowOfDevice(events: seq<AvailabilityEvent>, device: nat, from: int)
    ensures EventsOf(Overlapping(events, from), device) == Overlapping(EventsOf(events, device), from)
  {
    if events == [] {
    } else {
      WindowOfDevice(events[1..], device, from);
    }
  }

  lemma {:induction false} EventsOfMembers(events: seq<AvailabilityEvent>, device: nat)
    ensures forall e :: e in EventsOf(events, device) <==> e in events && e.device == device
  {
    if events == [] {
    } else {
      EventsOfMembers(events[1..], device);
      assert forall e :: e in events <==> e == events[0] || e in events[1..];
    }
  }

  lemma ListSinceMembers(events: seq<AvailabilityEvent>, since: int)
    ensures forall e :: e in ListSince(events, since) <==> e in events && Overlaps(e, since)
  {
    OverlappingMembers(events, since);
    ByStartSorts(Overlapping(events, since));
  }

  lemma {:induction false} OverlappingMembers(events: seq<AvailabilityEvent>, since: int)
    ensures forall e :: e in Overlapping(events, since) <==> e in events && Overlaps(e, since)
  {
    if events == [] {
    } else {
      OverlappingMembers(events[1..], since);
      assert forall e :: e in events <==> e == events[0] || e in events[1..];
    }
  }

  lemma {:induction false} SelectedAsOften(events: seq<AvailabilityEvent>, device: nat, since: int,
                                           e: AvailabilityEvent)
    requires e.device == device && Overlaps(e, since)
    ensures multiset(Overlapping(EventsOf(events, device), since))[e] == multiset(events)[e]
  {
    if events == [] {
    } else {
      SelectedAsOften(events[1..], device, since, e);
      var mine, rest := EventsOf(events, device), EventsOf(events[1..], device);
      assert events == [events[0]] + events[1..];
      assert events[0].device == device ==> mine == [events[0]] + rest && mine[1..] == rest;
      assert multiset([events[0]] + Overlapping(rest, since)) ==
             multiset{events[0]} + multiset(Overlapping(rest, since));
    }
  }

  /** The rows of a device since an instant: each as often as in the table, ordered by their start. */
  lemma RowsOfDevice(events: seq<AvailabilityEvent>, device: nat, since: int)
    ensures StartsAscend(ListByDeviceSince(events, device, since))
    ensures forall e :: e in ListByDeviceSince(events, device, since) ==>
              multiset(ListByDeviceSince(events, device, since))[e] == multiset(events)[e]
  {
    var rows := Overlapping(EventsOf(events, device), since);
    ByStartSorts(rows);
    EventsOfMembers(events, device);
    OverlappingMembers(EventsOf(events, device), since);
    forall e | e in rows
      ensures multiset(rows)[e] == multiset(events)[e]
    {
      SelectedAsOften(events, device, since, e);
    }
  }

  lemma OpenEventsAlwaysOverlap(events: seq<AvailabilityEvent>, since: int)
    ensures CountProblems(ListSince(events, since)) == CountProblems(events)
  {
    OpenEventsOverlap(events, since);
    ByStartKeepsTotals(Overlapping(events, since), OFFLINE, 0, since, since);
  }

  lemma {:induction false} OpenEventsOverlap(events: seq<AvailabilityEvent>, since: int)
    ensures CountProblems(Overlapping(events, since)) == CountProblems(events)
  {
    if events == [] {
    } else {
      OpenEventsOverlap(events[1..], since);
    }
  }

  // ---- Interval arithmetic against the pointwise definition ---------------------------------

  /** The instants of a window at which the last check had found the given status. */
  ghost function InstantsWith(checks: seq<Check>, status: DeviceStatus, from: int, until: int): set<int> {
    set t | from <= t < until && StatusAt(checks, t) == status
  }

  /** Extending a window by one instant adds the number of events in force at it. */
  lemma {:induction false} OneMoreInstant(events: seq<AvailabilityEvent>, status: DeviceStatus, from: int, until: int)
    requires from <= until
    ensures SumDurations(events, status, from, until + 1) ==
            SumDurations(events, status, from, until) + Covering(events, status, until)
  {
    if events == [] {
    } else {
      OneMoreInstant(events[1..], status, from, until);
    }
  }

  lemma {:induction false} EmptyWindow(events: seq<AvailabilityEvent>, status: DeviceStatus, from: int, until: int)
    requires until <= from
    ensures SumDurations(events, status, from, until) == 0
  {
    if events == [] {
    } else {
      EmptyWindow(events[1..], status, from, until);
    }
  }

  /** The clipped total of a status is the number of instants of the window at which the last check had
      found the device in that status. */
  lemma {:induction false} DurationsCountInstants(device: nat, checks: seq<Check>, status: DeviceStatus, from: int,
                                                  until: int)
    requires Ascending(checks) && status != UNKNOWN
    ensures SumDurations(TimelineOf(device, checks), status, from, until) == |InstantsWith(checks, status, from, until)|
    decreases until - from
  {
    if until <= from {
      EmptyWindow(TimelineOf(device, checks), status, from, until);
      assert InstantsWith(checks, status, from, until) == {};
    } else {
      var t := until - 1;
      DurationsCountInstants(device, checks, status, from, t);
      OneMoreInstant(TimelineOf(device, checks), status, from, t);
      TimelineMeansChecks(device, checks, status, t);
      CountOneMore(checks, status, from, t);
    }
  }

  lemma CountOneMore(checks: seq<Check>, status: DeviceStatus, from: int, t: int)
    requires from <= t
    ensures |InstantsWith(checks, status, from, t + 1)| ==
            |InstantsWith(checks, status, from, t)| + if StatusAt(checks, t) == status then 1 else 0
  {
    var shorter := InstantsWith(checks, status, from, t);
    assert t !in shorter;
    assert InstantsWith(checks, status, from, t + 1) ==
           if StatusAt(checks, t) == status then shorter + {t} else shorter;
  }

  /** Online and offline time fill the window from the first check on. */
  lemma {:induction false} KnownTimeIsFilled(device: nat, checks: seq<Check>, from: int, until: int)
    requires Ascending(checks) && checks != []
    ensures SumDurations(TimelineOf(device, checks), ONLINE, from, until) +
            SumDurations(TimelineOf(device, checks), OFFLINE, from, until) ==
            Max(0, until - Max(from, checks[0].at))
    decreases until - from
  {
    var events := TimelineOf(device, checks);
    if until <= from {
      EmptyWindow(events, ONLINE, from, until);
      EmptyWindow(events, OFFLINE, from, until);
    } else {
      var t := until - 1;
      KnownTimeIsFilled(device, checks, from, t);
      OneMoreInstant(events, ONLINE, from, t);
      OneMoreInstant(events, OFFLINE, from, t);
      TimelineMeansChecks(device, checks, ONLINE, t);
      TimelineMeansChecks(device, checks, OFFLINE, t);
      KnownSinceFirst(checks, t);
    }
  }

  lemma {:induction false} KnownSinceFirst(checks: seq<Check>, t: int)
    requires Ascending(checks) && checks != []
    ensures StatusAt(checks, t) == UNKNOWN <==> t < checks[0].at
  {
    if |checks| > 1 {
      KnownSinceFirst(checks[..|checks| - 1], t);
    } else {
      assert checks[..0] == [];
    }
  }

  // ---- Mean time to repair ------------------------------------------------------------------

  /** The clipped length of the outages that are still open. */
  function OpenOutage(events: seq<AvailabilityEvent>, from: int, until: int): nat {
    if events == [] then 0
    else (if events[0].status == OFFLINE && events[0].endedAt.None? then Duration(events[0], from, until) else 0) +
         OpenOutage(events[1..], from, until)
  }

  lemma {:induction false} OfflineSplits(events: seq<AvailabilityEvent>, from: int, until: int)
    ensures SumDurations(events, OFFLINE, from, until) as real ==
            Aggregation.Sum(RepairDurations(events, from, until)) + OpenOutage(events, from, until) as real
    ensures forall x :: x in RepairDurations(events, from, until) ==> 0.0 <= x <= Max(0, until - from) as real
  {
    if events == [] {
    } else {
      OfflineSplits(events[1..], from, until);
      var rest := RepairDurations(events[1..], from, until);
      if events[0].status == OFFLINE && events[0].endedAt.Some? {
        var all := RepairDurations(events, from, until);
        assert all[1..] == rest;
        assert forall x :: x in all <==> x == all[0] || x in rest;
      }
    }
  }

  /** The mean time to repair, times the number of ended outages, plus the open outage, is the offline
      total of the window; it is defined exactly when an outage of the list has ended, and never
      exceeds the window. */
  lemma RepairTimeIsConserved(events: seq<AvailabilityEvent>, device: nat, rangeHours: int, now: int)
    ensures var from := now - rangeHours * HOUR;
            var rows := ListByDeviceSince(events, device, from);
            RepairsConserved(Summary(events, device, rangeHours, now).mttrSeconds, RepairDurations(rows, from, now),
                             OpenOutage(rows, from, now), SumDurations(EventsOf(events, device), OFFLINE, from, now),
                             Max(0, now - from))
  {
    var from := now - rangeHours * HOUR;
    var rows := ListByDeviceSince(events, device, from);
    DroppedEventsClipToZero(EventsOf(events, device), OFFLINE, from, now);
    RowsConserved(rows, from, now);
  }

  /** `open` and `total` in microseconds. */
  predicate RepairsConserved(mttr: Option<real>, repairs: seq<real>, open: nat, total: nat, window: nat) {
    && (mttr.Some? <==> repairs != [])
    && (mttr.Some? ==> mttr.value * SECOND as real * |repairs| as real + open as real == total as real)
    && (mttr.None? ==> open == total)
    && (mttr.Some? ==> 0.0 <= mttr.value * SECOND as real <= window as real)
  }

  lemma RowsConserved(rows: seq<AvailabilityEvent>, from: int, until: int)
    ensures var repairs := RepairDurations(rows, from, until);
            RepairsConserved(MeanTimeToRepair(repairs), repairs, OpenOutage(rows, from, until),
                             SumDurations(rows, OFFLINE, from, until), Max(0, until - from))
  {
    OfflineSplits(rows, from, until);
    MeanConserves(RepairDurations(rows, from, until), OpenOutage(rows, from, until),
                  SumDurations(rows, OFFLINE, from, until), Max(0, until - from));
  }

  lemma MeanConserves(repairs: seq<real>, open: nat, total: nat, window: nat)
    requires total as real == Aggregation.Sum(repairs) + open as real
    requires forall x :: x in repairs ==> 0.0 <= x <= window as real
    ensures RepairsConserved(MeanTimeToRepair(repairs), repairs, open, total, window)
  {
    if repairs != [] {
      var mttr := RepairMicros(repairs, window as real);
    }
  }

  lemma RepairMicros(repairs: seq<real>, window: real) returns (mttr: real)
    requires repairs != [] && forall x :: x in repairs ==> 0.0 <= x <= window
    ensures MeanTimeToRepair(repairs) == Some(mttr)
    ensures mttr * SECOND as real * |repairs| as real == Aggregation.Sum(repairs)
    ensures 0.0 <= mttr * SECOND as real <= window
  {
    mttr := Aggregation.Mean(repairs) / SECOND as real;
    Aggregation.MeanBounds(repairs, 0.0, window);
    MicrosAndBack(Aggregation.Mean(repairs));
  }

  lemma MicrosAndBack(x: real)
    ensures x / SECOND as real * SECOND as real == x
  {
  }

  // ---- The dashboard against the summaries --------------------------------------------------

  /** The dashboard average is the mean of the percentages that the summaries of the same instant give,
      over exactly the devices with an event in the window; an offline-only device counts as zero. */
  lemma DashboardAveragesSummaries(devices: seq<Device>, events: seq<AvailabilityEvent>, rangeHours: int, now: int)
    requires rangeHours != 0
    ensures var from := now - rangeHours * HOUR;
            var ids := UniqueDevices(ListSince(events, from));
            var avg := Dashboard(devices, events, rangeHours, now).avgAvailabilityPct;
            && (forall d: nat :: d in ids <==> ListByDeviceSince(events, d, from) != [])
            && (forall d: nat :: Summary(events, d, rangeHours, now).availabilityPct.Some?)
            && avg == Some(if ids == [] then 0.0 else
                           Aggregation.Mean(SummaryPercentages(events, ids, rangeHours, now)))
            && 0.0 <= avg.value <= 100.0
  {
    var from := now - rangeHours * HOUR;
    var rows := ListSince(events, from);
    var ids := UniqueDevices(rows);
    forall d: nat
      ensures d in ids <==> ListByDeviceSince(events, d, from) != []
    {
      DeviceThenWindow(events, d, from, now);
    }
    if ids != [] {
      var pcts := Percentages(rows, ids, from, now);
      forall i | 0 <= i < |ids|
        ensures pcts[i] == SummaryPercentages(events, ids, rangeHours, now)[i] && 0.0 <= pcts[i] <= 100.0
      {
        assert ids[i] in ids;
        DeviceThenWindow(events, ids[i], from, now);
        PercentBounds(events, ids[i], rangeHours, now);
      }
      assert pcts == SummaryPercentages(events, ids, rangeHours, now);
      Aggregation.MeanBounds(pcts, 0.0, 100.0);
    }
  }

  function SummaryPercentages(events: seq<AvailabilityEvent>, ids: seq<nat>, rangeHours: int, now: int): seq<real>
    requires rangeHours != 0
  {
    seq(|ids|, i requires 0 <= i < |ids| => Summary(events, ids[i], rangeHours, now).availabilityPct.value)
  }

  lemma PercentBounds(events: seq<AvailabilityEvent>, device: nat, rangeHours: int, now: int)
    requires rangeHours != 0
    ensures var pct := Summary(events, device, rangeHours, now).availabilityPct;
            pct.Some? && 0.0 <= pct.value <= 100.0
  {
    var from := now - rangeHours * HOUR;
    var rows := ListByDeviceSince(events, device, from);
    if rangeHours < 0 {
      EmptyWindow(rows, ONLINE, from, now);
    }
  }

  // ---- The figures over the rows of the tables ----------------------------------------------

  predicate Within(t: int, a: int, b: int) {
    a <= t < b
  }

  ghost function IntervalOf(a: int, b: int): set<int> {
    set t | a <= t < b && Within(t, a, b)
  }

  lemma {:induction false} IntervalSize(a: int, b: int)
    ensures |IntervalOf(a, b)| == Max(0, b - a)
    decreases b - a
  {
    if b <= a {
      assert IntervalOf(a, b) == {};
    } else {
      IntervalSize(a, b - 1);
      assert IntervalOf(a, b) == IntervalOf(a, b - 1) + {b - 1};
    }
  }

  /** The clipped length of any event is the number of instants of the window at which it is in force: not before
      its start, and before its end if it has one. */
  lemma DurationCountsInstants(e: AvailabilityEvent, from: int, until: int)
    ensures Duration(e, from, until) == |set t | from <= t < until && Covers(e, t)|
    ensures forall t :: Covers(e, t) <==> e.startedAt <= t && (e.endedAt.Some? ==> t < e.endedAt.value)
  {
    var end := if e.endedAt.Some? then e.endedAt.value else until;
    var a, b := Max(e.startedAt, from), Min(end, until);
    IntervalSize(a, b);
    assert IntervalOf(a, b) == set t | from <= t < until && Covers(e, t);
  }

  /** The clipped lengths of the events at some positions of the table. */
  function DurationsAt(events: seq<AvailabilityEvent>, idx: seq<nat>, from: int, until: int): (lengths: seq<real>)
    requires Positions(idx, |events|)
    ensures |lengths| == |idx|
    ensures forall j :: 0 <= j < |idx| ==> lengths[j] == Duration(events[idx[j]], from, until) as real
  {
    seq(|idx|, j requires 0 <= j < |idx| => Duration(events[idx[j]], from, until) as real)
  }

  ghost predicate AreOfStatus(events: seq<AvailabilityEvent>, idx: seq<nat>, device: nat, status: DeviceStatus) {
    Positions(idx, |events|) &&
    forall i: nat :: i in idx <==> i < |events| && events[i].device == device && events[i].status == status
  }

  /** The positions of the outages of a device that ended at or after an instant. */
  ghost predicate AreRepaired(events: seq<AvailabilityEvent>, idx: seq<nat>, device: nat, since: int) {
    Positions(idx, |events|) &&
    forall i: nat :: i in idx <==>
      i < |events| && events[i].device == device && events[i].status == OFFLINE &&
      events[i].endedAt.Some? && since <= events[i].endedAt.value
  }

  lemma DurationsGrow(events: seq<AvailabilityEvent>, e: AvailabilityEvent, before: seq<nat>, kept: bool,
                      from: int, until: int)
    requires Positions(before, |events|)
    ensures Positions(Grown(before, |events|, kept), |events| + 1)
    ensures DurationsAt(events + [e], Grown(before, |events|, kept), from, until) ==
            if kept then DurationsAt(events, before, from, until) + [Duration(e, from, until) as real]
            else DurationsAt(events, before, from, until)
  {
    GrownPositions(before, |events|, kept);
  }

  lemma {:induction false} OverlappingSnoc(events: seq<AvailabilityEvent>, e: AvailabilityEvent, since: int)
    ensures Overlapping(events + [e], since) ==
            if Overlaps(e, since) then Overlapping(events, since) + [e] else Overlapping(events, since)
  {
    if events == [] {
      assert events + [e] == [e] && Overlapping([e][1..], since) == [];
    } else {
      OverlappingSnoc(events[1..], e, since);
      assert (events + [e])[0] == events[0] && (events + [e])[1..] == events[1..] + [e];
    }
  }

  lemma {:induction false} SumDurationsSnoc(events: seq<AvailabilityEvent>, e: AvailabilityEvent,
                                            status: DeviceStatus, from: int, until: int)
    ensures SumDurations(events + [e], status, from, until) ==
            SumDurations(events, status, from, until) + if e.status == status then Duration(e, from, until) else 0
  {
    if events == [] {
      assert events + [e] == [e] && SumDurations([e][1..], status, from, until) == 0;
    } else {
      SumDurationsSnoc(events[1..], e, status, from, until);
      assert (events + [e])[0] == events[0] && (events + [e])[1..] == events[1..] + [e];
    }
  }

  lemma SumSnoc(s: seq<real>, x: real)
    ensures Aggregation.Sum(s + [x]) == Aggregation.Sum(s) + x
  {
    Aggregation.SumAppend(s, [x]);
    assert [x][1..] == [];
  }

  /** A total is the sum of the clipped lengths of the rows of the device with the status, each once. */
  lemma {:induction false} TotalOverRows(events: seq<AvailabilityEvent>, device: nat, status: DeviceStatus,
                                         from: int, until: int)
    returns (idx: seq<nat>)
    ensures AreOfStatus(events, idx, device, status)
    ensures SumDurations(EventsOf(events, device), status, from, until) as real ==
            Aggregation.Sum(DurationsAt(events, idx, from, until))
  {
    if events == [] {
      idx := [];
    } else {
      var n := |events| - 1;
      var e, kept := events[n], events[n].device == device && events[n].status == status;
      var before := TotalOverRows(events[..n], device, status, from, until);
      assert events == events[..n] + [e];
      EventsOfAppend(events[..n], e, device);
      assert e.device != device ==> EventsOf(events, device) == EventsOf(events[..n], device);
      SumDurationsSnoc(EventsOf(events[..n], device), e, status, from, until);
      idx := Grown(before, n, kept);
      GrownPositions(before, n, kept);
      DurationsGrow(events[..n], e, before, kept, from, until);
      SumSnoc(DurationsAt(events[..n], before, from, until), Duration(e, from, until) as real);
    }
  }

  lemma {:induction false} RepairsSnoc(events: seq<AvailabilityEvent>, e: AvailabilityEvent, from: int, until: int)
    ensures RepairDurations(events + [e], from, until) ==
            if e.status == OFFLINE && e.endedAt.Some?
            then RepairDurations(events, from, until) + [Duration(e, from, until) as real]
            else RepairDurations(events, from, until)
  {
    if events == [] {
      assert events + [e] == [e] && RepairDurations([e][1..], from, until) == [];
    } else {
      RepairsSnoc(events[1..], e, from, until);
      assert (events + [e])[0] == events[0] && (events + [e])[1..] == events[1..] + [e];
    }
  }

  /** Before sorting, the lengths behind the mean time to repair are those of the ended outages, each once. */
  lemma {:induction false} RepairsOverRows(events: seq<AvailabilityEvent>, device: nat, from: int, until: int)
    returns (idx: seq<nat>)
    ensures AreRepaired(events, idx, device, from)
    ensures RepairDurations(Overlapping(EventsOf(events, device), from), from, until) ==
            DurationsAt(events, idx, from, until)
  {
    if events == [] {
      idx := [];
    } else {
      var n := |events| - 1;
      var e := events[n];
      var kept := e.device == device && e.status == OFFLINE && e.endedAt.Some? && from <= e.endedAt.value;
      var before := RepairsOverRows(events[..n], device, from, until);
      assert events == events[..n] + [e];
      EventsOfAppend(events[..n], e, device);
      assert e.device != device ==> EventsOf(events, device) == EventsOf(events[..n], device);
      OverlappingSnoc(EventsOf(events[..n], device), e, from);
      RepairsSnoc(Overlapping(EventsOf(events[..n], device), from), e, from, until);
      idx := Grown(before, n, kept);
      GrownPositions(before, n, kept);
      DurationsGrow(events[..n], e, before, kept, from, until);
    }
  }

  lemma {:induction false} InsertKeepsRepairs(e: AvailabilityEvent, sorted: seq<AvailabilityEvent>, from: int,
                                              until: int)
    ensures |RepairDurations(InsertByStart(e, sorted), from, until)| ==
            |RepairDurations([e] + sorted, from, until)|
    ensures Aggregation.Sum(RepairDurations(InsertByStart(e, sorted), from, until)) ==
            Aggregation.Sum(RepairDurations([e] + sorted, from, until))
  {
    if sorted != [] && sorted[0].startedAt < e.startedAt {
      InsertKeepsRepairs(e, sorted[1..], from, until);
      RepairsCons(e, sorted, from, until);
      RepairsCons(sorted[0], sorted[1..], from, until);
      RepairsCons(e, sorted[1..], from, until);
      RepairsCons(sorted[0], InsertByStart(e, sorted[1..]), from, until);
      assert sorted == [sorted[0]] + sorted[1..];
    }
  }

  lemma RepairsCons(e: AvailabilityEvent, rest: seq<AvailabilityEvent>, from: int, until: int)
    ensures var repairs, counts := RepairDurations([e] + rest, from, until), e.status == OFFLINE && e.endedAt.Some?;
            && |repairs| == |RepairDurations(rest, from, until)| + (if counts then 1 else 0)
            && Aggregation.Sum(repairs) == Aggregation.Sum(RepairDurations(rest, from, until)) +
                 if counts then Duration(e, from, until) as real else 0.0
  {
    var repairs := RepairDurations([e] + rest, from, until);
    assert ([e] + rest)[1..] == rest;
    assert e.status == OFFLINE && e.endedAt.Some? ==> repairs[1..] == RepairDurations(rest, from, until);
  }

  /** Neither the number nor the sum of the ended outages depends on the order of the rows. */
  lemma {:induction false} ByStartKeepsRepairs(events: seq<AvailabilityEvent>, from: int, until: int)
    ensures |RepairDurations(ByStart(events), from, until)| == |RepairDurations(events, from, until)|
    ensures Aggregation.Sum(RepairDurations(ByStart(events), from, until)) ==
            Aggregation.Sum(RepairDurations(events, from, until))
  {
    if events == [] {
    } else {
      ByStartKeepsRepairs(events[1..], from, until);
      InsertKeepsRepairs(events[0], ByStart(events[1..]), from, until);
      RepairsCons(events[0], ByStart(events[1..]), from, until);
      RepairsCons(events[0], events[1..], from, until);
      assert events == [events[0]] + events[1..];
    }
  }

  /** The mean time to repair, for any table: none exactly if no outage of the device ended within the window or
      later; otherwise, times the number of these, it is the sum of their clipped lengths. */
  lemma RepairTimeOverRows(events: seq<AvailabilityEvent>, device: nat, rangeHours: int, now: int)
    returns (idx: seq<nat>)
    ensures AreRepaired(events, idx, device, now - rangeHours * 3_600_000_000)
    ensures IsMeanLength(Summary(events, device, rangeHours, now).mttrSeconds, events, idx,
                         now - rangeHours * 3_600_000_000, now)
  {
    var from := now - rangeHours * HOUR;
    idx := RepairsOverRows(events, device, from, now);
    ByStartKeepsRepairs(Overlapping(EventsOf(events, device), from), from, now);
    MeanOfPositions(RepairDurations(ListByDeviceSince(events, device, from), from, now), events, idx, from, now);
    RepairTimeOfRows(events, device, rangeHours, now);
  }

  lemma RepairTimeOfRows(events: seq<AvailabilityEvent>, device: nat, rangeHours: int, now: int)
    ensures var from := now - rangeHours * HOUR;
            Summary(events, device, rangeHours, now).mttrSeconds ==
            MeanTimeToRepair(RepairDurations(ListByDeviceSince(events, device, from), from, now))
  {
  }

  lemma MeanOfPositions(repairs: seq<real>, events: seq<AvailabilityEvent>, idx: seq<nat>, from: int, until: int)
    requires Positions(idx, |events|) && |repairs| == |idx|
    requires Aggregation.Sum(repairs) == Aggregation.Sum(DurationsAt(events, idx, from, until))
    ensures IsMeanLength(MeanTimeToRepair(repairs), events, idx, from, until)
  {
    MeanInMicros(repairs, |idx|, Aggregation.Sum(DurationsAt(events, idx, from, until)));
  }

  /** In seconds, the mean of the clipped lengths of the events at the positions, if there are any. */
  predicate IsMeanLength(mttr: Option<real>, events: seq<AvailabilityEvent>, idx: seq<nat>, from: int, until: int)
    requires Positions(idx, |events|)
  {
    && (mttr.None? <==> idx == [])
    && (mttr.Some? ==>
          mttr.value * 1_000_000.0 * |idx| as real == Aggregation.Sum(DurationsAt(events, idx, from, until)))
  }

  lemma MeanInMicros(repairs: seq<real>, n: nat, total: real)
    requires n == |repairs| && total == Aggregation.Sum(repairs)
    ensures MeanTimeToRepair(repairs).None? <==> n == 0
    ensures n > 0 ==> MeanTimeToRepair(repairs).value * 1_000_000.0 * n as real == total
  {
    if repairs != [] {
      Aggregation.MeanTimesCount(repairs);
      MicrosAndBack(Aggregation.Mean(repairs));
    }
  }

  /** The other figures of a summary, for any table: without an event of the device that is open or ended within
      the window they are zero; otherwise the percentage is the share of the clipped ONLINE lengths, capped at
      100, and the downtime is the clipped OFFLINE lengths in whole seconds. */
  lemma SummaryOverRows(events: seq<AvailabilityEvent>, device: nat, rangeHours: int, now: int)
    returns (up: seq<nat>, down: seq<nat>)
    ensures AreOfStatus(events, up, device, ONLINE) && AreOfStatus(events, down, device, OFFLINE)
    ensures var from := now - rangeHours * 3_600_000_000;
            var summary := Summary(events, device, rangeHours, now);
            var online := Aggregation.Sum(DurationsAt(events, up, from, now));
            var offline := Aggregation.Sum(DurationsAt(events, down, from, now));
            && summary.device == device && summary.rangeHours == rangeHours
            && (if !HasRows(events, device, from) then summary.availabilityPct == Some(0.0)
                else if rangeHours == 0 then summary.availabilityPct == None
                else summary.availabilityPct ==
                     Some(MinReal(online / (now - from) as real * 100.0, 100.0)))
            && summary.downtimeSeconds as real * 1_000_000.0 <= offline
            && offline < (summary.downtimeSeconds + 1) as real * 1_000_000.0
  {
    var from := now - rangeHours * HOUR;
    up := TotalOverRows(events, device, ONLINE, from, now);
    down := TotalOverRows(events, device, OFFLINE, from, now);
    DroppedEventsClipToZero(EventsOf(events, device), ONLINE, from, now);
    DroppedEventsClipToZero(EventsOf(events, device), OFFLINE, from, now);
    RowsAreThere(events, device, from);
    WholeSeconds(SumDurations(EventsOf(events, device), OFFLINE, from, now));
  }

  /** The device has an event that is open or ended at or after the instant. */
  ghost predicate HasRows(events: seq<AvailabilityEvent>, device: nat, since: int) {
    exists i :: 0 <= i < |events| && events[i].device == device &&
                (events[i].endedAt.Some? ==> since <= events[i].endedAt.value)
  }

  lemma RowsAreThere(events: seq<AvailabilityEvent>, device: nat, since: int)
    ensures HasRows(events, device, since) <==> ListByDeviceSince(events, device, since) != []
  {
    var rows := ListByDeviceSince(events, device, since);
    ListSinceMembers(EventsOf(events, device), since);
    EventsOfMembers(events, device);
    if rows != [] {
      assert rows[0] in rows;
      var i :| 0 <= i < |events| && events[i] == rows[0];
    }
    if i :| 0 <= i < |events| && events[i].device == device &&
            (events[i].endedAt.Some? ==> since <= events[i].endedAt.value) {
      assert events[i] in rows;
    }
  }

  lemma WholeSeconds(total: nat)
    ensures (total / SECOND) as real * 1_000_000.0 <= total as real < (total / SECOND + 1) as real * 1_000_000.0
  {
  }

  ghost function DevicesWith(devices: seq<Device>, status: DeviceStatus): set<nat> {
    set i: nat | i < |devices| && devices[i].polling.status == status
  }

  lemma {:induction false} StatusesAreCounted(devices: seq<Device>, status: DeviceStatus)
    ensures CountStatus(devices, status) == |DevicesWith(devices, status)|
  {
    if devices == [] {
      assert DevicesWith(devices, status) == {};
    } else {
      var n := |devices| - 1;
      var before := DevicesWith(devices[..n], status);
      StatusesAreCounted(devices[..n], status);
      assert n !in before;
      if devices[n].polling.status == status {
        assert DevicesWith(devices, status) == before + {n};
      } else {
        assert DevicesWith(devices, status) == before;
      }
    }
  }

  ghost function DevicesWithSnmp(devices: seq<Device>): set<nat> {
    set i: nat | i < |devices| && devices[i].snmp.supported
  }

  lemma {:induction false} SnmpIsCounted(devices: seq<Device>)
    ensures CountSnmp(devices) == |DevicesWithSnmp(devices)|
  {
    if devices == [] {
      assert DevicesWithSnmp(devices) == {};
    } else {
      var n := |devices| - 1;
      SnmpIsCounted(devices[..n]);
      assert n !in DevicesWithSnmp(devices[..n]);
      assert DevicesWithSnmp(devices) == DevicesWithSnmp(devices[..n]) + if devices[n].snmp.supported then {n} else {};
    }
  }

  ghost function OpenOutages(events: seq<AvailabilityEvent>): set<nat> {
    set i: nat | i < |events| && events[i].status == OFFLINE && events[i].endedAt.None?
  }

  lemma {:induction false} CountProblemsSnoc(events: seq<AvailabilityEvent>, e: AvailabilityEvent)
    ensures CountProblems(events + [e]) ==
            CountProblems(events) + if e.status == OFFLINE && e.endedAt.None? then 1 else 0
  {
    if events == [] {
      assert events + [e] == [e] && CountProblems([e][1..]) == 0;
    } else {
      CountProblemsSnoc(events[1..], e);
      assert (events + [e])[0] == events[0] && (events + [e])[1..] == events[1..] + [e];
    }
  }

  lemma {:induction false} OutagesAreCounted(events: seq<AvailabilityEvent>)
    ensures CountProblems(events) == |OpenOutages(events)|
  {
    if events == [] {
      assert OpenOutages(events) == {};
    } else {
      var n := |events| - 1;
      OutagesAreCounted(events[..n]);
      CountProblemsSnoc(events[..n], events[n]);
      assert events == events[..n] + [events[n]];
      assert n !in OpenOutages(events[..n]);
      assert OpenOutages(events) ==
             OpenOutages(events[..n]) + if events[n].status == OFFLINE && events[n].endedAt.None? then {n} else {};
    }
  }

  /** The counts of the dashboard, for any tables: of the devices by status and by SNMP support, and of the rows
      of the event table that are open outages, whatever the range. */
  lemma DashboardOverRows(devices: seq<Device>, events: seq<AvailabilityEvent>, rangeHours: int, now: int)
    ensures var board := Dashboard(devices, events, rangeHours, now);
            && board.total == |devices|
            && board.online == |DevicesWith(devices, ONLINE)|
            && board.offline == |DevicesWith(devices, OFFLINE)|
            && board.unknown == |DevicesWith(devices, UNKNOWN)|
            && board.snmpSupported == |DevicesWithSnmp(devices)|
            && board.openProblems == |OpenOutages(events)|
  {
    StatusesAreCounted(devices, ONLINE);
    StatusesAreCounted(devices, OFFLINE);
    StatusesAreCounted(devices, UNKNOWN);
    SnmpIsCounted(devices);
    OutagesAreCounted(events);
    OpenEventsAlwaysOverlap(events, now - rangeHours * HOUR);
  }

  /** A range of length zero has no average, unless there is nothing to average. */
  lemma ZeroRangeHasNoAverage(devices: seq<Device>, events: seq<AvailabilityEvent>, now: int)
    ensures Dashboard(devices, events, 0, now).avgAvailabilityPct ==
            if exists e :: e in events && Overlaps(e, now) then None else Some(0.0)
  {
    ListSinceMembers(events, now);
    var rows := ListSince(events, now);
    assert rows != [] ==> rows[0] in rows;
  }
}
