/** Upserting a scanned batch of devices by identity. */
module DeviceIdentity {
  import opened Wrappers
  import opened Models

  /** A device as a scan reports it. */
  datatype Incoming = Incoming(ip: string, mac: Option<string>, vendor: Option<string>, subnet: int)

  /** Identity: the mac when the scan knows one, otherwise the address within the subnet among the
      rows that have no mac. */
  predicate Matches(row: Device, x: Incoming) {
    if x.mac.Some? then row.mac == x.mac
    else row.mac.None? && row.ip == x.ip && row.subnet == x.subnet
  }

  const NO_SNMP := SnmpInfo(None, None, None, None, false, None, None, None)
  const DEFAULT_INTERVAL: int := 60  // seconds

  function NewDevice(x: Incoming, now: int): Device {
    Device(x.ip, x.mac, x.vendor, x.subnet, NO_SNMP, Polling(UNKNOWN, DEFAULT_INTERVAL, 0, now, None))
  }

  function Updated(row: Device, x: Incoming): Device {
    row.(ip := x.ip, vendor := x.vendor, subnet := x.subnet)
  }

  /** The rows among the first `n` that the lookup query returns. */
  function Candidates(rows: seq<Device>, x: Incoming, n: nat): (c: seq<nat>)
    requires n <= |rows|
    ensures forall i :: i in c <==> 0 <= i < n && Matches(rows[i], x)
    ensures forall i :: 0 <= i < |c| ==> c[i] < n
    ensures forall i, j :: 0 <= i < j < |c| ==> c[i] < c[j]
  {
    if n == 0 then []
    else if Matches(rows[n - 1], x) then Candidates(rows, x, n - 1) + [n - 1]
    else Candidates(rows, x, n - 1)
  }

  /** one_or_none(). */
  function Lookup(rows: seq<Device>, x: Incoming): (r: Result<Option<nat>, DbError>)
    ensures r.Ok? && r.value.Some? ==>
              r.value.value < |rows| && Matches(rows[r.value.value], x) &&
              forall i :: 0 <= i < |rows| && Matches(rows[i], x) ==> i == r.value.value
    ensures r == Ok(None) <==> !Seen(rows, x)
  {
    var c := Candidates(rows, x, |rows|);
    if c == [] then Ok(None)
    else if |c| == 1 then assert c[0] in c; Ok(Some(c[0]))
    else assert c[0] in c; Err(MultipleResultsFound)
  }

  predicate Seen(rows: seq<Device>, x: Incoming) {
    exists i :: 0 <= i < |rows| && Matches(rows[i], x)
  }

  /** The session before its flush: existing rows changed in place, rows to insert, rows returned. */
  datatype Pending = Pending(rows: seq<Device>, added: seq<Device>, ids: seq<nat>)

  function Absorb(p: Pending, x: Incoming, existing: Option<nat>, now: int): Pending
    requires existing.Some? ==> existing.value < |p.rows|
  {
    match existing
    case None => Pending(p.rows, p.added + [NewDevice(x, now)], p.ids + [|p.rows| + |p.added|])
    case Some(i) => p.(rows := p.rows[i := Updated(p.rows[i], x)], ids := p.ids + [i])
  }

  /** Without autoflush every lookup sees the flushed rows only, never the batch's own changes. */
  function Process(flushed: seq<Device>, batch: seq<Incoming>, now: int): (r: Result<Pending, DbError>)
    ensures r.Ok? ==> |r.value.rows| == |flushed| && |r.value.ids| == |batch|
  {
    if batch == [] then Ok(Pending(flushed, [], []))
    else
      var x := batch[|batch| - 1];
      match Process(flushed, batch[..|batch| - 1], now)
      case Err(e) => Err(e)
      case Ok(p) =>
        match Lookup(flushed, x)
        case Err(e) => Err(e)
        case Ok(existing) => Ok(Absorb(p, x, existing, now))
  }

  /** The unique constraint on the mac column. */
  predicate MacsUnique(rows: seq<Device>) {
    forall i, j :: 0 <= i < j < |rows| && rows[i].mac.Some? ==> rows[i].mac != rows[j].mac
  }

  /** No constraint of the database keeps this one. */
  predicate AddressesUnique(rows: seq<Device>) {
    forall i, j :: 0 <= i < j < |rows| && rows[i].mac.None? && rows[j].mac.None? ==>
      rows[i].ip != rows[j].ip || rows[i].subnet != rows[j].subnet
  }

  predicate Identified(rows: seq<Device>) {
    MacsUnique(rows) && AddressesUnique(rows)
  }

  datatype Upserted = Upserted(rows: seq<Device>, ids: seq<nat>)

  function UpsertMany(flushed: seq<Device>, batch: seq<Incoming>, now: int): Result<Upserted, DbError> {
    match Process(flushed, batch, now)
    case Err(e) => Err(e)
    case Ok(p) => if MacsUnique(p.rows + p.added) then Ok(Upserted(p.rows + p.added, p.ids)) else Err(IntegrityError)
  }

  // ---- Closed form --------------------------------------------------------------------------

  /** What a batch leaves of an existing row: the address data of the last report that matches it. */
  function RowAfter(row: Device, batch: seq<Incoming>): Device {
    if batch == [] then row
    else if Matches(row, batch[|batch| - 1]) then Updated(row, batch[|batch| - 1])
    else RowAfter(row, batch[..|batch| - 1])
  }

  /** The devices that a batch adds, in order. */
  function Fresh(flushed: seq<Device>, batch: seq<Incoming>, now: int): seq<Device> {
    if batch == [] then []
    else
      var x := batch[|batch| - 1];
      Fresh(flushed, batch[..|batch| - 1], now) + if Seen(flushed, x) then [] else [NewDevice(x, now)]
  }

  /** Looked up by identity, a row set satisfying both uniqueness rules is never ambiguous. */
  lemma IdentifiedIsUnambiguous(rows: seq<Device>, x: Incoming)
    requires Identified(rows)
    ensures Lookup(rows, x).Ok?
  {
    if Lookup(rows, x).Err? {
      TwoMatches(rows, x);
      assert false;
    }
  }

  lemma TwoMatches(rows: seq<Device>, x: Incoming)
    requires Lookup(rows, x).Err?
    ensures exists i, j :: 0 <= i < j < |rows| && Matches(rows[i], x) && Matches(rows[j], x)
  {
    var c := Candidates(rows, x, |rows|);
    assert c[0] in c && c[1] in c;
    assert 0 <= c[0] < c[1] < |rows|;
  }

  lemma {:induction false} RowAfterFacts(row: Device, batch: seq<Incoming>)
    ensures var r := RowAfter(row, batch);
            && r.mac == row.mac && r.polling == row.polling && r.snmp == row.snmp
            && (row.mac.None? ==> r.ip == row.ip && r.subnet == row.subnet)
            && ((forall x :: x in batch ==> !Matches(row, x)) ==> r == row)
  {
    if batch == [] {
    } else {
      var x := batch[|batch| - 1];
      assert x in batch;
      RowAfterFacts(row, batch[..|batch| - 1]);
    }
  }

  /** Every lookup succeeds on identified rows, and the batch leaves the closed form. */
  lemma {:induction false} ProcessClosedForm(flushed: seq<Device>, batch: seq<Incoming>, now: int)
    requires Identified(flushed)
    ensures var r := Process(flushed, batch, now);
            && r.Ok? && r.value.added == Fresh(flushed, batch, now)
            && forall i :: 0 <= i < |flushed| ==> r.value.rows[i] == RowAfter(flushed[i], batch)
  {
    if batch == [] {
    } else {
      var x := batch[|batch| - 1];
      ProcessClosedForm(flushed, batch[..|batch| - 1], now);
      IdentifiedIsUnambiguous(flushed, x);
      var existing := Lookup(flushed, x).value;
      forall i | 0 <= i < |flushed|
        ensures Process(flushed, batch, now).value.rows[i] == RowAfter(flushed[i], batch)
      {
        if Matches(flushed[i], x) {
          assert existing == Some(i);
          UpdatedLastWins(flushed[i], batch[..|batch| - 1], x);
        }
      }
    }
  }

  lemma {:induction false} UpdatedLastWins(row: Device, batch: seq<Incoming>, x: Incoming)
    ensures Updated(RowAfter(row, batch), x) == Updated(row, x)
  {
    if batch == [] {
    } else {
      UpdatedLastWins(row, batch[..|batch| - 1], x);
    }
  }

  // ---- When an upsert succeeds and keeps identities unique ----------------------------------

  /** No two devices that the batch reports for the first time share a mac. */
  predicate FreshMacsDistinct(flushed: seq<Device>, batch: seq<Incoming>) {
    forall i, j :: 0 <= i < j < |batch| && !Seen(flushed, batch[i]) && !Seen(flushed, batch[j]) &&
                   batch[i].mac.Some? ==>
      batch[i].mac != batch[j].mac
  }

  /** No two devices that the batch reports for the first time, without a mac, share an address. */
  predicate FreshAddressesDistinct(flushed: seq<Device>, batch: seq<Incoming>) {
    forall i, j :: 0 <= i < j < |batch| && !Seen(flushed, batch[i]) && !Seen(flushed, batch[j]) &&
                   batch[i].mac.None? && batch[j].mac.None? ==>
      batch[i].ip != batch[j].ip || batch[i].subnet != batch[j].subnet
  }

  lemma {:induction false} FreshMembers(flushed: seq<Device>, batch: seq<Incoming>, now: int)
    ensures forall d :: d in Fresh(flushed, batch, now) <==>
              exists j :: 0 <= j < |batch| && !Seen(flushed, batch[j]) && d == NewDevice(batch[j], now)
  {
    if batch == [] {
    } else {
      var before := batch[..|batch| - 1];
      FreshMembers(flushed, before, now);
      forall d
        ensures d in Fresh(flushed, batch, now) <==>
                exists j :: 0 <= j < |batch| && !Seen(flushed, batch[j]) && d == NewDevice(batch[j], now)
      {
        if j :| 0 <= j < |before| && !Seen(flushed, before[j]) && d == NewDevice(before[j], now) {
          assert batch[j] == before[j];
        }
        if j :| 0 <= j < |batch| && !Seen(flushed, batch[j]) && d == NewDevice(batch[j], now) {
          assert j < |before| ==> before[j] == batch[j];
        }
      }
    }
  }

  lemma {:induction false} FreshUniqueIff(flushed: seq<Device>, batch: seq<Incoming>, now: int)
    ensures MacsUnique(Fresh(flushed, batch, now)) <==> FreshMacsDistinct(flushed, batch)
    ensures AddressesUnique(Fresh(flushed, batch, now)) <==> FreshAddressesDistinct(flushed, batch)
  {
    if batch == [] {
    } else {
      var before, x := batch[..|batch| - 1], batch[|batch| - 1];
      FreshUniqueIff(flushed, before, now);
      DistinctSnoc(flushed, before, x);
      assert before + [x] == batch;
      if Seen(flushed, x) {
        assert Fresh(flushed, batch, now) == Fresh(flushed, before, now);
      } else {
        UniqueSnoc(Fresh(flushed, before, now), NewDevice(x, now));
        NewcomersAgainst(flushed, before, x, now);
      }
    }
  }

  /** Some device of the batch that nobody had seen clashes with the report. */
  predicate MacTaken(flushed: seq<Device>, batch: seq<Incoming>, x: Incoming) {
    x.mac.Some? && exists j :: 0 <= j < |batch| && !Seen(flushed, batch[j]) && batch[j].mac == x.mac
  }

  predicate AddressTaken(flushed: seq<Device>, batch: seq<Incoming>, x: Incoming) {
    x.mac.None? && exists j :: 0 <= j < |batch| && !Seen(flushed, batch[j]) && batch[j].mac.None? &&
                               batch[j].ip == x.ip && batch[j].subnet == x.subnet
  }

  lemma DistinctSnoc(flushed: seq<Device>, batch: seq<Incoming>, x: Incoming)
    ensures FreshMacsDistinct(flushed, batch + [x]) <==>
            (FreshMacsDistinct(flushed, batch) && (Seen(flushed, x) || !MacTaken(flushed, batch, x)))
    ensures FreshAddressesDistinct(flushed, batch + [x]) <==>
            (FreshAddressesDistinct(flushed, batch) && (Seen(flushed, x) || !AddressTaken(flushed, batch, x)))
  {
    var longer := batch + [x];
    assert longer[|batch|] == x && forall j :: 0 <= j < |batch| ==> longer[j] == batch[j];
    if FreshMacsDistinct(flushed, longer) && !Seen(flushed, x) && x.mac.Some? {
      assert forall j :: 0 <= j < |batch| && !Seen(flushed, longer[j]) ==> longer[j].mac != longer[|batch|].mac;
    }
    if FreshAddressesDistinct(flushed, longer) && !Seen(flushed, x) && x.mac.None? {
      assert forall j :: 0 <= j < |batch| && !Seen(flushed, longer[j]) && longer[j].mac.None? ==>
          longer[j].ip != longer[|batch|].ip || longer[j].subnet != longer[|batch|].subnet;
    }
  }

  lemma NewcomersAgainst(flushed: seq<Device>, batch: seq<Incoming>, x: Incoming, now: int)
    ensures var f := Fresh(flushed, batch, now);
            && (MacTaken(flushed, batch, x) <==> x.mac.Some? && exists e :: e in f && e.mac == x.mac)
            && (AddressTaken(flushed, batch, x) <==>
                  x.mac.None? && exists e :: e in f && e.mac.None? && e.ip == x.ip && e.subnet == x.subnet)
  {
    FreshMembers(flushed, batch, now);
    var f := Fresh(flushed, batch, now);
    assert forall j :: 0 <= j < |batch| && !Seen(flushed, batch[j]) ==> NewDevice(batch[j], now) in f;
  }

  lemma UniqueSnoc(f: seq<Device>, d: Device)
    ensures MacsUnique(f + [d]) <==>
            (MacsUnique(f) && !(d.mac.Some? && exists e :: e in f && e.mac == d.mac))
    ensures AddressesUnique(f + [d]) <==>
            (AddressesUnique(f) &&
             !(d.mac.None? && exists e :: e in f && e.mac.None? && e.ip == d.ip && e.subnet == d.subnet))
  {
    var g := f + [d];
    assert forall i :: 0 <= i < |f| ==> g[i] == f[i] && f[i] in f;
    if MacsUnique(g) {
      assert forall i :: 0 <= i < |f| && d.mac.Some? ==> g[i].mac != g[|f|].mac;
    }
    if AddressesUnique(g) {
      assert forall i :: 0 <= i < |f| && g[i].mac.None? && g[|f|].mac.None? ==>
          g[i].ip != g[|f|].ip || g[i].subnet != g[|f|].subnet;
    }
  }

  /** Rows that keep their identities stay unique next to rows nobody has seen. */
  lemma UniqueBeside(flushed: seq<Device>, rows: seq<Device>, batch: seq<Incoming>, now: int)
    requires Identified(flushed) && |rows| == |flushed|
    requires forall i :: 0 <= i < |rows| ==> rows[i] == RowAfter(flushed[i], batch)
    ensures var added := Fresh(flushed, batch, now);
            && (MacsUnique(rows + added) <==> MacsUnique(added))
            && (AddressesUnique(rows + added) <==> AddressesUnique(added))
  {
    var added := Fresh(flushed, batch, now);
    var all := rows + added;
    FreshMembers(flushed, batch, now);
    forall i | 0 <= i < |rows|
      ensures rows[i].mac == flushed[i].mac
      ensures rows[i].mac.None? ==> rows[i].ip == flushed[i].ip && rows[i].subnet == flushed[i].subnet
    {
      RowAfterFacts(flushed[i], batch);
    }
    forall i, j | 0 <= i < |rows| && 0 <= j < |added|
      ensures rows[i].mac.Some? ==> rows[i].mac != added[j].mac
      ensures rows[i].mac.None? && added[j].mac.None? ==> rows[i].ip != added[j].ip || rows[i].subnet != added[j].subnet
    {
      assert added[j] in added;
      var k :| 0 <= k < |batch| && !Seen(flushed, batch[k]) && added[j] == NewDevice(batch[k], now);
      assert !Matches(flushed[i], batch[k]);
    }
    assert forall j :: 0 <= j < |added| ==> all[|rows| + j] == added[j];
  }

  /** On identified rows no lookup is ambiguous; the upsert fails exactly when two new devices share a
      mac, and it keeps both identity rules exactly when the new devices of the batch are distinct. */
  lemma UpsertKeepsIdentityIff(flushed: seq<Device>, batch: seq<Incoming>, now: int)
    requires Identified(flushed)
    ensures UpsertMany(flushed, batch, now).Err? <==> !FreshMacsDistinct(flushed, batch)
    ensures UpsertMany(flushed, batch, now).Err? ==> UpsertMany(flushed, batch, now).error == IntegrityError
    ensures UpsertMany(flushed, batch, now).Ok? && Identified(UpsertMany(flushed, batch, now).value.rows) <==>
            FreshMacsDistinct(flushed, batch) && FreshAddressesDistinct(flushed, batch)
  {
    ProcessClosedForm(flushed, batch, now);
    var p := Process(flushed, batch, now).value;
    UniqueBeside(flushed, p.rows, batch, now);
    FreshUniqueIff(flushed, batch, now);
  }

  // ---- When identities go wrong -------------------------------------------------------------

  /** Two rows with the identity of a report make every batch with it fail. */
  lemma {:induction false} AmbiguousReportFails(flushed: seq<Device>, batch: seq<Incoming>, now: int, i: nat, j: nat,
                                                x: Incoming)
    requires i < j < |flushed| && Matches(flushed[i], x) && Matches(flushed[j], x) && x in batch
    ensures UpsertMany(flushed, batch, now) == Err(MultipleResultsFound)
  {
    var before, last := batch[..|batch| - 1], batch[|batch| - 1];
    if x in before {
      AmbiguousReportFails(flushed, before, now, i, j, x);
    } else {
      assert x == last;
      OnlyAmbiguityFails(flushed, before, now);
      assert Lookup(flushed, x) == Err(MultipleResultsFound) by {
        var c := Candidates(flushed, x, |flushed|);
        assert i in c && j in c;
      }
    }
  }

  lemma {:induction false} OnlyAmbiguityFails(flushed: seq<Device>, batch: seq<Incoming>, now: int)
    ensures Process(flushed, batch, now).Err? ==> Process(flushed, batch, now).error == MultipleResultsFound
  {
    if batch == [] {
    } else {
      OnlyAmbiguityFails(flushed, batch[..|batch| - 1], now);
    }
  }

  /** Two rows without a mac share the address and the subnet of a report. */
  ghost predicate Twins(rows: seq<Device>, x: Incoming) {
    x.mac.None? && exists i, j :: 0 <= i < j < |rows| && Matches(rows[i], x) && Matches(rows[j], x)
  }

  /** The one rule without a constraint: two reports of one new address in one batch become two rows. */
  lemma DuplicateAddressMakesTwins(flushed: seq<Device>, batch: seq<Incoming>, now: int, j: nat, k: nat)
    requires Identified(flushed) && UpsertMany(flushed, batch, now).Ok?
    requires j < k < |batch| && !Seen(flushed, batch[j])
    requires batch[j].mac.None? && batch[k].mac.None?
    requires batch[j].ip == batch[k].ip && batch[j].subnet == batch[k].subnet
    ensures Twins(UpsertMany(flushed, batch, now).value.rows, batch[j])
  {
    var out := UpsertMany(flushed, batch, now).value;
    UpsertEffect(flushed, batch, now);
    SameIdentitySeen(flushed, batch[j], batch[k]);
    assert Returned(flushed, out, out.ids[j], batch[j], now) && Returned(flushed, out, out.ids[k], batch[k], now);
    assert Matches(out.rows[out.ids[k]], batch[j]);
  }

  lemma TwinsFail(rows: seq<Device>, batch: seq<Incoming>, now: int, x: Incoming, y: Incoming)
    requires Twins(rows, x) && y in batch && y.mac.None? && y.ip == x.ip && y.subnet == x.subnet
    ensures UpsertMany(rows, batch, now) == Err(MultipleResultsFound)
  {
    var i, j :| 0 <= i < j < |rows| && Matches(rows[i], x) && Matches(rows[j], x);
    AmbiguousReportFails(rows, batch, now, i, j, y);
  }

  /** One scan that reports a new mac at two addresses fails as a whole. Once the mac is known, the last
      report wins (UpsertEffect). */
  lemma NewMacAtTwoAddressesFails(flushed: seq<Device>, batch: seq<Incoming>, now: int, j: nat, k: nat)
    requires Identified(flushed) && j < k < |batch| && !Seen(flushed, batch[j])
    requires batch[j].mac.Some? && batch[j].mac == batch[k].mac
    ensures UpsertMany(flushed, batch, now) == Err(IntegrityError)
  {
    SameIdentitySeen(flushed, batch[j], batch[k]);
    UpsertKeepsIdentityIff(flushed, batch, now);
  }

  function NewRows(batch: seq<Incoming>, now: int): (rows: seq<Device>)
    ensures |rows| == |batch|
  {
    seq(|batch|, j requires 0 <= j < |batch| => NewDevice(batch[j], now))
  }

  function NewIds(first: nat, n: nat): (ids: seq<nat>)
    ensures |ids| == n
  {
    seq(n, j => first + j)
  }

  /** The caller stores a new subnet row before every upsert. No address is known under it: a sweep without
      macs registers every device it finds once more, whatever the table holds. */
  lemma SweepOfNewSubnetIsAllNew(rows: seq<Device>, batch: seq<Incoming>, now: int, subnet: int)
    requires MacsUnique(rows) && forall i :: 0 <= i < |rows| ==> rows[i].subnet != subnet
    requires forall j :: 0 <= j < |batch| ==> batch[j].mac.None? && batch[j].subnet == subnet
    ensures UpsertMany(rows, batch, now) == Ok(Upserted(rows + NewRows(batch, now), NewIds(|rows|, |batch|)))
  {
    NothingSeen(rows, batch, now);
    MacsBeside(rows, NewRows(batch, now));
  }

  lemma MacsBeside(rows: seq<Device>, added: seq<Device>)
    requires MacsUnique(rows) && forall j :: 0 <= j < |added| ==> added[j].mac.None?
    ensures MacsUnique(rows + added)
  {
  }

  lemma {:induction false} NothingSeen(rows: seq<Device>, batch: seq<Incoming>, now: int)
    requires forall j :: 0 <= j < |batch| ==> !Seen(rows, batch[j])
    ensures Process(rows, batch, now) == Ok(Pending(rows, NewRows(batch, now), NewIds(|rows|, |batch|)))
  {
    if batch == [] {
      assert NewRows(batch, now) == [] && NewIds(|rows|, 0) == [];
    } else {
      var before, x := batch[..|batch| - 1], batch[|batch| - 1];
      assert forall j :: 0 <= j < |before| ==> before[j] == batch[j];
      NothingSeen(rows, before, now);
      assert Lookup(rows, x) == Ok(None);
      assert NewRows(batch, now) == NewRows(before, now) + [NewDevice(x, now)];
      assert NewIds(|rows|, |batch|) == NewIds(|rows|, |before|) + [|rows| + |before|];
    }
  }

  // ---- What an upsert does to each row ------------------------------------------------------

  /** Nobody has seen the device of this report. */
  ghost function UnseenReports(flushed: seq<Device>, batch: seq<Incoming>): set<nat> {
    set j: nat | j < |batch| && !Seen(flushed, batch[j])
  }

  /** What a batch does to an existing row: nothing if no report matches it; otherwise it takes the address
      data of the last report that does, and keeps its mac, its polling state and its SNMP data. */
  predicate Refreshed(row: Device, after: Device, batch: seq<Incoming>) {
    && after.mac == row.mac && after.polling == row.polling && after.snmp == row.snmp
    && ((forall x :: x in batch ==> !Matches(row, x)) ==> after == row)
    && (forall j :: 0 <= j < |batch| && Matches(row, batch[j]) &&
                    (forall k :: j < k < |batch| ==> !Matches(row, batch[k])) ==>
          after.ip == batch[j].ip && after.vendor == batch[j].vendor && after.subnet == batch[j].subnet)
  }

  /** What a report returns: the row that now carries its identity, an existing one or else the new one,
      UNKNOWN and due at once. */
  predicate Returned(flushed: seq<Device>, out: Upserted, id: nat, x: Incoming, now: int) {
    && id < |out.rows| && Matches(out.rows[id], x)
    && (id < |flushed| <==> Seen(flushed, x))
    && (!Seen(flushed, x) ==>
          out.rows[id] == Device(x.ip, x.mac, x.vendor, x.subnet,
                                 SnmpInfo(None, None, None, None, false, None, None, None),
                                 Polling(UNKNOWN, 60, 0, now, None)))
  }

  /** One row more per report of an unseen device; existing rows are refreshed; and the result lists,
      position by position, the row that now carries the reported identity, new rows in the order of
      their reports. */
  lemma UpsertEffect(flushed: seq<Device>, batch: seq<Incoming>, now: int)
    requires UpsertMany(flushed, batch, now).Ok? && Identified(flushed)
    ensures var out := UpsertMany(flushed, batch, now).value;
            && |out.rows| == |flushed| + |UnseenReports(flushed, batch)|
            && (forall i :: 0 <= i < |flushed| ==> Refreshed(flushed[i], out.rows[i], batch))
            && |out.ids| == |batch|
            && (forall j :: 0 <= j < |batch| ==> Returned(flushed, out, out.ids[j], batch[j], now))
            && UnseenAscend(flushed, batch, out.ids)
  {
    var p := Process(flushed, batch, now).value;
    var out := Upserted(p.rows + p.added, p.ids);
    assert |out.rows| == |flushed| + |UnseenReports(flushed, batch)| by {
      ProcessClosedForm(flushed, batch, now);
      FreshCount(flushed, batch, now);
    }
    forall i | 0 <= i < |flushed|
      ensures Refreshed(flushed[i], out.rows[i], batch)
    {
      ProcessClosedForm(flushed, batch, now);
      RowIsRefreshed(flushed[i], batch);
    }
    forall j | 0 <= j < |batch|
      ensures Returned(flushed, out, out.ids[j], batch[j], now)
    {
      IdsCarryIdentity(flushed, batch, now);
      CarriedIsReturned(flushed, p, p.ids[j], batch[j], now);
    }
    FreshIdsAscend(flushed, batch, now);
  }

  lemma CarriedIsReturned(flushed: seq<Device>, p: Pending, id: nat, x: Incoming, now: int)
    requires Carries(flushed, p, id, x, now) && |p.rows| == |flushed|
    ensures Returned(flushed, Upserted(p.rows + p.added, p.ids), id, x, now)
  {
  }

  lemma {:induction false} RowIsRefreshed(row: Device, batch: seq<Incoming>)
    ensures Refreshed(row, RowAfter(row, batch), batch)
  {
    RowAfterFacts(row, batch);
    forall j | 0 <= j < |batch| && Matches(row, batch[j]) && (forall k :: j < k < |batch| ==> !Matches(row, batch[k]))
      ensures var after := RowAfter(row, batch);
              after.ip == batch[j].ip && after.vendor == batch[j].vendor && after.subnet == batch[j].subnet
    {
      LastReportWins(row, batch, j);
    }
  }

  lemma {:induction false} LastReportWins(row: Device, batch: seq<Incoming>, j: nat)
    requires j < |batch| && Matches(row, batch[j]) && forall k :: j < k < |batch| ==> !Matches(row, batch[k])
    ensures var after := RowAfter(row, batch);
            after.ip == batch[j].ip && after.vendor == batch[j].vendor && after.subnet == batch[j].subnet
  {
    var n := |batch| - 1;
    if j < n {
      LastReportWins(row, batch[..n], j);
    }
  }

  lemma {:induction false} FreshCount(flushed: seq<Device>, batch: seq<Incoming>, now: int)
    ensures |Fresh(flushed, batch, now)| == |UnseenReports(flushed, batch)|
  {
    if batch == [] {
      assert UnseenReports(flushed, batch) == {};
    } else {
      var n := |batch| - 1;
      FreshCount(flushed, batch[..n], now);
      assert n !in UnseenReports(flushed, batch[..n]);
      assert UnseenReports(flushed, batch) ==
             UnseenReports(flushed, batch[..n]) + if Seen(flushed, batch[n]) then {} else {n};
    }
  }

  lemma {:induction false} FreshIdsAscend(flushed: seq<Device>, batch: seq<Incoming>, now: int)
    requires Identified(flushed) && Process(flushed, batch, now).Ok?
    ensures var p := Process(flushed, batch, now).value;
            IdsBelow(p.ids, |flushed| + |p.added|) && UnseenAscend(flushed, batch, p.ids)
  {
    if batch == [] {
    } else {
      var before, x := batch[..|batch| - 1], batch[|batch| - 1];
      FreshIdsAscend(flushed, before, now);
      var p, q := Process(flushed, before, now).value, Process(flushed, batch, now).value;
      assert q.ids == p.ids + [q.ids[|before|]] && batch == before + [x];
      UnseenAscendSnoc(flushed, before, x, p.ids, q.ids[|before|], |flushed| + |p.added|);
    }
  }

  predicate IdsBelow(ids: seq<nat>, n: nat) {
    forall j :: 0 <= j < |ids| ==> ids[j] < n
  }

  /** New rows are returned in the order of their reports. */
  predicate UnseenAscend(flushed: seq<Device>, batch: seq<Incoming>, ids: seq<nat>)
    requires |ids| == |batch|
  {
    forall j, k :: 0 <= j < k < |batch| && !Seen(flushed, batch[j]) && !Seen(flushed, batch[k]) ==> ids[j] < ids[k]
  }

  lemma UnseenAscendSnoc(flushed: seq<Device>, batch: seq<Incoming>, x: Incoming, ids: seq<nat>, id: nat, n: nat)
    requires |ids| == |batch| && UnseenAscend(flushed, batch, ids) && IdsBelow(ids, n)
    requires !Seen(flushed, x) ==> id == n
    ensures UnseenAscend(flushed, batch + [x], ids + [id])
  {
  }

  /** The returned row is the existing one of that identity, or the one added for the report. */
  predicate Carries(flushed: seq<Device>, p: Pending, id: nat, x: Incoming, now: int) {
    if Seen(flushed, x)
    then id < |flushed| && id < |p.rows| && Matches(p.rows[id], x)
    else |flushed| <= id < |flushed| + |p.added| && p.added[id - |flushed|] == NewDevice(x, now)
  }

  lemma {:induction false} IdsCarryIdentity(flushed: seq<Device>, batch: seq<Incoming>, now: int)
    requires Identified(flushed) && Process(flushed, batch, now).Ok?
    ensures var p := Process(flushed, batch, now).value;
            forall j :: 0 <= j < |batch| ==> Carries(flushed, p, p.ids[j], batch[j], now)
  {
    if batch == [] {
    } else {
      var before, x := batch[..|batch| - 1], batch[|batch| - 1];
      var p, q := Process(flushed, before, now).value, Process(flushed, batch, now).value;
      IdsCarryIdentity(flushed, before, now);
      assert forall i :: 0 <= i < |flushed| ==>
               p.rows[i] == RowAfter(flushed[i], before) && q.rows[i] == RowAfter(flushed[i], batch) by {
        ProcessClosedForm(flushed, before, now);
        ProcessClosedForm(flushed, batch, now);
      }
      LatestCarries(flushed, before, x, now, p, q, batch);
      EarlierStillCarry(flushed, before, batch, p, q, now);
    }
  }

  lemma EarlierStillCarry(flushed: seq<Device>, before: seq<Incoming>, batch: seq<Incoming>, p: Pending, q: Pending,
                          now: int)
    requires before <= batch && |p.ids| == |before| && p.ids <= q.ids && p.added <= q.added
    requires |p.rows| == |q.rows| == |flushed|
    requires forall i :: 0 <= i < |flushed| ==>
               p.rows[i] == RowAfter(flushed[i], before) && q.rows[i] == RowAfter(flushed[i], batch)
    requires forall j :: 0 <= j < |before| ==> Carries(flushed, p, p.ids[j], before[j], now)
    ensures forall j :: 0 <= j < |before| ==> Carries(flushed, q, q.ids[j], batch[j], now)
  {
    forall j | 0 <= j < |before|
      ensures Carries(flushed, q, q.ids[j], batch[j], now)
    {
      assert p.ids[j] == q.ids[j] && before[j] == batch[j];
      StillCarries(flushed, before, batch, p, q, p.ids[j], before[j], now);
    }
  }

  lemma LatestCarries(flushed: seq<Device>, before: seq<Incoming>, x: Incoming, now: int, p: Pending, q: Pending,
                      batch: seq<Incoming>)
    requires Lookup(flushed, x).Ok? && |p.rows| == |q.rows| == |flushed| && |p.ids| == |before|
    requires q == Absorb(p, x, Lookup(flushed, x).value, now)
    requires forall i :: 0 <= i < |flushed| ==> q.rows[i] == RowAfter(flushed[i], batch)
    ensures Carries(flushed, q, q.ids[|before|], x, now)
  {
    if Seen(flushed, x) {
      RowAfterFacts(flushed[q.ids[|before|]], batch);
    }
  }

  lemma StillCarries(flushed: seq<Device>, before: seq<Incoming>, batch: seq<Incoming>, p: Pending, q: Pending,
                     id: nat, x: Incoming, now: int)
    requires Carries(flushed, p, id, x, now) && p.added <= q.added && |p.rows| == |q.rows| == |flushed|
    requires forall i :: 0 <= i < |flushed| ==>
               p.rows[i] == RowAfter(flushed[i], before) && q.rows[i] == RowAfter(flushed[i], batch)
    ensures Carries(flushed, q, id, x, now)
  {
    if Seen(flushed, x) {
      RowAfterFacts(flushed[id], before);
      RowAfterFacts(flushed[id], batch);
    }
  }

  /** Applied again, at any later time, the same batch adds nothing, changes nothing and returns the
      same rows. */
  lemma UpsertTwice(flushed: seq<Device>, batch: seq<Incoming>, now: int, later: int)
    requires Identified(flushed) && FreshMacsDistinct(flushed, batch) && FreshAddressesDistinct(flushed, batch)
    ensures UpsertMany(flushed, batch, now).Ok?
    ensures UpsertMany(UpsertMany(flushed, batch, now).value.rows, batch, later) == UpsertMany(flushed, batch, now)
  {
    UpsertKeepsIdentityIff(flushed, batch, now);
    var once := UpsertMany(flushed, batch, now).value;
    assert |once.ids| == |batch| && forall j :: 0 <= j < |batch| ==>
             once.ids[j] < |once.rows| && Matches(once.rows[once.ids[j]], batch[j]) by {
      UpsertEffect(flushed, batch, now);
      assert forall j :: 0 <= j < |batch| ==> Returned(flushed, once, once.ids[j], batch[j], now);
    }
    forall i | 0 <= i < |once.rows|
      ensures RowAfter(once.rows[i], batch) == once.rows[i]
    {
      RowIsSettled(flushed, batch, now, i);
    }
    SettledStays(once.rows, batch, later, once.ids);
  }

  /** Rows that a batch has settled, each report with its own row, are what the batch leaves of them. */
  lemma SettledStays(rows: seq<Device>, batch: seq<Incoming>, now: int, ids: seq<nat>)
    requires Identified(rows) && |ids| == |batch|
    requires forall i :: 0 <= i < |rows| ==> RowAfter(rows[i], batch) == rows[i]
    requires forall j :: 0 <= j < |batch| ==> ids[j] < |rows| && Matches(rows[ids[j]], batch[j])
    ensures UpsertMany(rows, batch, now) == Ok(Upserted(rows, ids))
  {
    SameIds(rows, batch, now, ids);
    var p := Process(rows, batch, now).value;
    assert p.rows == rows by {
      ProcessClosedForm(rows, batch, now);
    }
    assert p.added == [] by {
      ProcessClosedForm(rows, batch, now);
      NothingFresh(rows, batch, now);
    }
    assert p.rows + p.added == rows;
  }

  lemma {:induction false} NothingFresh(rows: seq<Device>, batch: seq<Incoming>, now: int)
    requires forall j :: 0 <= j < |batch| ==> Seen(rows, batch[j])
    ensures Fresh(rows, batch, now) == []
  {
    if batch == [] {
    } else {
      NothingFresh(rows, batch[..|batch| - 1], now);
    }
  }

  /** A batch applied twice leaves a row as one application does. */
  lemma {:induction false} RowAfterTwice(row: Device, batch: seq<Incoming>, more: seq<Incoming>)
    requires more <= batch
    ensures RowAfter(RowAfter(row, batch), more) == RowAfter(row, batch) ||
            RowAfter(RowAfter(row, batch), more) == RowAfter(row, more)
    ensures more == batch ==> RowAfter(RowAfter(row, batch), batch) == RowAfter(row, batch)
  {
    RowAfterFacts(row, batch);
    if more == [] {
    } else {
      var x := more[|more| - 1];
      RowAfterTwice(row, batch, more[..|more| - 1]);
      UpdatedLastWins(row, batch, x);
    }
  }

  lemma RowIsSettled(flushed: seq<Device>, batch: seq<Incoming>, now: int, i: nat)
    requires Identified(flushed) && UpsertMany(flushed, batch, now).Ok?
    requires i < |UpsertMany(flushed, batch, now).value.rows|
    requires FreshMacsDistinct(flushed, batch) && FreshAddressesDistinct(flushed, batch)
    ensures var row := UpsertMany(flushed, batch, now).value.rows[i]; RowAfter(row, batch) == row
  {
    ProcessClosedForm(flushed, batch, now);
    var row := UpsertMany(flushed, batch, now).value.rows[i];
    if i < |flushed| {
      RowAfterTwice(flushed[i], batch, batch);
    } else {
      FreshMembers(flushed, batch, now);
      assert row in Fresh(flushed, batch, now);
      var j :| 0 <= j < |batch| && !Seen(flushed, batch[j]) && row == NewDevice(batch[j], now);
      forall k | 0 <= k < |batch| && Matches(row, batch[k])
        ensures k == j
      {
        SameIdentitySeen(flushed, batch[j], batch[k]);
      }
      OnlyMatch(row, batch, j);
    }
  }

  /** Two reports of one identity are seen or unseen together. */
  lemma SameIdentitySeen(flushed: seq<Device>, x: Incoming, y: Incoming)
    requires Matches(NewDevice(x, 0), y)
    ensures Seen(flushed, x) == Seen(flushed, y)
  {
    assert forall i :: 0 <= i < |flushed| ==> Matches(flushed[i], x) == Matches(flushed[i], y);
  }

  lemma {:induction false} OnlyMatch(row: Device, batch: seq<Incoming>, j: nat)
    requires j < |batch| && Updated(row, batch[j]) == row
    requires forall k :: 0 <= k < |batch| && Matches(row, batch[k]) ==> k == j
    ensures RowAfter(row, batch) == row
  {
    var before := batch[..|batch| - 1];
    if j < |before| {
      OnlyMatch(row, before, j);
    } else {
      assert forall x :: x in before ==> !Matches(row, x);
      RowAfterFacts(row, before);
    }
  }

  lemma {:induction false} SameIds(rows: seq<Device>, batch: seq<Incoming>, now: int, ids: seq<nat>)
    requires Identified(rows) && |ids| == |batch|
    requires forall j :: 0 <= j < |batch| ==> ids[j] < |rows| && Matches(rows[ids[j]], batch[j])
    ensures Process(rows, batch, now).Ok? && Process(rows, batch, now).value.ids == ids
  {
    ProcessClosedForm(rows, batch, now);
    if batch == [] {
    } else {
      var n := |batch| - 1;
      SameIds(rows, batch[..n], now, ids[..n]);
      assert ids == ids[..n] + [ids[n]];
    }
  }
}
