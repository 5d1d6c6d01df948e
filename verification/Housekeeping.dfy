/** The housekeeping cycle and its background loop. */
module Housekeeping {
  import opened Wrappers
  import opened Clock
  import opened Models
  import opened Database
  import opened Rollup
  import opened RollupRuns
  import opened MetricRepositories

  /** Where, if anywhere, the driver raises during a cycle. */
  datatype Fault = NoFault | AtUpsert | AtDelete | AtCommit

  /** One cycle: aggregate every closed hour, then delete the expired raw rows, in one transaction.
      An exception leaves the database as it was. */
  method RunHousekeepingCycle(db: Database, now: int, fault: Fault) returns (r: Result<(), DbError>)
    modifies db
    ensures r.Ok? <==> fault.NoFault?
    ensures db.tables == if r.Ok? then Housekept(old(db.tables), now) else old(db.tables)
    ensures forall row :: row in old(db.tables).history && row.number.Some? ==>
              row in db.tables.history || KeyOf(row) in db.tables.trends
  {
    var closedHourBoundary := HourOf(now);
    var retentionCutoff := now - RETENTION;
    var session := new Session(db);
    var trends := new MetricTrendRepository(session);
    var history := new MetricHistoryRepository(session);
    if fault.AtUpsert? { return Err(DriverError); }
    var _ := trends.UpsertHourlyAggregates(closedHourBoundary);
    if fault.AtDelete? { return Err(DriverError); }
    var _ := history.DeleteOlderThan(retentionCutoff);
    if fault.AtCommit? { return Err(DriverError); }
    NoReadingIsLost(db.tables, now);
    session.Commit();
    r := Ok(());
  }

  lemma NoReadingIsLost(t: Tables, now: int)
    ensures forall row :: row in t.history && row.number.Some? ==>
              row in Housekept(t, now).history || KeyOf(row) in Housekept(t, now).trends
  {
    forall row | row in t.history && row.number.Some? && row !in Housekept(t, now).history
      ensures KeyOf(row) in Housekept(t, now).trends
    {
      DeletedRowsAreAggregated(t, now, row);
    }
  }

  /** What the loop meets: rows committed by the collection loop, and its own ticks. */
  datatype Tick = Collected(rows: seq<MetricHistory>) | Wakes(now: int, fault: Fault)

  function RunOf(ticks: seq<Tick>): (run: seq<Step>)
    ensures |run| == |ticks|
    ensures forall i :: 0 <= i < |ticks| ==>
              match ticks[i]
              case Collected(rows) => run[i] == Insert(rows)
              case Wakes(now, fault) => run[i] == RollupRuns.Step.Housekeeping(now, fault == NoFault)
  {
    seq(|ticks|, i requires 0 <= i < |ticks| =>
      match ticks[i]
      case Collected(rows) => Insert(rows)
      case Wakes(now, fault) => RollupRuns.Step.Housekeeping(now, fault.NoFault?))
  }

  /** The loop survives every failed cycle: after any sequence of ticks the database is the one that
      the run of those ticks defines, with the failed ones rolled back. */
  method RunForever(db: Database, ticks: seq<Tick>)
    modifies db
    ensures db.tables == Exec(old(db.tables), RunOf(ticks))
  {
    ghost var run := RunOf(ticks);
    for i := 0 to |ticks|
      invariant db.tables == Exec(old(db.tables), run[..i])
    {
      assert run[..i + 1][..i] == run[..i];
      match ticks[i] {
        case Collected(rows) =>
          var session := new Session(db);
          var history := new MetricHistoryRepository(session);
          history.SaveMany(rows);
          session.Commit();
        case Wakes(now, fault) =>
          var _ := RunHousekeepingCycle(db, now, fault);
      }
    }
    assert run[..|ticks|] == run;
  }
}
