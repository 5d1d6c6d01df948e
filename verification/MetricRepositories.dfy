/** The repositories of the raw and the aggregated metric tables. */
module MetricRepositories {
  import opened Wrappers
  import opened Clock
  import opened Models
  import opened Database
  import opened Rollup
  import Aggregation

  class MetricHistoryRepository {
    const session: Session

    constructor (session: Session)
      ensures this.session == session
    {
      this.session := session;
    }

    method SaveMany(histories: seq<MetricHistory>)
      modifies session
      ensures session.tables == old(session.tables).(history := old(session.tables).history + histories)
    {
      if histories != [] {
        session.tables := session.tables.(history := session.tables.history + histories);
      } else {
        assert session.tables.history + histories == session.tables.history;
      }
    }

    /** Keeps exactly the rows collected at or after the cutoff, numeric or not, in their order. */
    method DeleteOlderThan(cutoff: int) returns (deleted: nat)
      modifies session
      ensures session.tables == old(session.tables).(history := Retained(old(session.tables).history, Some(cutoff)))
      ensures deleted == |old(session.tables).history| - |session.tables.history|
      ensures forall r :: r in session.tables.history <==> r in old(session.tables).history && cutoff <= r.at
    {
      RetainedMembers(session.tables.history, Some(cutoff));
      RetainedIsShorter(session.tables.history, Some(cutoff));
      var kept := Retained(session.tables.history, Some(cutoff));
      deleted := |session.tables.history| - |kept|;
      session.tables := session.tables.(history := kept);
    }
  }

  lemma {:induction false} RetainedIsShorter(rows: seq<MetricHistory>, floor: Option<int>)
    ensures |Retained(rows, floor)| <= |rows|
  {
    if rows == [] {
    } else {
      RetainedIsShorter(rows[1..], floor);
    }
  }

  /** The groups of the query are the buckets with a numeric row before the boundary. */
  lemma GroupsAreBuckets(rows: seq<MetricHistory>, before: int)
    ensures forall k :: k in GroupKeys(rows, before) <==> Values(Before(rows, before), k) != []
    ensures before % HOUR == 0 ==>
              forall k :: Values(Before(rows, before), k) == if k.bucket < before then Values(rows, k) else []
  {
    forall k
      ensures k in GroupKeys(rows, before) <==> Values(Before(rows, before), k) != []
    {
      GroupIsThere(rows, before, k);
    }
    if before % HOUR == 0 {
      forall k
        ensures Values(Before(rows, before), k) == if k.bucket < before then Values(rows, k) else []
      {
        BoundaryKeepsBucketsWhole(rows, before, k);
      }
    }
  }

  class MetricTrendRepository {
    const session: Session

    constructor (session: Session)
      ensures this.session == session
    {
      this.session := session;
    }

    /** Rewrites the trend of every bucket that has a numeric row before the boundary, from these rows, and
        leaves every other trend as it was. A boundary on the hour takes every bucket whole. */
    method UpsertHourlyAggregates(before: int) returns (written: nat)
      modifies session
      ensures session.tables == old(session.tables).(trends := session.tables.trends)
      ensures session.tables.trends ==
              old(session.tables).trends + HourlyAggregates(old(session.tables).history, before)
      ensures forall k :: k in session.tables.trends ==>
                var values := Values(Before(old(session.tables).history, before), k);
                if values != []
                then session.tables.trends[k] == Aggregation.Summarise(values)
                else k in old(session.tables).trends && session.tables.trends[k] == old(session.tables).trends[k]
      ensures before % HOUR == 0 ==>
                forall k :: Values(Before(old(session.tables).history, before), k) ==
                            if k.bucket < before then Values(old(session.tables).history, k) else []
      ensures written == |GroupKeys(old(session.tables).history, before)|
    {
      var groups := HourlyAggregates(session.tables.history, before);
      GroupsAreBuckets(session.tables.history, before);
      if groups == map[] {
        assert GroupKeys(session.tables.history, before) == {};
        assert session.tables.trends + groups == session.tables.trends;
        return 0;
      }
      session.tables := session.tables.(trends := session.tables.trends + groups);
      assert groups.Keys == GroupKeys(old(session.tables).history, before);
      written := |groups.Keys|;
    }
  }
}
