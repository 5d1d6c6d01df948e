/** The background loops of the application on one database. */
module SystemLoops {
  import opened Wrappers
  import opened Models
  import opened Database
  import opened Collection
  import opened SystemRuns
  import CollectionCycle
  import Housekeeping

  /** What the application does between its start and any later moment: scans, and the cycles of the two
      loops, in the order of their commits. The database is the one that the run defines. */
  method RunApplication(db: Database, run: seq<Step>)
    requires Empty(db.tables) && ValidRun(db.tables, run)
    modifies db
    ensures db.tables == Exec(old(db.tables), run)
  {
    ghost var start := db.tables;
    for i := 0 to |run|
      invariant ValidRun(start, run[..i])
      invariant db.tables == Exec(start, run[..i])
    {
      PrefixIsValid(start, run, i + 1);
      assert run[..i + 1][..i] == run[..i];
      TakeStep(db, run[i]);
    }
    assert run[..|run|] == run;
  }

  method TakeStep(db: Database, step: Step)
    requires ValidStep(db.tables, step)
    modifies db
    ensures db.tables == Apply(old(db.tables), step)
  {
    match step {
      case Scan(at, found, answers) =>
        var _ := CollectionCycle.RunScan(db, found, answers, at);
      case Collect(begins, _, pings, readings, fault) =>
        var _ := CollectionCycle.RunCollectionCycle(db, begins, pings, readings, fault);
      case Housekeeping(begins, _, committed) =>
        var fault := if committed then Housekeeping.NoFault else Housekeeping.AtCommit;
        var _ := Housekeeping.RunHousekeepingCycle(db, begins, fault);
    }
  }

  lemma {:induction false} PrefixIsValid(t: Tables, run: seq<Step>, n: nat)
    requires ValidRun(t, run) && n <= |run|
    ensures ValidRun(t, run[..n])
    decreases |run|
  {
    if n == |run| {
      assert run[..n] == run;
    } else {
      PrefixIsValid(t, run[..|run| - 1], n);
      assert run[..|run| - 1][..n] == run[..n];
    }
  }
}
