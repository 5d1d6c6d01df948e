/** Positions in a table: what a filter keeps, said without the filter. */
module Selection {

  /** Positions in ascending order, all of them in a table of `n` rows. */
  predicate Positions(idx: seq<nat>, n: nat) {
    && (forall j :: 0 <= j < |idx| ==> idx[j] < n)
    && (forall i, j :: 0 <= i < j < |idx| ==> idx[i] < idx[j])
  }

  /** One more row, kept or not. */
  function Grown(idx: seq<nat>, n: nat, kept: bool): seq<nat> {
    if kept then idx + [n] else idx
  }

  lemma GrownPositions(idx: seq<nat>, n: nat, kept: bool)
    requires Positions(idx, n)
    ensures Positions(Grown(idx, n, kept), n + 1)
    ensures forall i :: i in Grown(idx, n, kept) <==> i in idx || (kept && i == n)
  {
  }
}
