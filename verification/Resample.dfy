/** Resampling a series into equal bins: one point per non-empty bin, at the start of the bin, with the
    mean of the values that fall into it. */
module Resample {
  import opened Aggregation
  import opened Selection

  datatype ChartPoint = ChartPoint(t: int, v: real)

  function BinOf(t: int, origin: int, width: int): int
    requires width > 0
  {
    (t - origin) / width
  }

  function BinStart(k: int, origin: int, width: int): int {
    origin + k * width
  }

  /** The values of the points in bin `k`. */
  function InBin(points: seq<ChartPoint>, origin: int, width: int, k: int): seq<real>
    requires width > 0
  {
    if points == [] then []
    else
      var rest := InBin(points[1..], origin, width, k);
      if BinOf(points[0].t, origin, width) == k then [points[0].v] + rest else rest
  }

  /** The points of the non-empty bins from `lo` up to, not including, `hi`. */
  function Bins(points: seq<ChartPoint>, origin: int, width: int, lo: int, hi: int): seq<ChartPoint>
    requires width > 0
    decreases hi - lo
  {
    if lo >= hi then []
    else
      var values := InBin(points, origin, width, hi - 1);
      var earlier := Bins(points, origin, width, lo, hi - 1);
      if values == [] then earlier
      else earlier + [ChartPoint(BinStart(hi - 1, origin, width), Mean(values))]
  }

  function Earliest(points: seq<ChartPoint>): int
    requires points != []
  {
    if |points| == 1 then points[0].t
    else if points[0].t <= Earliest(points[1..]) then points[0].t
    else Earliest(points[1..])
  }

  function Latest(points: seq<ChartPoint>): int
    requires points != []
  {
    if |points| == 1 then points[0].t
    else if points[0].t >= Latest(points[1..]) then points[0].t
    else Latest(points[1..])
  }

  lemma {:induction false} EarliestFacts(points: seq<ChartPoint>) returns (q: ChartPoint)
    requires points != []
    ensures q in points && q.t == Earliest(points)
    ensures forall p :: p in points ==> q.t <= p.t
  {
    q := points[0];
    if |points| > 1 {
      var r := EarliestFacts(points[1..]);
      assert forall p :: p in points ==> p == points[0] || p in points[1..];
      q := if points[0].t <= r.t then points[0] else r;
    }
  }

  lemma {:induction false} LatestFacts(points: seq<ChartPoint>) returns (q: ChartPoint)
    requires points != []
    ensures q in points && q.t == Latest(points)
    ensures forall p :: p in points ==> p.t <= q.t
  {
    q := points[0];
    if |points| > 1 {
      var r := LatestFacts(points[1..]);
      assert forall p :: p in points ==> p == points[0] || p in points[1..];
      q := if points[0].t >= r.t then points[0] else r;
    }
  }

  lemma BetweenEarliestAndLatest(points: seq<ChartPoint>, p: ChartPoint)
    requires p in points
    ensures Earliest(points) <= p.t <= Latest(points)
  {
    var a := EarliestFacts(points);
    var b := LatestFacts(points);
  }

  function Resampled(points: seq<ChartPoint>, origin: int, width: int): seq<ChartPoint>
    requires width > 0
  {
    if points == [] then []
    else Bins(points, origin, width, BinOf(Earliest(points), origin, width), BinOf(Latest(points), origin, width) + 1)
  }

  // ---- Bins ---------------------------------------------------------------------------------

  lemma DivisionFacts(x: int, width: int)
    requires width > 0
    ensures x / width * width <= x < x / width * width + width
  {
  }

  /** An instant lies in the bin that starts at or before it and ends after it, and in no other. */
  lemma BinHoldsInstant(t: int, origin: int, width: int, k: int)
    requires width > 0
    ensures BinOf(t, origin, width) == k <==> BinStart(k, origin, width) <= t < BinStart(k, origin, width) + width
  {
    var q := (t - origin) / width;
    DivisionFacts(t - origin, width);
    if q < k {
      ScaleInt(q + 1, k, width);
    } else if q > k {
      ScaleInt(k + 1, q, width);
    }
  }

  lemma ScaleInt(a: int, b: int, width: int)
    requires a <= b && width > 0
    ensures a * width <= b * width
  {
  }

  lemma Distributes(a: int, n: int, width: int)
    ensures (a + n + 1) * width == a * width + n * width + width
  {
  }

  lemma BinsAreOrdered(s: int, t: int, origin: int, width: int)
    requires width > 0 && s <= t
    ensures BinOf(s, origin, width) <= BinOf(t, origin, width)
  {
    DivisionFacts(s - origin, width);
    DivisionFacts(t - origin, width);
    if BinOf(s, origin, width) > BinOf(t, origin, width) {
      ScaleInt(BinOf(t, origin, width) + 1, BinOf(s, origin, width), width);
    }
  }

  /** A span of `n` widths touches at most `n + 1` bins. */
  lemma BinsInSpan(s: int, t: int, origin: int, width: int, n: nat)
    requires width > 0 && s <= t <= s + n * width
    ensures 0 <= BinOf(t, origin, width) - BinOf(s, origin, width) <= n
  {
    BinsAreOrdered(s, t, origin, width);
    DivisionFacts(s - origin, width);
    DivisionFacts(t - origin, width);
    var a, b := BinOf(s, origin, width), BinOf(t, origin, width);
    Distributes(a, n, width);
    if b - a > n {
      ScaleInt(a + n + 1, b, width);
    }
  }

  lemma {:induction false} InBinMembers(points: seq<ChartPoint>, origin: int, width: int, k: int)
    requires width > 0
    ensures forall v :: v in InBin(points, origin, width, k) <==>
                        exists p :: p in points && p.v == v && BinOf(p.t, origin, width) == k
  {
    if points == [] {
    } else {
      InBinMembers(points[1..], origin, width, k);
      assert forall p :: p in points <==> p == points[0] || p in points[1..];
    }
  }

  /** The output points are exactly the non-empty bins of the range, each with the mean of its values. */
  lemma {:induction false} BinsMembers(points: seq<ChartPoint>, origin: int, width: int, lo: int, hi: int)
    requires width > 0
    ensures forall q :: q in Bins(points, origin, width, lo, hi) <==>
                        exists k :: lo <= k < hi && IsBinPoint(points, origin, width, k, q)
    decreases hi - lo
  {
    if lo < hi {
      BinsMembers(points, origin, width, lo, hi - 1);
      var out := Bins(points, origin, width, lo, hi);
      var earlier := Bins(points, origin, width, lo, hi - 1);
      forall q
        ensures q in out <==> exists k :: lo <= k < hi && IsBinPoint(points, origin, width, k, q)
      {
        assert q in out <==> q in earlier || IsBinPoint(points, origin, width, hi - 1, q);
      }
    }
  }

  ghost predicate IsBinPoint(points: seq<ChartPoint>, origin: int, width: int, k: int, q: ChartPoint)
    requires width > 0
  {
    var values := InBin(points, origin, width, k);
    values != [] && q == ChartPoint(BinStart(k, origin, width), Mean(values))
  }

  /** The bins from `lo` up to, not including, `hi` all hold a point. */
  ghost predicate NoBinEmpty(points: seq<ChartPoint>, origin: int, width: int, lo: int, hi: int)
    requires width > 0
  {
    forall k :: lo <= k < hi ==> InBin(points, origin, width, k) != []
  }

  /** No more points than bins, and as many exactly when no bin is empty. */
  lemma {:induction false} BinsCount(points: seq<ChartPoint>, origin: int, width: int, lo: int, hi: int)
    requires width > 0 && lo <= hi
    ensures |Bins(points, origin, width, lo, hi)| <= hi - lo
    ensures |Bins(points, origin, width, lo, hi)| == hi - lo <==> NoBinEmpty(points, origin, width, lo, hi)
    decreases hi - lo
  {
    if lo < hi {
      BinsCount(points, origin, width, lo, hi - 1);
      assert NoBinEmpty(points, origin, width, lo, hi) <==>
             NoBinEmpty(points, origin, width, lo, hi - 1) && InBin(points, origin, width, hi - 1) != [];
    }
  }

  /** The points lie in the range, in strictly increasing order. */
  lemma {:induction false} BinsAscend(points: seq<ChartPoint>, origin: int, width: int, lo: int, hi: int)
    requires width > 0 && lo <= hi
    ensures AscendingWithin(Bins(points, origin, width, lo, hi), BinStart(lo, origin, width),
                            BinStart(hi, origin, width))
    decreases hi - lo
  {
    if lo < hi {
      BinsAscend(points, origin, width, lo, hi - 1);
      StartsInOrder(lo, hi - 1, origin, width);
      StartsInOrder(hi - 1, hi, origin, width);
    }
  }

  predicate AscendingWithin(out: seq<ChartPoint>, from: int, to: int) {
    (forall i :: 0 <= i < |out| ==> from <= out[i].t < to) &&
    (forall i, j :: 0 <= i < j < |out| ==> out[i].t < out[j].t)
  }

  lemma StartsInOrder(a: int, b: int, origin: int, width: int)
    requires width > 0 && a <= b
    ensures BinStart(a, origin, width) <= BinStart(b, origin, width)
    ensures a < b ==> BinStart(a, origin, width) + width <= BinStart(b, origin, width)
  {
    ScaleInt(a, b, width);
    if a < b {
      ScaleInt(a + 1, b, width);
      Distributes(a, 0, width);
    }
  }

  // ---- The main properties ------------------------------------------------------------------

  /** The values behind an output point. */
  function Sources(points: seq<ChartPoint>, origin: int, width: int, q: ChartPoint): seq<real>
    requires width > 0
  {
    InBin(points, origin, width, BinOf(q.t, origin, width))
  }

  /** Every input is represented by exactly one output point, the one whose bin contains it; every
      output is the mean of the inputs of its bin, and lies between the smallest and largest of them. */
  lemma ResampledRepresents(points: seq<ChartPoint>, origin: int, width: int)
    requires width > 0
    ensures var out := Resampled(points, origin, width);
            && (forall i, j :: 0 <= i < j < |out| ==> out[i].t + width <= out[j].t)
            && (forall p :: p in points ==> exists q :: q in out && Represents(q, p, points, origin, width))
            && (forall q :: q in out ==>
                  var values := Sources(points, origin, width, q);
                  values != [] && q.v == Mean(values) && MinOf(values) <= q.v <= MaxOf(values))
  {
    var out := Resampled(points, origin, width);
    forall p | p in points
      ensures exists q :: q in out && Represents(q, p, points, origin, width)
    {
      var q := PointHasBin(points, origin, width, p);
    }
    forall q | q in out
      ensures var values := Sources(points, origin, width, q);
              values != [] && q.v == Mean(values) && MinOf(values) <= q.v <= MaxOf(values)
    {
      var _ := OutputIsBin(points, origin, width, q);
      var values := Sources(points, origin, width, q);
      MeanBounds(values, MinOf(values), MaxOf(values));
    }
    forall i, j | 0 <= i < j < |out|
      ensures out[i].t + width <= out[j].t
    {
      OutputsApart(points, origin, width, i, j);
    }
  }

  /** The bin of `q` contains `p`, and the value of `p` is one of those behind `q`. */
  ghost predicate Represents(q: ChartPoint, p: ChartPoint, points: seq<ChartPoint>, origin: int, width: int)
    requires width > 0
  {
    q.t <= p.t < q.t + width && p.v in Sources(points, origin, width, q)
  }

  lemma OutputIsBin(points: seq<ChartPoint>, origin: int, width: int, q: ChartPoint) returns (k: int)
    requires width > 0 && q in Resampled(points, origin, width)
    ensures IsBinPoint(points, origin, width, k, q)
    ensures BinOf(q.t, origin, width) == k && q.t == BinStart(k, origin, width)
  {
    var lo, hi := BinOf(Earliest(points), origin, width), BinOf(Latest(points), origin, width) + 1;
    BinsMembers(points, origin, width, lo, hi);
    k :| lo <= k < hi && IsBinPoint(points, origin, width, k, q);
    BinHoldsInstant(q.t, origin, width, k);
  }

  lemma OutputsApart(points: seq<ChartPoint>, origin: int, width: int, i: nat, j: nat)
    requires width > 0 && i < j < |Resampled(points, origin, width)|
    ensures var out := Resampled(points, origin, width);
            out[i].t + width <= out[j].t
  {
    var out := Resampled(points, origin, width);
    OutputsAscend(points, origin, width, i, j);
    var a := OutputIsBin(points, origin, width, out[i]);
    var b := OutputIsBin(points, origin, width, out[j]);
    StartsApart(a, b, origin, width);
  }

  lemma OutputsAscend(points: seq<ChartPoint>, origin: int, width: int, i: nat, j: nat)
    requires width > 0 && i < j < |Resampled(points, origin, width)|
    ensures Resampled(points, origin, width)[i].t < Resampled(points, origin, width)[j].t
  {
    EarliestBeforeLatest(points);
    BinsAreOrdered(Earliest(points), Latest(points), origin, width);
    BinsAscend(points, origin, width, BinOf(Earliest(points), origin, width), BinOf(Latest(points), origin, width) + 1);
  }

  lemma StartsApart(a: int, b: int, origin: int, width: int)
    requires width > 0 && BinStart(a, origin, width) < BinStart(b, origin, width)
    ensures BinStart(a, origin, width) + width <= BinStart(b, origin, width)
  {
    if a >= b {
      StartsInOrder(b, a, origin, width);
    } else {
      StartsInOrder(a, b, origin, width);
    }
  }

  lemma EarliestBeforeLatest(points: seq<ChartPoint>)
    requires points != []
    ensures Earliest(points) <= Latest(points)
  {
    BetweenEarliestAndLatest(points, points[0]);
  }

  lemma PointHasBin(points: seq<ChartPoint>, origin: int, width: int, p: ChartPoint) returns (q: ChartPoint)
    requires width > 0 && p in points
    ensures q in Resampled(points, origin, width) && Represents(q, p, points, origin, width)
  {
    var lo, hi := BinOf(Earliest(points), origin, width), BinOf(Latest(points), origin, width) + 1;
    var k := BinOf(p.t, origin, width);
    BetweenEarliestAndLatest(points, p);
    BinsAreOrdered(Earliest(points), p.t, origin, width);
    BinsAreOrdered(p.t, Latest(points), origin, width);
    BinsMembers(points, origin, width, lo, hi);
    InBinMembers(points, origin, width, k);
    BinHoldsInstant(p.t, origin, width, k);
    var values := InBin(points, origin, width, k);
    assert p.v in values;
    q := ChartPoint(BinStart(k, origin, width), Mean(values));
    assert IsBinPoint(points, origin, width, k, q);
    BinHoldsInstant(q.t, origin, width, k);
  }

  /** A series that spans at most `n` widths yields at most `n + 1` points; it yields all of them
      exactly when it spans `n + 1` bins and none of these is empty. */
  lemma ResampledSize(points: seq<ChartPoint>, origin: int, width: int, n: nat)
    requires width > 0 && points != []
    requires Latest(points) <= Earliest(points) + n * width
    ensures |Resampled(points, origin, width)| <= n + 1
    ensures var first := BinOf(Earliest(points), origin, width);
            |Resampled(points, origin, width)| == n + 1 <==> NoBinEmpty(points, origin, width, first, first + n + 1)
  {
    var lo, hi := BinOf(Earliest(points), origin, width), BinOf(Latest(points), origin, width);
    EarliestBeforeLatest(points);
    BinsInSpan(Earliest(points), Latest(points), origin, width, n);
    SizeInBins(points, origin, width, n);
  }

  lemma SizeInBins(points: seq<ChartPoint>, origin: int, width: int, n: nat)
    requires width > 0 && points != []
    requires 0 <= BinOf(Latest(points), origin, width) - BinOf(Earliest(points), origin, width) <= n
    ensures |Resampled(points, origin, width)| <= n + 1
    ensures var first := BinOf(Earliest(points), origin, width);
            |Resampled(points, origin, width)| == n + 1 <==> NoBinEmpty(points, origin, width, first, first + n + 1)
  {
    var first, last := BinOf(Earliest(points), origin, width), BinOf(Latest(points), origin, width);
    if last < first + n {
      NothingAfterLatest(points, origin, width, first + n);
    }
    CountedBins(points, origin, width, first, last, n);
  }

  lemma CountedBins(points: seq<ChartPoint>, origin: int, width: int, first: int, last: int, n: nat)
    requires width > 0 && first <= last <= first + n
    requires last < first + n ==> InBin(points, origin, width, first + n) == []
    ensures |Bins(points, origin, width, first, last + 1)| <= n + 1
    ensures |Bins(points, origin, width, first, last + 1)| == n + 1 <==>
            NoBinEmpty(points, origin, width, first, first + n + 1)
  {
    BinsCount(points, origin, width, first, last + 1);
    if last < first + n {
      assert !NoBinEmpty(points, origin, width, first, first + n + 1);
    }
  }

  lemma NothingAfterLatest(points: seq<ChartPoint>, origin: int, width: int, k: int)
    requires width > 0 && points != [] && BinOf(Latest(points), origin, width) < k
    ensures InBin(points, origin, width, k) == []
  {
    InBinMembers(points, origin, width, k);
    var values := InBin(points, origin, width, k);
    if values != [] {
      assert values[0] in values;
      var p :| p in points && p.v == values[0] && BinOf(p.t, origin, width) == k;
      BetweenEarliestAndLatest(points, p);
      BinsAreOrdered(p.t, Latest(points), origin, width);
    }
  }

  // ---- Outputs, by the positions of the inputs ----------------------------------------------

  /** The values at some positions. */
  function ValuesAt(points: seq<ChartPoint>, idx: seq<nat>): (values: seq<real>)
    requires Positions(idx, |points|)
    ensures |values| == |idx| && forall j :: 0 <= j < |idx| ==> values[j] == points[idx[j]].v
  {
    seq(|idx|, j requires 0 <= j < |idx| => points[idx[j]].v)
  }

  lemma {:induction false} InBinSnoc(points: seq<ChartPoint>, p: ChartPoint, origin: int, width: int, k: int)
    requires width > 0
    ensures InBin(points + [p], origin, width, k) ==
            InBin(points, origin, width, k) + if BinOf(p.t, origin, width) == k then [p.v] else []
  {
    if points == [] {
      assert points + [p] == [p] && InBin([p][1..], origin, width, k) == [];
    } else {
      InBinSnoc(points[1..], p, origin, width, k);
      assert (points + [p])[0] == points[0] && (points + [p])[1..] == points[1..] + [p];
    }
  }

  /** A bin takes the value of every point in it exactly once. */
  lemma {:induction false} InBinAtPositions(points: seq<ChartPoint>, origin: int, width: int, k: int)
    returns (idx: seq<nat>)
    requires width > 0
    ensures Positions(idx, |points|) && InBin(points, origin, width, k) == ValuesAt(points, idx)
    ensures forall i: nat :: i in idx <==> i < |points| && BinOf(points[i].t, origin, width) == k
  {
    if points == [] {
      idx := [];
    } else {
      var n := |points| - 1;
      var before := InBinAtPositions(points[..n], origin, width, k);
      InBinSnoc(points[..n], points[n], origin, width, k);
      assert points == points[..n] + [points[n]];
      idx := Grown(before, n, BinOf(points[n].t, origin, width) == k);
      GrownPositions(before, n, BinOf(points[n].t, origin, width) == k);
    }
  }

  /** The point is the mean of the points that its bin holds, of which there is at least one. */
  ghost predicate IsMeanOf(q: ChartPoint, points: seq<ChartPoint>, idx: seq<nat>, width: int) {
    && Positions(idx, |points|) && idx != []
    && (forall i: nat :: i in idx <==> i < |points| && q.t <= points[i].t < q.t + width)
    && q.v * |idx| as real == Sum(ValuesAt(points, idx))
  }

  lemma OutputIsMean(points: seq<ChartPoint>, origin: int, width: int, q: ChartPoint) returns (idx: seq<nat>, k: int)
    requires width > 0 && q in Resampled(points, origin, width)
    ensures IsMeanOf(q, points, idx, width) && q.t == origin + k * width
  {
    k := OutputIsBin(points, origin, width, q);
    idx := InBinAtPositions(points, origin, width, k);
    forall i | 0 <= i < |points|
      ensures BinOf(points[i].t, origin, width) == k <==> q.t <= points[i].t < q.t + width
    {
      BinHoldsInstant(points[i].t, origin, width, k);
    }
    MeanTimesCount(ValuesAt(points, idx));
  }

  // ---- Conservation -------------------------------------------------------------------------

  function Total(points: seq<ChartPoint>): real {
    if points == [] then 0.0 else points[0].v + Total(points[1..])
  }

  /** The means of an output, each weighted by the number of inputs behind it. */
  function Mass(out: seq<ChartPoint>, points: seq<ChartPoint>, origin: int, width: int): real
    requires width > 0
  {
    if out == [] then 0.0
    else
      var last := out[|out| - 1];
      Mass(out[..|out| - 1], points, origin, width) + last.v * (|Sources(points, origin, width, last)| as real)
  }

  /** The sum of the values whose bin lies in a range. */
  function BinnedTotal(points: seq<ChartPoint>, origin: int, width: int, lo: int, hi: int): real
    requires width > 0
  {
    if points == [] then 0.0
    else (if lo <= BinOf(points[0].t, origin, width) < hi then points[0].v else 0.0) +
         BinnedTotal(points[1..], origin, width, lo, hi)
  }

  lemma {:induction false} SplitLastBin(points: seq<ChartPoint>, origin: int, width: int, lo: int, hi: int)
    requires width > 0 && lo < hi
    ensures BinnedTotal(points, origin, width, lo, hi) ==
            BinnedTotal(points, origin, width, lo, hi - 1) + Sum(InBin(points, origin, width, hi - 1))
  {
    if points == [] {
    } else {
      SplitLastBin(points[1..], origin, width, lo, hi);
      var rest := InBin(points[1..], origin, width, hi - 1);
      assert ([points[0].v] + rest)[1..] == rest;
    }
  }

  lemma {:induction false} BinsMass(points: seq<ChartPoint>, origin: int, width: int, lo: int, hi: int)
    requires width > 0 && lo <= hi
    ensures Mass(Bins(points, origin, width, lo, hi), points, origin, width) ==
            BinnedTotal(points, origin, width, lo, hi)
    decreases hi - lo
  {
    if lo == hi {
      EmptyRange(points, origin, width, lo);
    } else {
      BinsMass(points, origin, width, lo, hi - 1);
      SplitLastBin(points, origin, width, lo, hi);
      if InBin(points, origin, width, hi - 1) != [] {
        LastBinMass(points, origin, width, lo, hi);
      }
    }
  }

  lemma LastBinMass(points: seq<ChartPoint>, origin: int, width: int, lo: int, hi: int)
    requires width > 0 && lo < hi && InBin(points, origin, width, hi - 1) != []
    ensures Mass(Bins(points, origin, width, lo, hi), points, origin, width) ==
            Mass(Bins(points, origin, width, lo, hi - 1), points, origin, width) +
            Sum(InBin(points, origin, width, hi - 1))
  {
    var values := InBin(points, origin, width, hi - 1);
    var last := ChartPoint(BinStart(hi - 1, origin, width), Mean(values));
    BinHoldsInstant(last.t, origin, width, hi - 1);
    MassOfSnoc(Bins(points, origin, width, lo, hi - 1), last, points, origin, width);
    MeanTimesCount(values);
  }

  lemma MassOfSnoc(out: seq<ChartPoint>, q: ChartPoint, points: seq<ChartPoint>, origin: int, width: int)
    requires width > 0
    ensures Mass(out + [q], points, origin, width) ==
            Mass(out, points, origin, width) + q.v * (|Sources(points, origin, width, q)| as real)
  {
    assert (out + [q])[..|out + [q]| - 1] == out;
  }

  lemma {:induction false} EmptyRange(points: seq<ChartPoint>, origin: int, width: int, lo: int)
    requires width > 0
    ensures BinnedTotal(points, origin, width, lo, lo) == 0.0
  {
    if points == [] {
    } else {
      EmptyRange(points[1..], origin, width, lo);
    }
  }

  lemma {:induction false} AllBinned(points: seq<ChartPoint>, origin: int, width: int, lo: int, hi: int)
    requires width > 0 && forall p :: p in points ==> lo <= BinOf(p.t, origin, width) < hi
    ensures BinnedTotal(points, origin, width, lo, hi) == Total(points)
  {
    if points == [] {
    } else {
      AllBinned(points[1..], origin, width, lo, hi);
    }
  }

  /** Resampling loses no weight: the count-weighted means add up to the sum of the inputs. */
  lemma ResampledConservesTotal(points: seq<ChartPoint>, origin: int, width: int)
    requires width > 0
    ensures Mass(Resampled(points, origin, width), points, origin, width) == Total(points)
  {
    if points != [] {
      var lo, hi := BinOf(Earliest(points), origin, width), BinOf(Latest(points), origin, width) + 1;
      EarliestBeforeLatest(points);
      BinsAreOrdered(Earliest(points), Latest(points), origin, width);
      forall p | p in points
        ensures lo <= BinOf(p.t, origin, width) < hi
      {
        BinOfMember(points, p, origin, width);
      }
      BinsMass(points, origin, width, lo, hi);
      AllBinned(points, origin, width, lo, hi);
    }
  }

  lemma BinOfMember(points: seq<ChartPoint>, p: ChartPoint, origin: int, width: int)
    requires width > 0 && p in points
    ensures BinOf(Earliest(points), origin, width) <= BinOf(p.t, origin, width) <= BinOf(Latest(points), origin, width)
  {
    BetweenEarliestAndLatest(points, p);
    BinsAreOrdered(Earliest(points), p.t, origin, width);
    BinsAreOrdered(p.t, Latest(points), origin, width);
  }
}
