/** The SQL aggregates min, max, avg and count over a non-empty group of numbers. */
module Aggregation {
  import opened Models

  function MinOf(s: seq<real>): (m: real)
    requires s != []
    ensures m in s && forall x :: x in s ==> m <= x
  {
    if |s| == 1 then s[0]
    else
      var m := MinOf(s[1..]);
      assert forall x :: x in s ==> x == s[0] || x in s[1..];
      if s[0] <= m then s[0] else m
  }

  function MaxOf(s: seq<real>): (m: real)
    requires s != []
    ensures m in s && forall x :: x in s ==> x <= m
  {
    if |s| == 1 then s[0]
    else
      var m := MaxOf(s[1..]);
      assert forall x :: x in s ==> x == s[0] || x in s[1..];
      if s[0] >= m then s[0] else m
  }

  function Sum(s: seq<real>): real {
    if s == [] then 0.0 else s[0] + Sum(s[1..])
  }

  function Mean(s: seq<real>): real
    requires s != []
  {
    Sum(s) / (|s| as real)
  }

  function Summarise(s: seq<real>): MetricTrend
    requires s != []
  {
    MetricTrend(MinOf(s), MaxOf(s), Mean(s), |s|)
  }

  /** What a trend row says of the numbers it was made from. */
  predicate Describes(trend: MetricTrend, s: seq<real>) {
    && trend.min in s && trend.max in s
    && (forall x :: x in s ==> trend.min <= x <= trend.max)
    && trend.min <= trend.avg <= trend.max
    && trend.count == |s| && trend.avg * trend.count as real == Sum(s)
  }

  /** The least and the greatest number, one that times the count is the sum, and the count. */
  lemma SummaryMeaning(s: seq<real>)
    requires s != []
    ensures Describes(Summarise(s), s)
  {
    var lo, hi := MinOf(s), MaxOf(s);
    MeanBounds(s, lo, hi);
    Describe(s, lo, hi, Mean(s), Sum(s));
  }

  lemma Describe(s: seq<real>, lo: real, hi: real, mean: real, sum: real)
    requires lo in s && hi in s && (forall x :: x in s ==> lo <= x <= hi) && lo <= mean <= hi
    requires sum == Sum(s) && mean * |s| as real == sum
    ensures Describes(MetricTrend(lo, hi, mean, |s|), s)
  {
  }

  lemma {:induction false} SumBounds(s: seq<real>, lo: real, hi: real)
    requires forall x :: x in s ==> lo <= x <= hi
    ensures lo * (|s| as real) <= Sum(s) <= hi * (|s| as real)
  {
    if s == [] {
    } else {
      var rest := s[1..];
      assert forall x :: x in rest ==> x in s;
      SumBounds(rest, lo, hi);
      assert s[0] in s;
      assert |s| as real == |rest| as real + 1.0;
      StepBounds(lo, hi, s[0], Sum(rest), |rest| as real);
    }
  }

  lemma StepBounds(lo: real, hi: real, x: real, sum: real, n: real)
    requires lo <= x <= hi && lo * n <= sum <= hi * n
    ensures lo * (n + 1.0) <= x + sum <= hi * (n + 1.0)
  {
    Distribute(lo, n);
    Distribute(hi, n);
  }

  lemma MeanTimesCount(s: seq<real>)
    requires s != []
    ensures Mean(s) * (|s| as real) == Sum(s)
  {
  }

  lemma Distribute(a: real, n: real)
    ensures a * (n + 1.0) == a * n + a
  {
  }

  lemma {:induction false} SumAppend(s: seq<real>, t: seq<real>)
    ensures Sum(s + t) == Sum(s) + Sum(t)
  {
    if s == [] {
      assert s + t == t;
    } else {
      SumAppend(s[1..], t);
      assert (s + t)[1..] == s[1..] + t;
    }
  }

  /** A mean lies between any bounds of the numbers, and times their count it is their sum. */
  lemma MeanBounds(s: seq<real>, lo: real, hi: real)
    requires s != [] && forall x :: x in s ==> lo <= x <= hi
    ensures lo <= Mean(s) <= hi
    ensures Mean(s) * (|s| as real) == Sum(s)
  {
    SumBounds(s, lo, hi);
    var n := |s| as real;
    assert n > 0.0;
    DivisionBounds(Sum(s), n, lo, hi);
  }

  lemma DivisionBounds(x: real, n: real, lo: real, hi: real)
    requires n > 0.0 && lo * n <= x <= hi * n
    ensures lo <= x / n <= hi && x / n * n == x
  {
    var q := x / n;
    assert q * n == x;
    if q < lo {
      ScaleStrictly(q, lo, n);
      assert false;
    }
    if q > hi {
      ScaleStrictly(hi, q, n);
      assert false;
    }
  }

  lemma ScaleStrictly(a: real, b: real, n: real)
    requires a < b && n > 0.0
    ensures a * n < b * n
  {
    assert (b - a) * n > 0.0;
  }
}
