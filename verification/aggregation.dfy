/** The aggregation rule of the Jelasity/Montresor/Babaoglu protocol ("Gossip-
    based aggregation in large dynamic networks", ACM TOCS 23(3), 2005) as the
    daemon and the simulation scripts use it: two estimates are replaced by
    their mean. Values are exact reals; the float rounding of the Python code
    is not modelled. */
module Aggregation {

  /** The mean of two estimates: the point equidistant from both, which lies
      between them. */
  function Average(a: real, b: real): (m: real)
    ensures m - a == b - m
    ensures a <= b ==> a <= m <= b
    ensures b <= a ==> b <= m <= a
  {
    (a + b) / 2.0
  }

  /** The estimate after averaging with each received value in turn, oldest
      first: the left fold of `Average` over `received`. */
  function FoldAverage(init: real, received: seq<real>): real
    decreases |received|
  {
    if |received| == 0 then init
    else Average(FoldAverage(init, received[..|received| - 1]), received[|received| - 1])
  }

  predicate Within(lo: real, hi: real, xs: seq<real>) {
    forall i :: 0 <= i < |xs| ==> lo <= xs[i] <= hi
  }

  /** Averaging never leaves the range spanned by the initial estimate and
      the received values. */
  lemma {:induction false} FoldAverageWithin(init: real, received: seq<real>, lo: real, hi: real)
    requires lo <= init <= hi
    requires Within(lo, hi, received)
    ensures lo <= FoldAverage(init, received) <= hi
    decreases |received|
  {
    if |received| > 0 {
      var prefix := received[..|received| - 1];
      assert Within(lo, hi, prefix) by {
        forall i | 0 <= i < |prefix| ensures lo <= prefix[i] <= hi {
          assert prefix[i] == received[i];
        }
      }
      FoldAverageWithin(init, prefix, lo, hi);
    }
  }

  /** Sum of all estimates; averaging two of them keeps it. */
  function Sum(xs: seq<real>): real
    decreases |xs|
  {
    if |xs| == 0 then 0.0 else xs[0] + Sum(xs[1..])
  }

  /** Replacing one element changes the sum by the difference. */
  lemma {:induction false} SumUpdate(xs: seq<real>, i: nat, v: real)
    requires i < |xs|
    ensures Sum(xs[i := v]) == Sum(xs) - xs[i] + v
    decreases |xs|
  {
    if i > 0 {
      SumUpdate(xs[1..], i - 1, v);
      assert xs[i := v][1..] == xs[1..][i - 1 := v];
    } else {
      assert xs[i := v][1..] == xs[1..];
    }
  }
}
