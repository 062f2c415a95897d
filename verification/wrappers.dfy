/** Failure-carrying datatypes used in place of the Python exceptions of the
    gossip daemon and the simulation scripts. */
module Wrappers {

  /** A value, or the error that the Python code would raise instead. */
  datatype Result<+T, +E> = Success(value: T) | Failure(error: E)

  /** The outcome of a call that changes state whether or not it raises:
      the state change is reported separately, this says whether it raised. */
  datatype Outcome<+E> = Pass | Fail(error: E)

  /** Applies `f` to each element in order, as a Python loop that raises at
      the first bad element does: every element succeeds and the results
      come back in order, or the result is the first failure with its
      index. */
  function MapAll<A, T, E>(xs: seq<A>, f: A -> Result<T, E>): (r: Result<seq<T>, (nat, E)>)
    ensures r.Success? <==> forall i :: 0 <= i < |xs| ==> f(xs[i]).Success?
    ensures r.Success? ==> |r.value| == |xs|
    ensures r.Success? ==> forall i :: 0 <= i < |xs| ==> f(xs[i]) == Success(r.value[i])
    ensures r.Failure? ==>
      && r.error.0 < |xs|
      && f(xs[r.error.0]) == Failure(r.error.1)
      && forall j :: 0 <= j < r.error.0 ==> f(xs[j]).Success?
    decreases |xs|
  {
    if |xs| == 0 then Success([])
    else
      var n := |xs| - 1;
      var prefix := xs[..n];
      assert forall j :: 0 <= j < n ==> prefix[j] == xs[j];
      match MapAll(prefix, f)
      case Failure(e) => Failure(e)
      case Success(items) =>
        match f(xs[n])
        case Failure(e) => Failure((n, e))
        case Success(item) => Success(items + [item])
  }

  /** Two elements that both succeed map to their two results. */
  lemma MapAllTwo<A, T, E>(x0: A, x1: A, f: A -> Result<T, E>, v0: T, v1: T)
    requires f(x0) == Success(v0) && f(x1) == Success(v1)
    ensures MapAll([x0, x1], f) == Success([v0, v1])
  {
    var r := MapAll([x0, x1], f);
    assert r.value[0] == v0 && r.value[1] == v1;
    assert r.value == [v0, v1];
  }
}
