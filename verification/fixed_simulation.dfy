/** `__main__` of gossip_simulate.py: an 8-column adjacency matrix and a
    fixed 30 rounds. The file's lines, the `randint(0, 1000)` initial values
    and the neighbour draws are parameters; the returned trace holds the
    rows written to the result file and how the script ended. */
module FixedSimulation {
  import opened Wrappers
  import opened Aggregation
  import opened Simulation

  /** Columns `gen_neigh_list` reads from every row. */
  const Columns: nat := 8

  /** Rounds the script runs. */
  const RoundCount: nat := 30

  /** The whole run: read the neighbour lists, then run the rounds on the
      initial values, one per node. An unreadable file raises before any
      row is written. Otherwise the run completes exactly when every node
      can take every turn, writing 30 rows; if it does not, it has written
      the rows of exactly the rounds before the first one some node cannot
      take its turn in. Every row holds one value per node and the sum of
      the initial values. */
  function Simulate(lines: seq<string>, init: seq<real>, pick: (nat, nat) -> nat): (r: Trace)
    requires |init| == |lines|
    ensures GenNeighList(lines, Columns).Failure? ==> r == Trace([], Fail(GenNeighList(lines, Columns).error))
    ensures GenNeighList(lines, Columns).Success? ==>
      var nbrs := GenNeighList(lines, Columns).value;
      && (r.outcome.Pass? <==> AllCanStep(nbrs, pick, RoundCount))
      && (forall i :: 0 <= i < |r.rows| ==> RoundOk(nbrs, pick, i))
      && (r.outcome.Fail? ==> |r.rows| < RoundCount && !RoundOk(nbrs, pick, |r.rows|))
    ensures r.outcome.Pass? ==> |r.rows| == RoundCount
    ensures forall i :: 0 <= i < |r.rows| ==> |r.rows[i]| == |lines| && Sum(r.rows[i]) == Sum(init)
  {
    match GenNeighList(lines, Columns)
    case Failure(e) => Trace([], Fail(e))
    case Success(nbrs) => Rounds(init, nbrs, pick, RoundCount)
  }

  /** Neighbour indices only reach column 7, so with at least 8 nodes a
      drawn neighbour is always a node: a readable file then completes
      exactly when every node has a neighbour, and otherwise raises in the
      first round, before any row is written. */
  lemma EnoughNodes(lines: seq<string>, init: seq<real>, pick: (nat, nat) -> nat)
    requires |init| == |lines| && |lines| >= Columns
    requires GenNeighList(lines, Columns).Success?
    ensures Simulate(lines, init, pick).outcome.Pass? <==>
      forall n :: 0 <= n < |lines| ==> |GenNeighList(lines, Columns).value[n]| > 0
    ensures Simulate(lines, init, pick).outcome.Fail? ==>
      Simulate(lines, init, pick).rows == [] && Simulate(lines, init, pick).outcome.error.NoNeighbours?
  {
    var nbrs := GenNeighList(lines, Columns).value;
    GenNeighListBounded(lines, Columns);
    AllCanStepIndicesInRange(nbrs, pick, RoundCount);
    RoundsIndicesInRange(init, nbrs, pick, RoundCount);
  }
}
