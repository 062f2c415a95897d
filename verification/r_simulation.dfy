/** `__main__` of R/simulation/gossip_simulate.py: a square adjacency matrix
    whose width is the file's line count, and a round count taken from the
    command line. The file's lines, the command-line argument, the
    `randint(0, 1000)` initial values and the neighbour draws are
    parameters; the returned trace holds the rows written to the result
    file and how the script ended. */
module RSimulation {
  import opened Wrappers
  import opened Text
  import opened Aggregation
  import opened Simulation

  /** `file_len`: the number of lines, which must be at least one — on an
      empty file the loop variable is never bound. */
  function FileLen(lines: seq<string>): (r: Result<nat, SimError>)
    ensures r.Success? <==> |lines| > 0
    ensures r.Success? ==> r.value == |lines| && r.value >= 1
    ensures r.Failure? ==> r.error == EmptyFile
  {
    if |lines| == 0 then Failure(EmptyFile) else Success(|lines|)
  }

  /** The number of iterations of `range(0, n)`: none when `n` is negative. */
  function RoundsOf(n: int): (k: nat)
    ensures n >= 0 ==> k == n
    ensures n < 0 ==> k == 0
  {
    if n < 0 then 0 else n
  }

  /** The whole run, failing where the script would: an empty file, then an
      unreadable row, then a round count `int()` rejects — each before any
      row is written — then a round some node cannot take its turn in,
      after the rows of the rounds before it. A run that completes writes
      one row per round, none for a negative count. Every row holds one
      value per node and the sum of the initial values. */
  function Simulate(lines: seq<string>, roundsArg: string, init: seq<real>, pick: (nat, nat) -> nat): (r: Trace)
    requires |init| == |lines|
    ensures |lines| == 0 ==> r == Trace([], Fail(EmptyFile))
    ensures |lines| > 0 && GenNeighList(lines, |lines|).Failure? ==> r == Trace([], Fail(GenNeighList(lines, |lines|).error))
    ensures |lines| > 0 && GenNeighList(lines, |lines|).Success? && ParseInt(roundsArg).Failure? ==> r == Trace([], Fail(BadRoundCount))
    ensures |lines| > 0 && GenNeighList(lines, |lines|).Success? && ParseInt(roundsArg).Success? ==>
      var nbrs := GenNeighList(lines, |lines|).value;
      var rounds := RoundsOf(ParseInt(roundsArg).value);
      && (r.outcome.Pass? <==> AllCanStep(nbrs, pick, rounds))
      && (r.outcome.Pass? ==> |r.rows| == rounds)
      && (forall i :: 0 <= i < |r.rows| ==> RoundOk(nbrs, pick, i))
      && (r.outcome.Fail? ==> |r.rows| < rounds && !RoundOk(nbrs, pick, |r.rows|))
    ensures forall i :: 0 <= i < |r.rows| ==> |r.rows[i]| == |lines| && Sum(r.rows[i]) == Sum(init)
  {
    match FileLen(lines)
    case Failure(e) => Trace([], Fail(e))
    case Success(width) =>
      match GenNeighList(lines, width)
      case Failure(e) => Trace([], Fail(e))
      case Success(nbrs) =>
        match ParseInt(roundsArg)
        case Failure(_) => Trace([], Fail(BadRoundCount))
        case Success(n) => Rounds(init, nbrs, pick, RoundsOf(n))
  }

  /** Because the matrix is as wide as it is long, every neighbour index is
      a node: once the file and the round count are read, the run completes
      exactly when it has no rounds or every node has a neighbour, whatever
      the draws, and otherwise raises in its first round, before any row is
      written. */
  lemma SquareMatrixNeverOutOfRange(lines: seq<string>, roundsArg: string, init: seq<real>, pick: (nat, nat) -> nat)
    requires |init| == |lines| && |lines| > 0
    requires GenNeighList(lines, |lines|).Success?
    requires ParseInt(roundsArg).Success?
    ensures Simulate(lines, roundsArg, init, pick).outcome.Pass? <==>
      RoundsOf(ParseInt(roundsArg).value) == 0 || forall n :: 0 <= n < |lines| ==> |GenNeighList(lines, |lines|).value[n]| > 0
    ensures Simulate(lines, roundsArg, init, pick).outcome.Fail? ==>
      Simulate(lines, roundsArg, init, pick).rows == [] && Simulate(lines, roundsArg, init, pick).outcome.error.NoNeighbours?
  {
    var nbrs := GenNeighList(lines, |lines|).value;
    var rounds := RoundsOf(ParseInt(roundsArg).value);
    SimulateRuns(lines, roundsArg, init, pick);
    GenNeighListBounded(lines, |lines|);
    AllCanStepIndicesInRange(nbrs, pick, rounds);
    RoundsIndicesInRange(init, nbrs, pick, rounds);
  }

  lemma SimulateRuns(lines: seq<string>, roundsArg: string, init: seq<real>, pick: (nat, nat) -> nat)
    requires |init| == |lines| && |lines| > 0
    requires GenNeighList(lines, |lines|).Success?
    requires ParseInt(roundsArg).Success?
    ensures Simulate(lines, roundsArg, init, pick)
      == Rounds(init, GenNeighList(lines, |lines|).value, pick, RoundsOf(ParseInt(roundsArg).value))
  {
  }
}
