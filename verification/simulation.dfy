/** The offline simulation shared by both `gossip_simulate.py` scripts: an
    adjacency matrix read as comma-separated integer rows becomes one list
    of neighbour indices per node, and then every round lets each node, in
    order, average its value with a neighbour's. The neighbour
    `random.choice` picks is a parameter, and values are exact reals, not
    the 32-bit floats of `array('f')`. */
module Simulation {
  import opened Wrappers
  import opened Text
  import opened Aggregation

  datatype RowError =
    | BadInteger(column: nat)    // `int()` rejects the field at this column
    | TooFewColumns(count: nat)  // `temp[i]` past the end of a row of `count` fields

  datatype SimError =
    | BadRow(line: nat, error: RowError)
      /** `file_len` of an empty file reads a loop variable never bound. */
    | EmptyFile
      /** `choice` of an empty neighbour list. */
    | NoNeighbours(round: nat, node: nat)
      /** The picked neighbour is not a node: `state[dest]` is out of range. */
    | NodeOutOfRange(round: nat, node: nat, dest: nat)
      /** `int()` rejects the round count given on the command line. */
    | BadRoundCount

  /** `map(int, fields)`: the integers of the fields, in order, or the
      column of the first field `int()` rejects. */
  function ParseFields(fields: seq<string>): (r: Result<seq<int>, RowError>)
    ensures r.Success? <==> forall i :: 0 <= i < |fields| ==> ParseInt(fields[i]).Success?
    ensures r.Success? ==> |r.value| == |fields|
    ensures r.Success? ==> forall i :: 0 <= i < |fields| ==> ParseInt(fields[i]) == Success(r.value[i])
    ensures r.Failure? ==>
      && r.error.BadInteger?
      && r.error.column < |fields|
      && ParseInt(fields[r.error.column]).Failure?
      && forall j :: 0 <= j < r.error.column ==> ParseInt(fields[j]).Success?
  {
    var m := MapAll(fields, ParseInt);
    if m.Success? then Success(m.value) else Failure(BadInteger(m.error.0))
  }

  /** `map(int, line.strip().split(','))`: one integer per comma-separated
      field of the stripped line. */
  function ParseRow(line: string): (r: Result<seq<int>, RowError>)
    ensures r.Success? ==> |r.value| == |Split(Strip(line), ',')|
    ensures r.Success? ==> forall i :: 0 <= i < |r.value| ==> ParseInt(Split(Strip(line), ',')[i]) == Success(r.value[i])
  {
    ParseFields(Split(Strip(line), ','))
  }

  /** A row of integers written the way the matrix files hold them. */
  function FormatRow(xs: seq<int>): string {
    Join(Decimals(xs), ',')
  }

  /** Every decimal rendering is a non-empty field without commas that
      begins and ends with a non-whitespace character. */
  lemma DecimalShape(n: int)
    ensures var s := IntToDecimal(n);
      |s| > 0 && ',' !in s && !IsSpace(s[0]) && !IsSpace(s[|s| - 1])
  {
    var ds := NatToDecimal(if n < 0 then -n else n);
    assert ',' !in ds by {
      forall i | 0 <= i < |ds| ensures ds[i] != ',' {
        assert IsDigit(ds[i]);
      }
    }
    assert IsDigit(ds[0]) && IsDigit(ds[|ds| - 1]);
  }

  function Decimals(xs: seq<int>): (fields: seq<string>)
    ensures |fields| == |xs|
  {
    seq(|xs|, i requires 0 <= i < |xs| => IntToDecimal(xs[i]))
  }

  /** `map(int, ...)` of decimal renderings gives the integers back. */
  lemma ParseDecimals(xs: seq<int>)
    ensures ParseFields(Decimals(xs)) == Success(xs)
  {
    var fields := Decimals(xs);
    forall i | 0 <= i < |xs| ensures ParseInt(fields[i]) == Success(xs[i]) {
      IntRoundTrip(xs[i]);
    }
    var r := ParseFields(fields);
    assert r.value == xs;
  }

  /** Reading back a formatted non-empty row gives the same integers. */
  lemma ParseFormatRow(xs: seq<int>)
    requires |xs| > 0
    ensures ParseRow(FormatRow(xs)) == Success(xs)
  {
    var fields := Decimals(xs);
    forall i | 0 <= i < |xs|
      ensures |fields[i]| > 0 && ',' !in fields[i]
      ensures !IsSpace(fields[i][0]) && !IsSpace(fields[i][|fields[i]| - 1])
    {
      DecimalShape(xs[i]);
    }
    var line := Join(fields, ',');
    assert FormatRow(xs) == line;
    JoinEnds(fields, ',');
    StripUnchanged(line);
    SplitJoin(fields, ',');
    ParseDecimals(xs);
  }

  /** The loop `for i in range(0, width): if temp[i]: current_node.append(i)`:
      the columns below `width` holding a non-zero integer, ascending. */
  function NeighbourIndices(row: seq<int>, width: nat): (r: seq<nat>)
    requires width <= |row|
    ensures forall i: nat :: i in r <==> i < width && row[i] != 0
    ensures forall j :: 0 <= j < |r| ==> r[j] < width
    ensures forall j, k :: 0 <= j < k < |r| ==> r[j] < r[k]
    decreases width
  {
    if width == 0 then []
    else NeighbourIndices(row, width - 1) + (if row[width - 1] != 0 then [width - 1] else [])
  }

  /** Columns at or past `width` never matter. */
  lemma {:induction false} NeighbourIndicesIgnoreExtra(row: seq<int>, extra: seq<int>, width: nat)
    requires width <= |row|
    ensures NeighbourIndices(row + extra, width) == NeighbourIndices(row, width)
    decreases width
  {
    if width > 0 {
      NeighbourIndicesIgnoreExtra(row, extra, width - 1);
      assert (row + extra)[width - 1] == row[width - 1];
    }
  }

  /** One iteration of the `for line in infile` loop of `gen_neigh_list`:
      the row must parse, then must reach column `width - 1`. */
  function RowNeighbours(line: string, width: nat): (r: Result<seq<nat>, RowError>)
    ensures r.Success? <==> ParseRow(line).Success? && width <= |ParseRow(line).value|
    ensures ParseRow(line).Failure? ==> r == Failure(ParseRow(line).error)
    ensures ParseRow(line).Success? && |ParseRow(line).value| < width ==>
      r == Failure(TooFewColumns(|ParseRow(line).value|))
    ensures r.Success? ==> forall i: nat :: i in r.value <==> i < width && ParseRow(line).value[i] != 0
  {
    match ParseRow(line)
    case Failure(e) => Failure(e)
    case Success(row) =>
      if |row| < width then Failure(TooFewColumns(|row|)) else Success(NeighbourIndices(row, width))
  }

  /** `gen_neigh_list` over the lines of the matrix file: one neighbour list
      per line, in line order, or the first line that cannot be read. */
  function GenNeighList(lines: seq<string>, width: nat): (r: Result<seq<seq<nat>>, SimError>)
    ensures r.Success? <==> forall i :: 0 <= i < |lines| ==> RowNeighbours(lines[i], width).Success?
    ensures r.Success? ==> |r.value| == |lines|
    ensures r.Success? ==> forall i :: 0 <= i < |lines| ==> RowNeighbours(lines[i], width) == Success(r.value[i])
    ensures r.Failure? ==>
      && r.error.BadRow?
      && r.error.line < |lines|
      && RowNeighbours(lines[r.error.line], width) == Failure(r.error.error)
      && forall j :: 0 <= j < r.error.line ==> RowNeighbours(lines[j], width).Success?
  {
    match MapAll(lines, line => RowNeighbours(line, width))
    case Failure((i, e)) => Failure(BadRow(i, e))
    case Success(v) => Success(v)
  }

  /** Every list `gen_neigh_list` returns is strictly increasing, holds only
      columns below `width`, and holds exactly the columns whose entry is
      non-zero. */
  lemma GenNeighListShape(lines: seq<string>, width: nat)
    requires GenNeighList(lines, width).Success?
    ensures forall n :: 0 <= n < |lines| ==>
      var l := GenNeighList(lines, width).value[n];
      && (forall j :: 0 <= j < |l| ==> l[j] < width)
      && (forall j, k :: 0 <= j < k < |l| ==> l[j] < l[k])
      && (forall i: nat :: i in l <==> i < width && ParseRow(lines[n]).value[i] != 0)
  {
    var nbrs := GenNeighList(lines, width).value;
    forall n | 0 <= n < |lines|
      ensures var l := nbrs[n];
        && (forall j :: 0 <= j < |l| ==> l[j] < width)
        && (forall j, k :: 0 <= j < k < |l| ==> l[j] < l[k])
    {
      assert RowNeighbours(lines[n], width) == Success(nbrs[n]);
      assert nbrs[n] == NeighbourIndices(ParseRow(lines[n]).value, width);
    }
  }

  /** Every neighbour index `gen_neigh_list` returns is below `width`. */
  lemma GenNeighListBounded(lines: seq<string>, width: nat)
    requires GenNeighList(lines, width).Success?
    ensures var nbrs := GenNeighList(lines, width).value;
      forall n, j :: 0 <= n < |nbrs| && 0 <= j < |nbrs[n]| ==> nbrs[n][j] < width
  {
    GenNeighListShape(lines, width);
  }

  /** The averaging step of node `node` with neighbour `dest`: both entries
      become the mean of the two, every other entry keeps its value. */
  function Step(state: seq<real>, node: nat, dest: nat): (r: seq<real>)
    requires node < |state| && dest < |state|
    ensures |r| == |state|
    ensures r[node] == Average(state[node], state[dest]) && r[dest] == r[node]
    ensures forall k :: 0 <= k < |state| && k != node && k != dest ==> r[k] == state[k]
  {
    var m := Average(state[node], state[dest]);
    state[node := m][dest := m]
  }

  /** A node averaging with itself changes nothing. */
  lemma StepSelfLoop(state: seq<real>, node: nat)
    requires node < |state|
    ensures Step(state, node, node) == state
  {
  }

  /** A step keeps the sum of all values, so the mean the protocol estimates
      never moves. */
  lemma StepConservesSum(state: seq<real>, node: nat, dest: nat)
    requires node < |state| && dest < |state|
    ensures Sum(Step(state, node, dest)) == Sum(state)
  {
    var m := Average(state[node], state[dest]);
    var first := state[node := m];
    SumUpdate(state, node, m);
    SumUpdate(first, dest, m);
  }

  /** A step keeps every value within any bounds the old values kept. */
  lemma StepWithin(state: seq<real>, node: nat, dest: nat, lo: real, hi: real)
    requires node < |state| && dest < |state|
    requires Within(lo, hi, state)
    ensures Within(lo, hi, Step(state, node, dest))
  {
    var r := Step(state, node, dest);
    forall k | 0 <= k < |r| ensures lo <= r[k] <= hi {
      if k == node || k == dest {
        assert lo <= state[node] <= hi && lo <= state[dest] <= hi;
      }
    }
  }

  /** The neighbour `choice(neighbour_list[node])` returns when the random
      draw is `pick`: the draw selects a list position, reduced modulo the
      list's length. */
  function Dest(nbrs: seq<seq<nat>>, node: nat, pick: nat): (d: nat)
    requires node < |nbrs| && |nbrs[node]| > 0
    ensures d in nbrs[node]
    ensures pick < |nbrs[node]| ==> d == nbrs[node][pick]
  {
    nbrs[node][pick % |nbrs[node]|]
  }

  /** Node `node` can take its turn in round `round`: it has a neighbour,
      and the one drawn is a node. */
  predicate CanStep(nbrs: seq<seq<nat>>, pick: (nat, nat) -> nat, round: nat, node: nat)
    requires node < |nbrs|
  {
    |nbrs[node]| > 0 && Dest(nbrs, node, pick(round, node)) < |nbrs|
  }

  /** The first `n` turns of round `round`: nodes 0 .. n - 1 in order, each
      averaging with the neighbour `pick(round, node)` draws. It fails at the
      first node that cannot take its turn; otherwise it keeps the length
      and the sum of the values. */
  function Turns(state: seq<real>, nbrs: seq<seq<nat>>, pick: (nat, nat) -> nat, round: nat, n: nat): (r: Result<seq<real>, SimError>)
    requires |state| == |nbrs| && n <= |nbrs|
    ensures r.Success? <==> forall k :: 0 <= k < n ==> CanStep(nbrs, pick, round, k)
    ensures r.Success? ==> |r.value| == |state| && Sum(r.value) == Sum(state)
    ensures r.Failure? ==>
      && (r.error.NoNeighbours? || r.error.NodeOutOfRange?)
      && r.error.round == round
      && r.error.node < n
      && !CanStep(nbrs, pick, round, r.error.node)
      && (r.error.NoNeighbours? <==> |nbrs[r.error.node]| == 0)
      && forall k :: 0 <= k < r.error.node ==> CanStep(nbrs, pick, round, k)
    decreases n
  {
    if n == 0 then Success(state)
    else
      match Turns(state, nbrs, pick, round, n - 1)
      case Failure(e) => Failure(e)
      case Success(s) =>
        var node := n - 1;
        if |nbrs[node]| == 0 then
          assert !CanStep(nbrs, pick, round, node);
          Failure(NoNeighbours(round, node))
        else
          var dest := Dest(nbrs, node, pick(round, node));
          if dest >= |s| then
            assert !CanStep(nbrs, pick, round, node);
            Failure(NodeOutOfRange(round, node, dest))
          else
            StepConservesSum(s, node, dest);
            Success(Step(s, node, dest))
  }

  /** Whether every node can take its turn in round `round`. */
  predicate RoundOk(nbrs: seq<seq<nat>>, pick: (nat, nat) -> nat, round: nat) {
    forall k :: 0 <= k < |nbrs| ==> CanStep(nbrs, pick, round, k)
  }

  /** One round of the outer loop: every node takes exactly one turn, in
      order 0 .. size - 1. The round fails at the first node that cannot
      take its turn; otherwise it keeps the length and the sum. */
  function Round(state: seq<real>, nbrs: seq<seq<nat>>, pick: (nat, nat) -> nat, round: nat): (r: Result<seq<real>, SimError>)
    requires |state| == |nbrs|
    ensures r.Success? <==> RoundOk(nbrs, pick, round)
    ensures r.Success? ==> |r.value| == |state| && Sum(r.value) == Sum(state)
    ensures r.Failure? ==>
      && (r.error.NoNeighbours? || r.error.NodeOutOfRange?)
      && r.error.round == round
      && r.error.node < |nbrs|
      && !CanStep(nbrs, pick, round, r.error.node)
      && forall k :: 0 <= k < r.error.node ==> CanStep(nbrs, pick, round, k)
  {
    Turns(state, nbrs, pick, round, |nbrs|)
  }

  /** Whether every node can take its turn in each of the first `rounds`
      rounds. */
  predicate AllCanStep(nbrs: seq<seq<nat>>, pick: (nat, nat) -> nat, rounds: nat) {
    forall i :: 0 <= i < rounds ==> RoundOk(nbrs, pick, i)
  }

  /** When every neighbour index is a node, the draw does not matter: every
      node can take its turn in a round exactly when every node has a
      neighbour. */
  lemma RoundOkIndicesInRange(nbrs: seq<seq<nat>>, pick: (nat, nat) -> nat, round: nat)
    requires forall n, j :: 0 <= n < |nbrs| && 0 <= j < |nbrs[n]| ==> nbrs[n][j] < |nbrs|
    ensures RoundOk(nbrs, pick, round) <==> forall n :: 0 <= n < |nbrs| ==> |nbrs[n]| > 0
  {
    if forall n :: 0 <= n < |nbrs| ==> |nbrs[n]| > 0 {
      forall k | 0 <= k < |nbrs| ensures CanStep(nbrs, pick, round, k) {
        var d := Dest(nbrs, k, pick(round, k));
        assert d < |nbrs|;
      }
    } else {
      var n :| 0 <= n < |nbrs| && |nbrs[n]| == 0;
      assert !CanStep(nbrs, pick, round, n);
    }
  }

  /** ... and so in every one of a run's rounds exactly when there are no
      rounds or every node has a neighbour. */
  lemma AllCanStepIndicesInRange(nbrs: seq<seq<nat>>, pick: (nat, nat) -> nat, rounds: nat)
    requires forall n, j :: 0 <= n < |nbrs| && 0 <= j < |nbrs[n]| ==> nbrs[n][j] < |nbrs|
    ensures AllCanStep(nbrs, pick, rounds) <==> rounds == 0 || forall n :: 0 <= n < |nbrs| ==> |nbrs[n]| > 0
  {
    if rounds > 0 {
      RoundOkIndicesInRange(nbrs, pick, 0);
    }
    forall i | 0 <= i < rounds ensures RoundOk(nbrs, pick, i) <==> RoundOk(nbrs, pick, 0) {
      RoundOkIndicesInRange(nbrs, pick, i);
      RoundOkIndicesInRange(nbrs, pick, 0);
    }
  }

  /** The rows a script has written — one per completed round, in order —
      and whether it then ended normally or raised. */
  datatype Trace = Trace(rows: seq<seq<real>>, outcome: Outcome<SimError>)

  /** The values after the last completed round. */
  function Last(state: seq<real>, rows: seq<seq<real>>): seq<real> {
    if |rows| == 0 then state else rows[|rows| - 1]
  }

  /** `rounds` rounds, each followed by `save_to_file` of the values. A
      round that fails raises before its row is written, so the trace keeps
      every row of the rounds before it and reports the error of the first
      round some node cannot take its turn in. Whether and where the run
      fails does not depend on the values, only on the neighbour lists and
      the draws; every row written is as long as the state and has the same
      sum. */
  function Rounds(state: seq<real>, nbrs: seq<seq<nat>>, pick: (nat, nat) -> nat, rounds: nat): (r: Trace)
    requires |state| == |nbrs|
    ensures r.outcome.Pass? <==> AllCanStep(nbrs, pick, rounds)
    ensures r.outcome.Pass? ==> |r.rows| == rounds
    ensures forall i :: 0 <= i < |r.rows| ==> RoundOk(nbrs, pick, i)
    ensures forall i :: 0 <= i < |r.rows| ==> |r.rows[i]| == |state| && Sum(r.rows[i]) == Sum(state)
    ensures |r.rows| > 0 ==> Round(state, nbrs, pick, 0) == Success(r.rows[0])
    ensures forall i :: 0 < i < |r.rows| ==> Round(r.rows[i - 1], nbrs, pick, i) == Success(r.rows[i])
    ensures r.outcome.Fail? ==>
      && |r.rows| < rounds
      && !RoundOk(nbrs, pick, |r.rows|)
      && Round(Last(state, r.rows), nbrs, pick, |r.rows|) == Failure(r.outcome.error)
    decreases rounds
  {
    if rounds == 0 then Trace([], Pass)
    else
      var t := Rounds(state, nbrs, pick, rounds - 1);
      if t.outcome.Fail? then t
      else
        match Round(Last(state, t.rows), nbrs, pick, rounds - 1)
        case Failure(e) => Trace(t.rows, Fail(e))
        case Success(next) => Trace(t.rows + [next], Pass)
  }

  /** When every neighbour index is a node, a failing run fails in its very
      first round, before any row is written, on a node without neighbours. */
  lemma RoundsIndicesInRange(state: seq<real>, nbrs: seq<seq<nat>>, pick: (nat, nat) -> nat, rounds: nat)
    requires |state| == |nbrs|
    requires forall n, j :: 0 <= n < |nbrs| && 0 <= j < |nbrs[n]| ==> nbrs[n][j] < |nbrs|
    ensures Rounds(state, nbrs, pick, rounds).outcome.Fail? ==>
      Rounds(state, nbrs, pick, rounds).rows == [] && Rounds(state, nbrs, pick, rounds).outcome.error.NoNeighbours?
  {
    var r := Rounds(state, nbrs, pick, rounds);
    RoundOkIndicesInRange(nbrs, pick, |r.rows|);
    RoundOkIndicesInRange(nbrs, pick, 0);
  }

  /** Every value of every round stays within the bounds of the initial
      values: averaging never leaves their range. */
  lemma {:induction false} TurnsWithin(state: seq<real>, nbrs: seq<seq<nat>>, pick: (nat, nat) -> nat, round: nat, n: nat, lo: real, hi: real)
    requires |state| == |nbrs| && n <= |nbrs|
    requires Within(lo, hi, state)
    requires Turns(state, nbrs, pick, round, n).Success?
    ensures Within(lo, hi, Turns(state, nbrs, pick, round, n).value)
    decreases n
  {
    if n > 0 {
      TurnsWithin(state, nbrs, pick, round, n - 1, lo, hi);
      var s := Turns(state, nbrs, pick, round, n - 1).value;
      StepWithin(s, n - 1, Dest(nbrs, n - 1, pick(round, n - 1)), lo, hi);
    }
  }

  lemma {:induction false} RoundsWithin(state: seq<real>, nbrs: seq<seq<nat>>, pick: (nat, nat) -> nat, rounds: nat, lo: real, hi: real)
    requires |state| == |nbrs|
    requires Within(lo, hi, state)
    ensures forall i :: 0 <= i < |Rounds(state, nbrs, pick, rounds).rows| ==> Within(lo, hi, Rounds(state, nbrs, pick, rounds).rows[i])
    decreases rounds
  {
    if rounds > 0 {
      var r := Rounds(state, nbrs, pick, rounds);
      var t := Rounds(state, nbrs, pick, rounds - 1);
      RoundsWithin(state, nbrs, pick, rounds - 1, lo, hi);
      if t.outcome.Pass? && RoundOk(nbrs, pick, rounds - 1) {
        var prev := Last(state, t.rows);
        assert Within(lo, hi, prev);
        TurnsWithin(prev, nbrs, pick, rounds - 1, |nbrs|, lo, hi);
        assert r.rows == t.rows + [Round(prev, nbrs, pick, rounds - 1).value];
      } else {
        assert r.rows == t.rows;
      }
    }
  }
}
