/** The error budget of the active role (`ActiveGossipThread.run` in
    gossip.py), as a loop over what each pass of its body runs into. The
    socket calls, the lock and the random pick of a neighbour are not
    modelled: each pass is summarised by an `Outcome` the environment
    supplies, and the loop state is the epoch controller and the error
    counter. */
module ActiveRole {
  import Epoch

  /** What one pass of the loop body runs into. */
  datatype Outcome =
      /** The exchange went through; `next_epoch` is then called at `now`
          and may itself raise. */
    | Exchanged(now: real)
      /** A `socket.error`, timeouts included: the handler calls
          `next_epoch` at `now`, then re-raises. */
    | SocketFailure(now: real)
      /** Any other exception, raised before `next_epoch` is reached. */
    | OtherFailure

  /** The epoch controller, the error counter and the error limit
      (`threads.max_error`). */
  datatype Role = Role(ctl: Epoch.Controller, errors: int, maxError: int)

  /** The role as `run` starts it: no errors counted yet. */
  function Start(ctl: Epoch.Controller, maxError: int): (r: Role)
    ensures r.ctl == ctl && r.errors == 0 && r.maxError == maxError
  {
    Role(ctl, 0, maxError)
  }

  /** The bare `except:` handler: count the error while the counter is below
      the limit; the error that finds it at the limit stops the controller. */
  function OnError(r: Role): (r': Role)
    ensures r'.maxError == r.maxError
    ensures r.errors < r.maxError ==> r'.errors == r.errors + 1 && r'.ctl == r.ctl
    ensures r.errors >= r.maxError ==> r'.errors == r.errors && Epoch.LastEpochReached(r'.ctl)
    ensures r'.ctl.maxEpoch == r.ctl.maxEpoch
  {
    if r.errors < r.maxError then r.(errors := r.errors + 1) else r.(ctl := Epoch.Stop(r.ctl))
  }

  /** Whether a pass ends in the exception handler: every failure does, and
      so does an exchange whose `next_epoch` misses its deadline. */
  predicate Fails(ctl: Epoch.Controller, o: Outcome) {
    match o
    case Exchanged(now) => Epoch.NextEpoch(ctl, now).outcome.Fail?
    case SocketFailure(_) => true
    case OtherFailure => true
  }

  /** One pass of the loop body. An exchange and a socket failure both move
      the counter one round on; a pass that fails is counted against the
      budget, or stops the controller once the budget is spent; a pass that
      does not fail leaves the error counter alone. */
  function Iterate(r: Role, o: Outcome): (r': Role)
    ensures r'.maxError == r.maxError && r'.ctl.maxEpoch == r.ctl.maxEpoch
    ensures !Fails(r.ctl, o) ==> r'.errors == r.errors && r'.ctl.epoch == r.ctl.epoch + 1
    ensures Fails(r.ctl, o) && r.errors < r.maxError ==> r'.errors == r.errors + 1
    ensures Fails(r.ctl, o) && r.errors >= r.maxError ==> Epoch.LastEpochReached(r'.ctl)
    ensures Fails(r.ctl, o) && r.errors < r.maxError ==>
      r'.ctl.epoch == (if o.OtherFailure? then r.ctl.epoch else r.ctl.epoch + 1)
  {
    match o
    case Exchanged(now) =>
      var step := Epoch.NextEpoch(r.ctl, now);
      if step.outcome.Pass? then r.(ctl := step.ctl) else OnError(r.(ctl := step.ctl))
    case SocketFailure(now) =>
      OnError(r.(ctl := Epoch.NextEpoch(r.ctl, now).ctl))
    case OtherFailure =>
      OnError(r)
  }

  function Clip(n: int): nat {
    if n < 0 then 0 else n
  }

  /** Passes the loop can still run: every pass either moves the counter
      towards the last round, spends one unit of the error budget, or stops
      the controller. */
  function Measure(r: Role): nat {
    if Epoch.LastEpochReached(r.ctl) then 0
    else Clip(r.ctl.maxEpoch - r.ctl.epoch) + Clip(r.maxError - r.errors) + 1
  }

  /** Every pass of a running loop decreases the measure. */
  lemma IterateDecreases(r: Role, o: Outcome)
    requires !Epoch.LastEpochReached(r.ctl)
    ensures Measure(Iterate(r, o)) < Measure(r)
  {
  }

  /** The loop, as a function of the outcome of each pass: `env(i)` is what
      pass `i` runs into. Returns the final role and the number of passes. */
  function Loop(r: Role, env: nat -> Outcome, i: nat): (Role, nat)
    decreases Measure(r)
  {
    if Epoch.LastEpochReached(r.ctl) then (r, i)
    else
      IterateDecreases(r, env(i));
      Loop(Iterate(r, env(i)), env, i + 1)
  }

  /** `ActiveGossipThread.run`: loop until the last round is reached. It
      always terminates, whatever the outcomes, after at most
      (rounds left) + (error budget left) + 1 passes — for a fresh role on a
      fresh controller, at most max_epoch + max_error + 1. It ends with the
      controller at its last round; the counter ends exactly at the maximum
      when it started at or below it; errors are only ever counted up, and
      never beyond the limit. */
  method Run(role: Role, env: nat -> Outcome) returns (final: Role, passes: nat)
    ensures (final, passes) == Loop(role, env, 0)
    ensures Epoch.LastEpochReached(final.ctl)
    ensures passes <= Clip(role.ctl.maxEpoch - role.ctl.epoch) + Clip(role.maxError - role.errors) + 1
    ensures role.ctl.epoch <= role.ctl.maxEpoch ==> final.ctl.epoch == role.ctl.maxEpoch
    ensures role.errors <= final.errors
    ensures role.errors <= role.maxError ==> final.errors <= role.maxError
  {
    var r := role;
    passes := 0;
    while !Epoch.LastEpochReached(r.ctl)
      invariant Loop(r, env, passes) == Loop(role, env, 0)
      invariant passes + Measure(r) <= Measure(role)
      invariant r.maxError == role.maxError && r.ctl.maxEpoch == role.ctl.maxEpoch
      invariant role.ctl.epoch <= role.ctl.maxEpoch ==> r.ctl.epoch <= r.ctl.maxEpoch
      invariant role.errors <= r.errors
      invariant role.errors <= role.maxError ==> r.errors <= role.maxError
      decreases Measure(r)
    {
      IterateDecreases(r, env(passes));
      r := Iterate(r, env(passes));
      passes := passes + 1;
    }
    final := r;
  }

  /** The passes of the loop for a finite list of outcomes: stops consuming
      them once the last round is reached. */
  function Passes(r: Role, os: seq<Outcome>): Role
    decreases |os|
  {
    if |os| == 0 || Epoch.LastEpochReached(r.ctl) then r
    else Passes(Iterate(r, os[0]), os[1..])
  }

  function Repeat(o: Outcome, n: nat): (os: seq<Outcome>)
    ensures |os| == n && forall i :: 0 <= i < n ==> os[i] == o
  {
    seq(n, _ => o)
  }

  /** Failures that do not reach `next_epoch` only spend the error budget:
      while it lasts, n of them leave the role running with n more errors. */
  lemma {:induction false} FailuresWithinBudget(r: Role, n: nat)
    requires !Epoch.LastEpochReached(r.ctl)
    requires r.errors + n <= r.maxError
    ensures Passes(r, Repeat(OtherFailure, n)) == r.(errors := r.errors + n)
    decreases n
  {
    if n > 0 {
      var next := Iterate(r, OtherFailure);
      assert next == r.(errors := r.errors + 1);
      assert Repeat(OtherFailure, n)[1..] == Repeat(OtherFailure, n - 1);
      FailuresWithinBudget(next, n - 1);
    }
  }

  /** With an error limit of L, a running role with no errors counted
      survives L consecutive failures and is stopped by failure L + 1. */
  lemma BudgetExhaustion(r: Role)
    requires !Epoch.LastEpochReached(r.ctl)
    requires r.errors == 0 && r.maxError >= 0
    ensures !Epoch.LastEpochReached(Passes(r, Repeat(OtherFailure, r.maxError)).ctl)
    ensures Epoch.LastEpochReached(Passes(r, Repeat(OtherFailure, r.maxError + 1)).ctl)
  {
    var l := r.maxError;
    FailuresWithinBudget(r, l);
    var spent := r.(errors := l);
    assert Repeat(OtherFailure, l + 1) == Repeat(OtherFailure, l) + [OtherFailure];
    PassesAppend(r, Repeat(OtherFailure, l), [OtherFailure]);
    assert Passes(spent, [OtherFailure]) == Iterate(spent, OtherFailure);
  }

  lemma {:induction false} PassesAppend(r: Role, os: seq<Outcome>, more: seq<Outcome>)
    ensures Passes(r, os + more) == Passes(Passes(r, os), more)
    decreases |os|
  {
    if |os| > 0 && !Epoch.LastEpochReached(r.ctl) {
      assert (os + more)[1..] == os[1..] + more;
      PassesAppend(Iterate(r, os[0]), os[1..], more);
    } else if |os| == 0 {
      assert os + more == more;
    } else {
      assert Passes(r, os) == r;
      if |more| > 0 {
        assert Passes(r, os + more) == r;
      }
    }
  }
}
