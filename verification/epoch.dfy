/** The epoch controller of the gossip daemon (`GossipEpoch` in gossip.py): a
    round counter tied to absolute wall-clock deadlines. The wall clock is the
    `now` argument of each call: the instant `time.time()` returns inside that
    call. Sleeping is not modelled; a call that would sleep succeeds. */
module Epoch {
  import opened Wrappers

  /** Start time (seconds since the epoch; 0 means "start now"), number of
      rounds, round length in seconds, and the current round counter. */
  datatype Controller = Controller(startTime: real, maxEpoch: int, duration: int, epoch: int)

  datatype EpochError =
    | StartTimeOver   // `start` found its start time already in the past
    | DeadlineMissed  // `next_epoch` found the round deadline already passed

  /** The controller after a call, and whether the call raised. Both `start`
      and `next_epoch` change the controller before they may raise. */
  datatype Step = Step(ctl: Controller, outcome: Outcome<EpochError>)

  /** A new controller, as `GossipEpoch.__init__` builds it. */
  function Create(startTime: real, maxEpoch: int, duration: int): (c: Controller)
    ensures c.epoch == 0
    ensures c.startTime == startTime && c.maxEpoch == maxEpoch && c.duration == duration
    ensures LastEpochReached(c) <==> maxEpoch <= 0
  {
    Controller(startTime, maxEpoch, duration, 0)
  }

  /** `last_epoch_reached`: false while the counter is below the maximum,
      true from the moment it reaches or passes it. */
  function LastEpochReached(c: Controller): (b: bool)
    ensures b <==> c.maxEpoch <= c.epoch
  {
    !(c.epoch < c.maxEpoch)
  }

  /** The absolute instant round `c.epoch` is scheduled to begin. */
  function Deadline(c: Controller): real {
    (c.epoch * c.duration) as real + c.startTime
  }

  /** `start`: a start time of 0 means "begin now" and records `now` as the
      start time; otherwise the controller is left as it is, and the call
      fails unless the start time is still in the future. */
  function Start(c: Controller, now: real): (r: Step)
    ensures r.ctl.epoch == c.epoch && r.ctl.maxEpoch == c.maxEpoch && r.ctl.duration == c.duration
    ensures c.startTime == 0.0 ==> r.ctl.startTime == now && r.outcome == Pass
    ensures c.startTime != 0.0 ==> r.ctl == c
    ensures c.startTime != 0.0 ==> (r.outcome.Fail? <==> c.startTime <= now)
    ensures r.outcome.Fail? ==> r.outcome.error == StartTimeOver
  {
    if c.startTime == 0.0 then
      Step(c.(startTime := now), Pass)
    else
      var timeToWait := c.startTime - now;
      if timeToWait > 0.0 then Step(c, Pass) else Step(c, Fail(StartTimeOver))
  }

  /** `next_epoch`: the counter goes up by exactly one whether or not the call
      fails, and it fails exactly when the deadline of the round the counter
      named BEFORE the increment is not in the future. */
  function NextEpoch(c: Controller, now: real): (r: Step)
    ensures r.ctl == c.(epoch := c.epoch + 1)
    ensures r.outcome.Fail? <==> Deadline(c) <= now
    ensures r.outcome.Fail? ==> r.outcome.error == DeadlineMissed
  {
    var sleepTime := Deadline(c) - now;
    var advanced := c.(epoch := c.epoch + 1);
    if sleepTime > 0.0 then Step(advanced, Pass) else Step(advanced, Fail(DeadlineMissed))
  }

  /** `stop`: jump to the last round, whatever the counter was. */
  function Stop(c: Controller): (r: Controller)
    ensures r.epoch == c.maxEpoch
    ensures LastEpochReached(r)
    ensures r.startTime == c.startTime && r.maxEpoch == c.maxEpoch && r.duration == c.duration
  {
    c.(epoch := c.maxEpoch)
  }

  /** A second `stop` changes nothing. */
  lemma StopIdempotent(c: Controller)
    ensures Stop(Stop(c)) == Stop(c)
  {
  }

  /** The steps of successive `next_epoch` calls made at the given instants. */
  function NextEpochs(c: Controller, times: seq<real>): seq<Step>
    decreases |times|
  {
    if |times| == 0 then []
    else
      var s := NextEpoch(c, times[0]);
      [s] + NextEpochs(s.ctl, times[1..])
  }

  /** The schedule is anchored to the start time: the i-th of successive
      `next_epoch` calls leaves the counter at its initial value plus i + 1,
      and it fails exactly when its instant is at or past the deadline of
      round `epoch + i` — no matter how late the earlier calls were. */
  lemma {:induction false} NextEpochsSchedule(c: Controller, times: seq<real>)
    ensures |NextEpochs(c, times)| == |times|
    ensures forall i :: 0 <= i < |times| ==>
      NextEpochs(c, times)[i].ctl == c.(epoch := c.epoch + i + 1)
    ensures forall i :: 0 <= i < |times| ==>
      (NextEpochs(c, times)[i].outcome.Fail? <==> Deadline(c.(epoch := c.epoch + i)) <= times[i])
    decreases |times|
  {
    if |times| > 0 {
      var s := NextEpoch(c, times[0]);
      var rest := NextEpochs(s.ctl, times[1..]);
      NextEpochsSchedule(s.ctl, times[1..]);
      assert NextEpochs(c, times) == [s] + rest;
      forall i | 1 <= i < |times|
        ensures NextEpochs(c, times)[i] == rest[i - 1]
        ensures (c.epoch + 1) + (i - 1) == c.epoch + i
      {
      }
    }
  }

  /** Because the first round's deadline is the start time itself, the first
      `next_epoch` after a successful `start` fails whenever it runs no
      earlier than the instant `start` returned at (the start time). */
  lemma FirstNextEpochAfterStartFails(c: Controller, startedAt: real, now: real)
    requires c.epoch == 0
    requires Start(c, startedAt).outcome == Pass
    requires now >= Start(c, startedAt).ctl.startTime
    ensures NextEpoch(Start(c, startedAt).ctl, now).outcome == Fail(DeadlineMissed)
  {
  }
}
