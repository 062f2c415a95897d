/** The state store of the gossip daemon (`GossipState` in gossip.py): the
    local estimate, its append-only history, and the lock the two roles take
    around an exchange. The model is sequential, so the lock is an explicit
    flag: taking a held lock would block forever, which is a precondition of
    `GetAndAcquire`; releasing a free one raises, after the update is done. */
module StateStore {
  import opened Wrappers
  import opened Aggregation
  import Epoch

  /** One history row: the controller's round, the wall-clock time, the new
      estimate. */
  datatype Entry = Entry(epoch: int, time: real, value: real)

  datatype Store = Store(value: real, history: seq<Entry>, locked: bool)

  datatype StoreError = ReleaseUnlocked  // `threading.Lock.release` on a free lock

  /** The store after `update_and_release`, and the new estimate it returns
      or the error it raises once the update is already made. */
  datatype Updated = Updated(store: Store, result: Result<real, StoreError>)

  /** A new store, as `GossipState.__init__` builds it. */
  function Create(initial: real): (s: Store)
    ensures s.value == initial && s.history == [] && !s.locked
  {
    Store(initial, [], false)
  }

  /** `get_and_acquire`: takes the lock and returns the estimate, changing
      nothing else. */
  function GetAndAcquire(s: Store): (r: (real, Store))
    requires !s.locked
    ensures r.0 == s.value
    ensures r.1.locked && r.1.value == s.value && r.1.history == s.history
  {
    (s.value, s.(locked := true))
  }

  /** `update_and_release(received, epoch)`: the estimate becomes the mean of
      the old estimate and the received one, exactly one history row is
      appended — stamped with the controller's current round, not with the
      `epoch` argument, which is ignored — earlier rows are untouched, and
      the lock ends up free. It returns the new estimate when the lock was
      held and raises otherwise. */
  function UpdateAndRelease(s: Store, received: real, epoch: int, ctl: Epoch.Controller, now: real): (r: Updated)
    ensures r.store.value - s.value == received - r.store.value
    ensures |r.store.history| == |s.history| + 1
    ensures r.store.history[..|s.history|] == s.history
    ensures r.store.history[|s.history|] == Entry(ctl.epoch, now, r.store.value)
    ensures !r.store.locked
    ensures r.result.Success? <==> s.locked
    ensures r.result.Success? ==> r.result.value == r.store.value
  {
    var value := Average(s.value, received);
    var updated := Store(value, s.history + [Entry(ctl.epoch, now, value)], false);
    if s.locked then Updated(updated, Success(value)) else Updated(updated, Failure(ReleaseUnlocked))
  }

  /** The `epoch` argument of `update_and_release` has no effect. */
  lemma UpdateIgnoresEpochArgument(s: Store, received: real, e1: int, e2: int, ctl: Epoch.Controller, now: real)
    ensures UpdateAndRelease(s, received, e1, ctl, now) == UpdateAndRelease(s, received, e2, ctl, now)
  {
  }

  /** One completed exchange: the value received from the peer, the epoch
      controller as it stood, and the wall-clock time of the update. */
  datatype Exchange = Exchange(received: real, ctl: Epoch.Controller, now: real)

  function Received(xs: seq<Exchange>): seq<real> {
    seq(|xs|, i requires 0 <= i < |xs| => xs[i].received)
  }

  /** The store after one `get_and_acquire`/`update_and_release` pair per
      exchange, in order. */
  function Exchanges(s: Store, xs: seq<Exchange>): (r: Store)
    requires !s.locked
    ensures !r.locked
    decreases |xs|
  {
    if |xs| == 0 then s
    else
      var x := xs[|xs| - 1];
      var held := GetAndAcquire(Exchanges(s, xs[..|xs| - 1])).1;
      UpdateAndRelease(held, x.received, x.ctl.epoch, x.ctl, x.now).store
  }

  /** The last exchange appends one row to the history of the ones before. */
  lemma ExchangesLast(s: Store, xs: seq<Exchange>)
    requires !s.locked && |xs| > 0
    ensures Exchanges(s, xs).value == Average(Exchanges(s, xs[..|xs| - 1]).value, xs[|xs| - 1].received)
    ensures Exchanges(s, xs).history
      == Exchanges(s, xs[..|xs| - 1]).history + [Entry(xs[|xs| - 1].ctl.epoch, xs[|xs| - 1].now, Exchanges(s, xs).value)]
  {
  }

  /** The estimate after the exchanges is the left fold of pairwise
      averaging over the received values, in order. */
  lemma {:induction false} ExchangesValue(s: Store, xs: seq<Exchange>)
    requires !s.locked
    ensures Exchanges(s, xs).value == FoldAverage(s.value, Received(xs))
    decreases |xs|
  {
    if |xs| > 0 {
      var n := |xs| - 1;
      ExchangesValue(s, xs[..n]);
      ExchangesLast(s, xs);
      assert Received(xs[..n]) == Received(xs)[..n];
    }
  }

  /** The history rows n exchanges should add: the k-th records the k-th
      exchange's round and time and the left fold of averaging over the
      first k + 1 received values. */
  function Rows(init: real, xs: seq<Exchange>): (rows: seq<Entry>)
    ensures |rows| == |xs|
  {
    seq(|xs|, k requires 0 <= k < |xs| => Entry(xs[k].ctl.epoch, xs[k].now, FoldAverage(init, Received(xs[..k + 1]))))
  }

  lemma RowsSnoc(init: real, xs: seq<Exchange>)
    requires |xs| > 0
    ensures Rows(init, xs) == Rows(init, xs[..|xs| - 1]) + [Rows(init, xs)[|xs| - 1]]
  {
    var n := |xs| - 1;
    forall k | 0 <= k < n
      ensures Rows(init, xs)[k] == Rows(init, xs[..n])[k]
    {
      assert xs[..n][..k + 1] == xs[..k + 1];
    }
  }

  /** After n exchanges the history is the old history followed by exactly n
      new rows — so the old rows are unchanged — where the k-th new row
      records the k-th exchange's round and time and the estimate after it;
      and the estimate is the left fold of pairwise averaging over the
      received values: none lost, none applied twice. */
  lemma {:induction false} ExchangesFold(s: Store, xs: seq<Exchange>)
    requires !s.locked
    ensures Exchanges(s, xs).history == s.history + Rows(s.value, xs)
    ensures |Exchanges(s, xs).history| == |s.history| + |xs|
    ensures Exchanges(s, xs).history[..|s.history|] == s.history
    ensures Exchanges(s, xs).value == FoldAverage(s.value, Received(xs))
    decreases |xs|
  {
    ExchangesValue(s, xs);
    if |xs| > 0 {
      var n := |xs| - 1;
      ExchangesFold(s, xs[..n]);
      ExchangesLast(s, xs);
      RowsSnoc(s.value, xs);
      assert xs[..n + 1] == xs;
    }
  }
}
