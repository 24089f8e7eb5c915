/** What the expiry scheduler promises, on values: which tick an expiry belongs to, what
    validating a fired hint does, and what that conserves. */
module Expiry {
  import opened Arithmetic
  import opened WheelState

  datatype KeyId = KeyId(shard: int, name: string)

  /** The resident keys and the expiry of each, in nanoseconds; 0 means no expiry. */
  type Expiries = map<KeyId, int>

  function IdOf(h: Hint): KeyId {
    KeyId(h.shard, h.key)
  }

  /** `step` is the tick length and `epoch` the instant of tick 0, in nanoseconds;
      `limit` is the most hints one tick validates, 0 for no limit. */
  datatype Config = Config(step: int, epoch: int, limit: nat)

  ghost predicate ValidConfig(c: Config) {
    c.step > 0
  }

  /** The first tick at or after an expiry. */
  function TickFor(c: Config, expireAt: int): nat
    requires ValidConfig(c)
  {
    var delta := expireAt - c.epoch;
    if delta <= 0 then 0
    else
      QuotientNonNegative(delta, c.step);
      delta / c.step + if delta % c.step != 0 then 1 else 0
  }

  lemma QuotientNonNegative(n: int, d: int)
    requires n >= 0 && d > 0
    ensures n / d >= 0
  {
  }

  /** The instant at which a tick falls due. */
  function Deadline(c: Config, tick: int): int {
    c.epoch + tick * c.step
  }

  lemma DeadlineStep(c: Config, k: int)
    ensures Deadline(c, k + 1) == Deadline(c, k) + c.step
  {
  }

  /** Rounding up: a hint never fires before its expiry, and never a whole tick late. */
  lemma NeverEarly(c: Config, expireAt: int)
    requires ValidConfig(c) && expireAt > c.epoch
    ensures Deadline(c, TickFor(c, expireAt)) >= expireAt > Deadline(c, TickFor(c, expireAt) - 1)
  {
    var delta := expireAt - c.epoch;
    var q, r := delta / c.step, delta % c.step;
    assert delta == q * c.step + r;
    assert (q + 1) * c.step == q * c.step + c.step;
    assert (q - 1) * c.step == q * c.step - c.step;
  }

  /** The tick of an expiry is the only one with that property. */
  lemma TickForIsLeast(c: Config, expireAt: int, k: nat)
    requires ValidConfig(c) && expireAt > c.epoch
    ensures Deadline(c, k) >= expireAt <==> k >= TickFor(c, expireAt)
  {
    hide TickFor;
    NeverEarly(c, expireAt);
    var t := TickFor(c, expireAt);
    if k >= t {
      MulOrder(t, k, c.step);
    } else {
      MulOrder(k, t - 1, c.step);
    }
  }

  /** The tick the clock must reach to have caught up with `now`. */
  function LastDue(c: Config, from: nat, now: int): (k: nat)
    requires ValidConfig(c)
    ensures k >= from
  {
    var q := (now - c.epoch) / c.step;
    if q > from then q else from
  }

  lemma DueByQuotient(c: Config, k: int, now: int)
    requires ValidConfig(c)
    ensures Deadline(c, k) <= now <==> k <= (now - c.epoch) / c.step
  {
    var n := now - c.epoch;
    var q, r := n / c.step, n % c.step;
    assert n == q * c.step + r;
    if k <= q {
      MulOrder(k, q, c.step);
    } else {
      MulOrder(q + 1, k, c.step);
      assert (q + 1) * c.step == q * c.step + c.step;
    }
  }

  // ---- The manager's state ----

  datatype Counters = Counters(added: nat, ignored: nat, fired: nat, expired: nat,
                               dropped: nat, reinserted: nat, deferred: nat)

  datatype State = State(current: nat, pending: multiset<Hint>, counters: Counters)

  function Schedule(s: State, h: Hint): State {
    s.(pending := s.pending + multiset{Clamp(h, s.current + 1)})
  }

  function Add(c: Config, s: State, shard: int, key: string, expireAt: int): State
    requires ValidConfig(c)
  {
    if expireAt <= 0 then s.(counters := s.counters.(ignored := s.counters.ignored + 1))
    else
      Schedule(s, Hint(key, TickFor(c, expireAt), shard))
        .(counters := s.counters.(added := s.counters.added + 1))
  }

  /** What the keyspace made of one fired hint: nothing to expire there, an expired entry
      removed, an entry that turned out to be live when its expiry was about to be acted
      on, or an entry that expires later. */
  datatype Outcome = Gone | Removed | Declined | Later(expireAt: int)

  function Settle(c: Config, s: State, h: Hint, o: Outcome): State
    requires ValidConfig(c)
  {
    var n := s.counters.(fired := s.counters.fired + 1);
    match o
    case Gone => s.(counters := n.(dropped := n.dropped + 1))
    case Declined => s.(counters := n.(dropped := n.dropped + 1))
    case Removed => s.(counters := n.(expired := n.expired + 1))
    case Later(e) =>
      Schedule(s, h.(tick := TickFor(c, e))).(counters := n.(reinserted := n.reinserted + 1))
  }

  function SettleAll(c: Config, s: State, hs: seq<Hint>, os: seq<Outcome>): (r: State)
    requires ValidConfig(c) && |hs| == |os|
    ensures r.current == s.current
  {
    if hs == [] then s
    else
      var n := |hs| - 1;
      Settle(c, SettleAll(c, s, hs[..n], os[..n]), hs[n], os[n])
  }

  function DeferAll(s: State, hs: seq<Hint>): (r: State)
    ensures r.current == s.current && r.counters == s.counters
  {
    if hs == [] then s
    else
      var n := |hs| - 1;
      var r := DeferAll(s, hs[..n]);
      r.(pending := r.pending + multiset{hs[n].(tick := s.current + 1)})
  }

  /** How many of `n` fired hints one tick validates. */
  function Batch(c: Config, n: nat): (k: nat)
    ensures k <= n
  {
    if c.limit > 0 && n > c.limit then c.limit else n
  }

  /** One tick after the wheels have been advanced: the hints past the limit go to the
      next tick, the others are settled. */
  function Process(c: Config, s: State, fired: seq<Hint>, os: seq<Outcome>): State
    requires ValidConfig(c) && |os| == Batch(c, |fired|)
  {
    var k := Batch(c, |fired|);
    var s := DeferAll(s, fired[k..]);
    SettleAll(c, s.(counters := s.counters.(deferred := s.counters.deferred + |fired| - k)), fired[..k], os)
  }

  // ---- Conservation ----

  /** Every hint accepted is pending, in hand, expired or dropped, and every hint
      validated was expired, dropped or scheduled again. */
  ghost predicate Conserved(s: State, inHand: nat) {
    var n := s.counters;
    && n.added == |s.pending| + inHand + n.expired + n.dropped
    && n.fired == n.expired + n.dropped + n.reinserted
  }

  lemma {:induction false} SettleAllConserves(c: Config, s: State, hs: seq<Hint>, os: seq<Outcome>)
    requires ValidConfig(c) && |hs| == |os|
    requires Conserved(s, |hs|)
    ensures Conserved(SettleAll(c, s, hs, os), 0)
  {
    SettleAllCounts(c, s, hs, os);
  }

  lemma {:induction false} SettleAllCounts(c: Config, s: State, hs: seq<Hint>, os: seq<Outcome>)
    requires ValidConfig(c) && |hs| == |os|
    ensures var r := SettleAll(c, s, hs, os);
            && r.counters.added == s.counters.added
            && r.counters.fired == s.counters.fired + |hs|
            && |r.pending| + r.counters.expired + r.counters.dropped
               == |s.pending| + s.counters.expired + s.counters.dropped + |hs|
            && r.counters.expired + r.counters.dropped + r.counters.reinserted
               == s.counters.expired + s.counters.dropped + s.counters.reinserted + |hs|
  {
    if hs != [] {
      var n := |hs| - 1;
      SettleAllCounts(c, s, hs[..n], os[..n]);
    }
  }

  lemma {:induction false} DeferAllCounts(s: State, hs: seq<Hint>)
    ensures |DeferAll(s, hs).pending| == |s.pending| + |hs|
  {
    if hs != [] {
      DeferAllCounts(s, hs[..|hs| - 1]);
    }
  }

  /** Whatever the keyspace answers and however many hints are deferred, a tick that took
      `fired` off the wheels leaves the books balanced. */
  lemma ProcessConserves(c: Config, s: State, fired: seq<Hint>, os: seq<Outcome>)
    requires ValidConfig(c) && |os| == Batch(c, |fired|)
    requires Conserved(s, |fired|)
    ensures Conserved(Process(c, s, fired, os), 0)
    ensures Process(c, s, fired, os).counters.fired == s.counters.fired + |os|
  {
    var k := Batch(c, |fired|);
    DeferAllCounts(s, fired[k..]);
    var s' := DeferAll(s, fired[k..]);
    var s'' := s'.(counters := s'.counters.(deferred := s'.counters.deferred + |fired| - k));
    SettleAllConserves(c, s'', fired[..k], os);
    SettleAllCounts(c, s'', fired[..k], os);
  }

  // ---- The keyspace, when nothing else touches it during the tick ----

  function OutcomeOf(ks: Expiries, id: KeyId, now: int): Outcome {
    if id !in ks || ks[id] == 0 then Gone
    else if now > ks[id] then Removed
    else Later(ks[id])
  }

  function AfterOne(ks: Expiries, id: KeyId, now: int): Expiries {
    if OutcomeOf(ks, id, now) == Removed then ks - {id} else ks
  }

  function AfterAll(ks: Expiries, hs: seq<Hint>, now: int): Expiries {
    if hs == [] then ks
    else AfterOne(AfterAll(ks, hs[..|hs| - 1], now), IdOf(hs[|hs| - 1]), now)
  }

  function OutcomesOf(ks: Expiries, hs: seq<Hint>, now: int): (os: seq<Outcome>)
    ensures |os| == |hs|
  {
    if hs == [] then []
    else
      var n := |hs| - 1;
      OutcomesOf(ks, hs[..n], now) + [OutcomeOf(AfterAll(ks, hs[..n], now), IdOf(hs[n]), now)]
  }
}
