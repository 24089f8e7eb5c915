/** The expiry manager: wheels striped by shard, advanced together by one tick loop, and
    the validation of every hint that fires against the keyspace. */
module TtlManager {
  import opened Arithmetic
  import opened SeqSums
  import opened WheelState
  import opened Expiry
  import EngineCore
  import NoLeak
  import TimeWheel

  /** An entry that was removed for having expired: when it expired, and when that was seen. */
  datatype Removal = Removal(id: KeyId, expireAt: int, clock: int)

  /** Nothing was removed before its time. */
  ghost predicate Punctual(removals: seq<Removal>) {
    forall r | r in removals :: r.expireAt != 0 && r.clock > r.expireAt
  }

  /** `n` more entries have been removed, none of them before its time. */
  ghost predicate Grew(was: seq<Removal>, now: seq<Removal>, n: int) {
    was <= now && |now| == |was| + n && (Punctual(was) ==> Punctual(now))
  }

  lemma GrewNone(rs: seq<Removal>)
    ensures Grew(rs, rs, 0)
  {
  }

  lemma GrewOn(a: seq<Removal>, b: seq<Removal>, c: seq<Removal>, m: int, n: int)
    requires Grew(a, b, m) && Grew(b, c, n)
    ensures Grew(a, c, m + n)
  {
  }

  /** What the manager sees of the storage engine.  When the engine is shared, other
      goroutines may change the entries between any two calls. */
  class Keyspace {
    const engine: EngineCore.Engine
    /** What the manager has removed. */
    ghost var removals: seq<Removal>

    constructor (engine: EngineCore.Engine)
      ensures this.engine == engine && removals == []
    {
      this.engine := engine;
      removals := [];
    }

    ghost predicate Valid()
      reads engine`uses, engine`keys, engine.memory`used, engine.shards
    {
      engine.Valid()
    }

    /** A closed engine reports every key as gone. */
    ghost function Entries(): Expiries
      reads engine`keys, engine`closed
    {
      if engine.closed then map[] else engine.keys
    }

    /** None of these objects belongs to the engine. */
    ghost predicate Apart(objects: set<object>) {
      this !in objects && engine !in objects && engine.memory !in objects && forall s | s in engine.shards :: s !in objects
    }

    /** Looks a fired hint up, and acts on it when its key is expired.  Whatever happens in
        between, what is removed has expired when it is removed. */
    method Judge(h: Hint, now: int) returns (o: Outcome)
      requires Valid()
      modifies `removals, engine`uses, engine`keys, engine.memory`used, engine.memory`evictions, engine.shards
      ensures Valid()
      ensures !engine.shared ==> o == OutcomeOf(old(Entries()), IdOf(h), now) && Entries() == AfterOne(old(Entries()), IdOf(h), now)
      ensures o == Removed ==>
                && |removals| == |old(removals)| + 1 && removals[..|old(removals)|] == old(removals)
                && var r := removals[|old(removals)|];
                   r.id == IdOf(h) && r.id !in Entries() && r.expireAt != 0 && r.clock > r.expireAt && r.clock >= now
      ensures o != Removed ==> removals == old(removals)
      ensures old(engine.memory.Within()) ==> engine.memory.Within()
      ensures o.Later? ==> o.expireAt != 0 && now <= o.expireAt
    {
      hide EngineCore.Engine.Valid;
      engine.Interleave();
      var expireAt, present := engine.ExpiryOf(h.shard, h.key);
      if !present || expireAt == 0 {
        o := Gone;
      } else if now > expireAt {
        engine.Interleave();
        // The engine reads its own clock again, which has not gone back.
        var clock: int :| clock >= now;
        ghost var before := Entries();
        var removed := engine.Expire(h.shard, h.key, clock);
        o := if removed then Removed else Declined;
        if removed {
          removals := removals + [Removal(IdOf(h), before[IdOf(h)], clock)];
        }
      } else {
        o := Later(expireAt);
      }
    }
  }

  ghost function Union(helds: seq<multiset<Hint>>): multiset<Hint> {
    if helds == [] then multiset{} else Union(helds[..|helds| - 1]) + helds[|helds| - 1]
  }

  lemma {:induction false} UnionUpdate(helds: seq<multiset<Hint>>, i: nat, m: multiset<Hint>)
    requires i < |helds|
    ensures Union(helds[i := m]) + helds[i] == Union(helds) + m
  {
    var n := |helds| - 1;
    if i == n {
      assert helds[i := m][..n] == helds[..n];
    } else {
      assert helds[i := m][..n] == helds[..n][i := m];
      UnionUpdate(helds[..n], i, m);
      AddToBoth(Union(helds[..n][i := m]), Union(helds[..n]), helds[i], m, helds[n]);
    }
  }

  lemma UnionGrows(helds: seq<multiset<Hint>>, i: nat, g: Hint)
    requires i < |helds|
    ensures Union(helds[i := helds[i] + multiset{g}]) == Union(helds) + multiset{g}
  {
    hide Union;
    UnionUpdate(helds, i, helds[i] + multiset{g});
    assert Union(helds) + multiset{g} == Union(helds) + (helds[i] + multiset{g}) - helds[i];
  }

  lemma {:induction false} UnionMember(helds: seq<multiset<Hint>>, h: Hint)
    requires h in Union(helds)
    ensures exists i | 0 <= i < |helds| :: h in helds[i]
  {
    var n := |helds| - 1;
    if h !in helds[n] {
      UnionMember(helds[..n], h);
      var i :| 0 <= i < n && h in helds[..n][i];
      assert h in helds[i];
    }
  }

  lemma UnionShrinks(helds: seq<multiset<Hint>>, i: nat, m: multiset<Hint>, gone: multiset<Hint>)
    requires i < |helds| && helds[i] == m + gone
    ensures Union(helds[i := m]) + gone == Union(helds)
  {
    hide Union;
    UnionUpdate(helds, i, m);
    assert Union(helds[i := m]) + gone == Union(helds[i := m]) + (m + gone) - m;
  }

  const DEFAULT_TICK: int := 100_000_000
  const DEFAULT_STRIPES: int := 16
  const DEFAULT_MAX_HINTS: nat := 10000
  const MAX_STRIPES: nat := 1024

  /** What a configuration comes to: defaults for what is not set, and a negative limit for
      none. */
  function Normalized(tick: int, epoch: int, maxHints: int): (c: Config)
    ensures ValidConfig(c)
  {
    Config(if tick <= 0 then DEFAULT_TICK else tick, epoch,
           if maxHints == 0 then DEFAULT_MAX_HINTS else if maxHints < 0 then 0 else maxHints)
  }

  /** The least power of two that is not below `n`, within 1 and the most stripes there can be. */
  method RoundUpPow2(n: int) returns (p: nat)
    ensures exists k :: p == Pow2(k)
    ensures 1 <= p <= MAX_STRIPES
    ensures n <= 1 ==> p == 1
    ensures 1 < n <= MAX_STRIPES ==> n <= p < 2 * n
    ensures n > MAX_STRIPES ==> p == MAX_STRIPES
  {
    assert Pow2(0) == 1;
    if n <= 1 {
      return 1;
    }
    if n >= MAX_STRIPES {
      assert Pow2(5) == 32 && Pow2(10) == 1024 by { Pow2Add(5, 5); }
      return MAX_STRIPES;
    }
    p := 1;
    ghost var k := 0;
    while p < n
      invariant p == Pow2(k) && k <= 10 && p < 2 * n
      decreases n - p
    {
      assert Pow2(5) == 32 && Pow2(10) == 1024 by { Pow2Add(5, 5); }
      p, k := 2 * p, k + 1;
    }
    Pow2Grows(k, 10);
    assert Pow2(5) == 32 && Pow2(10) == 1024 by { Pow2Add(5, 5); }
  }

  lemma SixteenIs(count: nat)
    requires exists k :: count == Pow2(k)
    ensures 16 <= count < 32 ==> count == 16
  {
    var k :| count == Pow2(k);
    assert Pow2(4) == 16;
    if 16 <= count < 32 {
      Pow2Between(k, 4);
    }
  }

  method MakeWheels(count: nat) returns (ws: seq<TimeWheel.Wheel>, ghost repr: set<object>, ghost hs: seq<multiset<Hint>>)
    ensures |ws| == |hs| == count && fresh(repr) && Union(hs) == multiset{}
    ensures forall i | 0 <= i < count :: ws[i] in repr && ws[i].Repr <= repr
    ensures forall i, j | 0 <= i < j < count :: ws[i].Repr !! ws[j].Repr
    ensures forall i | 0 <= i < count ::
              ws[i].Valid() && ws[i].current == 0 && ws[i].Held() == multiset{} == hs[i]
  {
    hide TimeWheel.Wheel.Valid;
    hide TimeWheel.Wheel.Wired;
    hide TimeWheel.Wheel.Held;
    ws, repr, hs := [], {}, [];
    while |ws| < count
      invariant |ws| == |hs| <= count && fresh(repr) && Union(hs) == multiset{}
      invariant forall i | 0 <= i < |ws| :: ws[i] in repr && ws[i].Repr <= repr
      invariant forall i, j | 0 <= i < j < |ws| :: ws[i].Repr !! ws[j].Repr
      invariant forall i | 0 <= i < |ws| ::
                  ws[i].Valid() && ws[i].current == 0 && ws[i].Held() == multiset{} == hs[i]
    {
      var w := new TimeWheel.Wheel();
      assert (hs + [multiset{}])[..|hs|] == hs;
      ws, hs, repr := ws + [w], hs + [multiset{}], repr + w.Repr;
    }
  }

  class Manager {
    const config: Config
    const stripes: seq<TimeWheel.Wheel>
    const keyspace: Keyspace
    var current: nat
    var ticks: nat
    var counters: Counters
    var lateTicks: nat
    var stopped: bool

    /** What each stripe holds. */
    ghost var helds: seq<multiset<Hint>>
    /** The objects the stripes are made of. */
    ghost const Wheels: set<object>

    ghost predicate Wired()
      reads `helds
      ensures Wired() ==> this !in Wheels && keyspace.Apart(Wheels) && ValidConfig(config) && |stripes| > 0
    {
      && this !in Wheels && keyspace.Apart(Wheels)
      && ValidConfig(config)
      && 0 < |stripes| == |helds|
      && (forall i | 0 <= i < |stripes| :: stripes[i] in Wheels && stripes[i].Repr <= Wheels)
      && (forall i, j | 0 <= i < j < |stripes| :: stripes[i].Repr !! stripes[j].Repr)
    }

    /** Stripe `i` shows time `clock` and holds only hints of its own shards. */
    ghost predicate StripeAt(i: nat, clock: nat)
      requires Wired() && i < |stripes|
      reads `helds, Wheels
    {
      && stripes[i].Valid() && stripes[i].current == clock && stripes[i].Held() == helds[i]
      && forall h | h in helds[i] :: StripeFor(h.shard) == i
    }

    /** Every stripe shows the manager's own time. */
    ghost predicate InStep()
      reads `current, `helds, Wheels
      ensures InStep() ==> Wired()
    {
      Wired() && forall i | 0 <= i < |stripes| :: StripeAt(i, current)
    }

    ghost function View(): Expiry.State
      reads `current, `helds, `counters
    {
      Expiry.State(current, Union(helds), counters)
    }

    ghost predicate Valid()
      reads `current, `helds, `counters, `ticks, Wheels
      ensures Valid() ==> InStep()
    {
      InStep() && Conserved(View(), 0) && ticks == current
    }

    /** `shard & mask`, for a power-of-two number of stripes. */
    function StripeFor(shard: int): (i: nat)
      requires |stripes| > 0
      ensures i < |stripes|
    {
      shard % |stripes|
    }

    constructor (tick: int, epoch: int, stripeCount: int, maxHints: int, keyspace: Keyspace)
      ensures Valid() && fresh(Wheels)
      ensures config == Normalized(tick, epoch, maxHints) && this.keyspace == keyspace
      // ticks of 100ms, 16 stripes and 10000 hints a tick where nothing is set; no limit on hints below 0
      ensures config.step == (if tick <= 0 then 100_000_000 else tick) && config.epoch == epoch
      ensures config.limit == if maxHints == 0 then 10000 else if maxHints < 0 then 0 else maxHints
      ensures |stripes| <= MAX_STRIPES && exists k :: |stripes| == Pow2(k)
      ensures stripeCount == 0 ==> |stripes| == 16
      ensures stripeCount < 0 || stripeCount == 1 ==> |stripes| == 1
      ensures 1 < stripeCount <= 1024 ==> stripeCount <= |stripes| < 2 * stripeCount
      ensures stripeCount > 1024 ==> |stripes| == 1024
      ensures View() == Expiry.State(0, multiset{}, Counters(0, 0, 0, 0, 0, 0, 0)) && !stopped && lateTicks == 0
    {
      hide TimeWheel.Wheel.Valid;
      hide TimeWheel.Wheel.Wired;
      hide TimeWheel.Wheel.Held;
      hide Union;
      ghost var repr, hs;
      var ws;
      var count := RoundUpPow2(if stripeCount == 0 then DEFAULT_STRIPES else stripeCount);
      SixteenIs(count);
      ws, repr, hs := MakeWheels(count);
      this.config, this.keyspace := Normalized(tick, epoch, maxHints), keyspace;
      stripes, helds := ws, hs;
      current, ticks, lateTicks := 0, 0, 0;
      counters := Counters(0, 0, 0, 0, 0, 0, 0);
      stopped := false;
      Wheels := repr;
      new;
      assert Wired();
      forall i | 0 <= i < |stripes|
        ensures StripeAt(i, 0)
      {
        assert helds[i] == multiset{};
      }
    }

    /** Records that stripe `i` now holds one hint more. */
    ghost method Note(i: nat, g: Hint)
      requires Wired() && i < |stripes| && StripeFor(g.shard) == i
      requires stripes[i].Valid() && stripes[i].current == current && stripes[i].Held() == helds[i] + multiset{g}
      requires forall h | h in helds[i] :: StripeFor(h.shard) == i
      requires forall k | 0 <= k < |stripes| && k != i :: StripeAt(k, current)
      modifies `helds
      ensures InStep() && Union(helds) == old(Union(helds)) + multiset{g}
    {
      hide TimeWheel.Wheel.Valid;
      hide TimeWheel.Wheel.Wired;
      hide TimeWheel.Wheel.Held;
      hide Union;
      UnionGrows(helds, i, g);
      helds := helds[i := helds[i] + multiset{g}];
      assert StripeAt(i, current);
      forall k | 0 <= k < |stripes| && k != i
        ensures StripeAt(k, current)
      {
        assert old(StripeAt(k, current));
      }
    }

    method AddToStripe(h: Hint)
      requires InStep()
      modifies `helds, Wheels
      ensures InStep()
      ensures Union(helds) == old(Union(helds)) + multiset{Clamp(h, current + 1)}
    {
      hide TimeWheel.Wheel.Valid;
      hide TimeWheel.Wheel.Wired;
      hide TimeWheel.Wheel.Held;
      hide Union;
      var i := StripeFor(h.shard);
      assert StripeAt(i, current);
      stripes[i].Add(h);
      forall k | 0 <= k < |stripes| && k != i
        ensures StripeAt(k, current)
      {
        assert old(StripeAt(k, current));
      }
      Note(i, Clamp(h, current + 1));
    }

    method RequeueToStripe(h: Hint)
      requires InStep()
      modifies `helds, Wheels
      ensures InStep()
      ensures Union(helds) == old(Union(helds)) + multiset{h.(tick := current + 1)}
    {
      hide TimeWheel.Wheel.Valid;
      hide TimeWheel.Wheel.Wired;
      hide TimeWheel.Wheel.Held;
      hide Union;
      var i := StripeFor(h.shard);
      assert StripeAt(i, current);
      stripes[i].Requeue(h);
      forall k | 0 <= k < |stripes| && k != i
        ensures StripeAt(k, current)
      {
        assert old(StripeAt(k, current));
      }
      Note(i, h.(tick := current + 1));
    }

    /** Registers an expiry. */
    method Add(shard: int, key: string, expireAt: int)
      requires Valid()
      modifies `helds, `counters, Wheels
      ensures Valid()
      ensures View() == if expireAt > 0 && stopped then old(View()) else Expiry.Add(config, old(View()), shard, key, expireAt)
    {
      hide InStep;
      if expireAt <= 0 {
        counters := counters.(ignored := counters.ignored + 1);
        return;
      }
      if stopped {
        return;
      }
      AddToStripe(Hint(key, TickFor(config, expireAt), shard));
      counters := counters.(added := counters.added + 1);
    }

    /** Validates one fired hint against the keyspace. */
    method Validate(h: Hint, now: int) returns (o: Outcome)
      requires InStep()
      requires keyspace.Valid()
      modifies `helds, `counters, Wheels, keyspace`removals, keyspace.engine`uses, keyspace.engine`keys,
               keyspace.engine.memory`used, keyspace.engine.memory`evictions, keyspace.engine.shards
      ensures keyspace.Valid() && Grew(old(keyspace.removals), keyspace.removals, counters.expired - old(counters.expired))
      ensures old(keyspace.engine.memory.Within()) ==> keyspace.engine.memory.Within()
      ensures InStep() && View() == Settle(config, old(View()), h, o)
      ensures !keyspace.engine.shared ==>
                && o == OutcomeOf(old(keyspace.Entries()), IdOf(h), now)
                && keyspace.Entries() == AfterOne(old(keyspace.Entries()), IdOf(h), now)
    {
      hide EngineCore.Engine.Valid;
      hide InStep;
      hide Wired;
      hide Union;
      hide Settle;
      o := keyspace.Judge(h, now);
      SettleOne(h, o);
    }

    /** Counts a verdict, and schedules the hint again when its key lives on. */
    method SettleOne(h: Hint, o: Outcome)
      requires InStep()
      modifies `helds, `counters, Wheels
      ensures InStep() && View() == Settle(config, old(View()), h, o)
      ensures counters.expired == old(counters.expired) + if o == Removed then 1 else 0
    {
      hide InStep;
      hide Wired;
      hide Union;
      hide TickFor;
      hide Clamp;
      if o.Later? {
        AddToStripe(h.(tick := TickFor(config, o.expireAt)));
      }
      Count(o);
    }

    method Count(o: Outcome)
      modifies `counters
      ensures counters == match o {
                case Removed => old(counters).(fired := old(counters).fired + 1, expired := old(counters).expired + 1)
                case Later(_) => old(counters).(fired := old(counters).fired + 1, reinserted := old(counters).reinserted + 1)
                case _ => old(counters).(fired := old(counters).fired + 1, dropped := old(counters).dropped + 1)
              }
    {
      counters := counters.(fired := counters.fired + 1);
      match o {
        case Gone => counters := counters.(dropped := counters.dropped + 1);
        case Declined => counters := counters.(dropped := counters.dropped + 1);
        case Removed => counters := counters.(expired := counters.expired + 1);
        case Later(_) => counters := counters.(reinserted := counters.reinserted + 1);
      }
    }

    method Defer(hs: seq<Hint>)
      requires InStep()
      modifies `helds, Wheels
      ensures InStep() && View() == DeferAll(old(View()), hs)
    {
      hide InStep;
      hide Wired;
      hide Union;
      for k := 0 to |hs|
        invariant InStep() && View() == DeferAll(old(View()), hs[..k])
      {
        assert hs[..k + 1][..k] == hs[..k];
        RequeueToStripe(hs[k]);
      }
      assert hs[..|hs|] == hs;
    }

    /** Puts the hints past the batch limit off to the next tick. */
    method DeferTail(batch: seq<Hint>) returns (limit: nat)
      requires InStep()
      modifies `helds, `counters, Wheels
      ensures InStep() && limit == Batch(config, |batch|) && counters.expired == old(counters.expired)
      ensures var s := DeferAll(old(View()), batch[limit..]);
              View() == s.(counters := s.counters.(deferred := s.counters.deferred + |batch| - limit))
    {
      hide InStep;
      hide Wired;
      hide Union;
      assert DeferAll(View(), []) == View() && batch[|batch|..] == [];
      hide DeferAll;
      limit := |batch|;
      if config.limit > 0 && limit > config.limit {
        Defer(batch[config.limit..]);
        counters := counters.(deferred := counters.deferred + limit - config.limit);
        limit := config.limit;
      }
    }

    /** Hint validation: the step that makes a stale hint harmless. */
    method Process(batch: seq<Hint>, now: int) returns (ghost os: seq<Outcome>)
      requires InStep()
      requires keyspace.Valid()
      modifies `helds, `counters, Wheels, keyspace`removals, keyspace.engine`uses, keyspace.engine`keys,
               keyspace.engine.memory`used, keyspace.engine.memory`evictions, keyspace.engine.shards
      ensures keyspace.Valid() && Grew(old(keyspace.removals), keyspace.removals, counters.expired - old(counters.expired))
      ensures old(keyspace.engine.memory.Within()) ==> keyspace.engine.memory.Within()
      ensures InStep() && |os| == Batch(config, |batch|)
      ensures View() == Expiry.Process(config, old(View()), batch, os)
      ensures !keyspace.engine.shared ==>
                && os == OutcomesOf(old(keyspace.Entries()), batch[..Batch(config, |batch|)], now)
                && keyspace.Entries() == AfterAll(old(keyspace.Entries()), batch[..Batch(config, |batch|)], now)
    {
      hide EngineCore.Engine.Valid;
      hide Grew;
      hide InStep;
      hide Wired;
      hide Union;
      hide SettleAll;
      hide DeferAll;
      hide OutcomesOf;
      hide AfterAll;
      hide Keyspace.Valid;
      var limit := DeferTail(batch);
      os := ValidateAll(batch[..limit], now);
    }

    method ValidateAll(hs: seq<Hint>, now: int) returns (ghost os: seq<Outcome>)
      requires InStep()
      requires keyspace.Valid()
      modifies `helds, `counters, Wheels, keyspace`removals, keyspace.engine`uses, keyspace.engine`keys,
               keyspace.engine.memory`used, keyspace.engine.memory`evictions, keyspace.engine.shards
      ensures keyspace.Valid() && Grew(old(keyspace.removals), keyspace.removals, counters.expired - old(counters.expired))
      ensures old(keyspace.engine.memory.Within()) ==> keyspace.engine.memory.Within()
      ensures InStep() && |os| == |hs|
      ensures View() == SettleAll(config, old(View()), hs, os)
      ensures !keyspace.engine.shared ==>
                && os == OutcomesOf(old(keyspace.Entries()), hs, now)
                && keyspace.Entries() == AfterAll(old(keyspace.Entries()), hs, now)
    {
      hide EngineCore.Engine.Valid;
      hide Grew;
      hide InStep;
      hide Wired;
      hide Union;
      hide Settle;
      hide OutcomeOf;
      hide AfterOne;
      os := [];
      GrewNone(keyspace.removals);
      for k := 0 to |hs|
        invariant InStep() && |os| == k && keyspace.Valid()
        invariant Grew(old(keyspace.removals), keyspace.removals, counters.expired - old(counters.expired))
        invariant old(keyspace.engine.memory.Within()) ==> keyspace.engine.memory.Within()
        invariant View() == SettleAll(config, old(View()), hs[..k], os)
        invariant !keyspace.engine.shared ==>
                    && os == OutcomesOf(old(keyspace.Entries()), hs[..k], now)
                    && keyspace.Entries() == AfterAll(old(keyspace.Entries()), hs[..k], now)
      {
        assert hs[..k + 1][..k] == hs[..k];
        ghost var removals, expired := keyspace.removals, counters.expired;
        var o := Validate(hs[k], now);
        GrewOn(old(keyspace.removals), removals, keyspace.removals,
               expired - old(counters.expired), counters.expired - expired);
        assert (os + [o])[..k] == os;
        os := os + [o];
      }
      assert hs[..|hs|] == hs;
    }

    /** Advances every stripe by one tick, collecting what fires. */
    method AdvanceStripes() returns (buf: seq<Hint>)
      requires InStep()
      modifies this`current, this`ticks, this`helds, Wheels
      ensures InStep() && current == old(current) + 1 && ticks == old(ticks) + 1
      ensures NoLeak.Due(old(View()), buf)
      ensures Union(helds) == old(Union(helds)) - multiset(buf)
    {
      hide TimeWheel.Wheel.Valid;
      hide TimeWheel.Wheel.Wired;
      hide TimeWheel.Wheel.Held;
      hide Union;
      ghost var all, before, after := Union(helds), current, current + 1;
      buf := [];
      current, ticks := current + 1, ticks + 1;
      for i := 0 to |stripes|
        invariant Wired() && current == after && ticks == old(ticks) + 1
        invariant forall k | 0 <= k < i :: StripeAt(k, after)
        invariant forall k | i <= k < |stripes| :: StripeAt(k, before)
        invariant Union(helds) + multiset(buf) == all
        invariant forall h | h in buf :: h.tick == after
        invariant forall k, h | 0 <= k < i && h in helds[k] :: h.tick > after
      {
        ghost var was := helds;
        ghost var fired;
        buf, fired := AdvanceStripe(i, buf, before, after);
        UnionShrinks(was, i, helds[i], multiset(fired));
        assert Union(helds) + multiset(buf) == Union(helds) + multiset(fired) + multiset(buf[..|buf| - |fired|]);
      }
      forall h | h in Union(helds)
        ensures h.tick > current
      {
        UnionMember(helds, h);
      }
      assert Union(helds) == all - multiset(buf);
    }

    method AdvanceStripe(i: nat, buf: seq<Hint>, ghost before: nat, ghost after: nat) returns (r: seq<Hint>, ghost fired: seq<Hint>)
      requires Wired() && i < |stripes| && StripeAt(i, before) && after == before + 1
      modifies `helds, stripes[i].Repr
      ensures Wired() && StripeAt(i, after)
      ensures r == buf + fired && helds == old(helds)[i := helds[i]]
      ensures old(helds)[i] == helds[i] + multiset(fired)
      ensures forall h | h in fired :: h.tick == after
      ensures forall h | h in helds[i] :: h.tick > after
      ensures forall k | 0 <= k < |stripes| && k != i :: old(StripeAt(k, after)) ==> StripeAt(k, after)
      ensures forall k | 0 <= k < |stripes| && k != i :: old(StripeAt(k, before)) ==> StripeAt(k, before)
    {
      hide TimeWheel.Wheel.Valid;
      hide TimeWheel.Wheel.Wired;
      hide TimeWheel.Wheel.Held;
      r, fired := stripes[i].Advance(buf);
      ghost var left := stripes[i].Held();
      assert forall h | h in left :: h in helds[i];
      helds := helds[i := left];
    }

    /** The keys and the hints together. */
    ghost function Cache(): NoLeak.Cache
      reads `current, `helds, `counters, keyspace.engine`keys, keyspace.engine`closed
    {
      NoLeak.Cache(keyspace.Entries(), View())
    }

    /** One tick: the hints due now leave the wheels and are validated in some order. */
    method AdvanceOne(now: int) returns (ghost batch: seq<Hint>, ghost os: seq<Outcome>)
      requires Valid()
      requires keyspace.Valid()
      modifies `current, `ticks, `helds, `counters, Wheels, keyspace`removals, keyspace.engine`uses, keyspace.engine`keys,
               keyspace.engine.memory`used, keyspace.engine.memory`evictions, keyspace.engine.shards
      ensures keyspace.Valid() && Grew(old(keyspace.removals), keyspace.removals, counters.expired - old(counters.expired))
      ensures old(keyspace.engine.memory.Within()) ==> keyspace.engine.memory.Within()
      ensures Valid() && current == old(current) + 1
      ensures NoLeak.Due(old(View()), batch) && |os| == Batch(config, |batch|)
      ensures View() == Expiry.Process(config, NoLeak.Taken(old(View()), batch), batch, os)
      ensures !keyspace.engine.shared ==> Cache() == NoLeak.Next(config, old(Cache()), NoLeak.Tick(batch, now))
    {
      hide EngineCore.Engine.Valid;
      hide Grew;
      hide InStep;
      hide Union;
      hide SettleAll;
      hide DeferAll;
      var buf := AdvanceStripes();
      batch := buf;
      assert View() == NoLeak.Taken(old(View()), batch);
      assert |old(View()).pending| == |View().pending| + |batch|;
      assert Conserved(View(), |batch|);
      ghost var taken := View();
      os := Process(buf, now);
      ProcessConserves(config, taken, batch, os);
      NoLeak.ProcessClock(config, taken, batch, os);
    }

    /** One tick, and what it means for a keyspace that nothing else is changing. */
    method TickOnce(now: int)
      requires Valid()
      requires keyspace.Valid()
      modifies `current, `ticks, `helds, `counters, Wheels, keyspace`removals, keyspace.engine`uses, keyspace.engine`keys,
               keyspace.engine.memory`used, keyspace.engine.memory`evictions, keyspace.engine.shards
      ensures keyspace.Valid() && Grew(old(keyspace.removals), keyspace.removals, counters.expired - old(counters.expired))
      ensures old(keyspace.engine.memory.Within()) ==> keyspace.engine.memory.Within()
      ensures Valid() && current == old(current) + 1
      ensures !keyspace.engine.shared && NoLeak.Covered(config, old(Cache())) ==>
                NoLeak.Covered(config, Cache()) && (config.limit == 0 ==> NoLeak.Reclaimed(config, Cache(), now))
    {
      hide EngineCore.Engine.Valid;
      hide Keyspace.Valid;
      hide Grew;
      hide Valid;
      hide NoLeak.Covered;
      hide NoLeak.Reclaimed;
      hide NoLeak.Next;
      hide NoLeak.Due;
      hide Expiry.Process;
      hide Union;
      ghost var before := Cache();
      ghost var batch, os := AdvanceOne(now);
      if NoLeak.Covered(config, before) {
        NoLeak.TickReclaims(config, before, batch, now);
      }
    }

    /** Advances through every tick whose deadline has passed, one at a time, unless it is
        told to stop. */
    method CatchUp(now: int) returns (processed: nat, interrupted: bool)
      requires Valid()
      requires keyspace.Valid()
      modifies `current, `ticks, `helds, `counters, `lateTicks, Wheels, keyspace`removals, keyspace.engine`uses, keyspace.engine`keys,
               keyspace.engine.memory`used, keyspace.engine.memory`evictions, keyspace.engine.shards
      ensures keyspace.Valid() && Grew(old(keyspace.removals), keyspace.removals, counters.expired - old(counters.expired))
      ensures old(keyspace.engine.memory.Within()) ==> keyspace.engine.memory.Within()
      ensures Valid() && current == old(current) + processed
      ensures lateTicks == old(lateTicks) + if processed > 1 then processed - 1 else 0
      ensures !interrupted ==> current == LastDue(config, old(current), now)
      ensures interrupted ==> processed > 0
      ensures current == old(current) || Deadline(config, current) <= now
      ensures processed == 0 ==> keyspace.engine.keys == old(keyspace.engine.keys) && View() == old(View())
      // over an otherwise idle keyspace: no hint is lost, and what has expired is gone
      ensures !keyspace.engine.shared && NoLeak.Covered(config, old(Cache())) ==> NoLeak.Covered(config, Cache())
      ensures !keyspace.engine.shared && NoLeak.Covered(config, old(Cache())) && config.limit == 0 && processed > 0 ==>
                NoLeak.Reclaimed(config, Cache(), now)
    {
      hide Keyspace.Valid;
      hide NoLeak.Due;
      hide NoLeak.Taken;
      hide EngineCore.Engine.Valid;
      hide Grew;
      hide Valid;
      hide NoLeak.Covered;
      hide NoLeak.Reclaimed;
      hide NoLeak.Next;
      hide Expiry.Process;
      hide Deadline;
      hide TickFor;
      hide Union;
      hide Conserved;
      processed, interrupted := 0, false;
      GrewNone(keyspace.removals);
      while Deadline(config, current + 1) <= now
        invariant Valid() && lateTicks == old(lateTicks) && keyspace.Valid()
        invariant Grew(old(keyspace.removals), keyspace.removals, counters.expired - old(counters.expired))
        invariant old(keyspace.engine.memory.Within()) ==> keyspace.engine.memory.Within()
        invariant current == old(current) + processed
        invariant (processed > 0 ==> Deadline(config, current) <= now) && !interrupted
        invariant processed == 0 ==> keyspace.engine.keys == old(keyspace.engine.keys) && View() == old(View())
        invariant !keyspace.engine.shared && NoLeak.Covered(config, old(Cache())) ==> NoLeak.Covered(config, Cache())
        invariant !keyspace.engine.shared && NoLeak.Covered(config, old(Cache())) && config.limit == 0 && processed > 0 ==>
                    NoLeak.Reclaimed(config, Cache(), now)
        decreases now - Deadline(config, current)
      {
        ghost var removals, expired := keyspace.removals, counters.expired;
        DeadlineStep(config, current);
        TickOnce(now);
        GrewOn(old(keyspace.removals), removals, keyspace.removals,
               expired - old(counters.expired), counters.expired - expired);
        processed := processed + 1;
        interrupted := *;
        if interrupted {
          break;
        }
      }
      DueByQuotient(config, current, now);
      DueByQuotient(config, current + 1, now);
      RecordLate(processed);
    }

    /** Counts every tick beyond the first in one pass as late. */
    method RecordLate(processed: nat)
      requires Valid()
      modifies `lateTicks
      ensures Valid()
      ensures lateTicks == old(lateTicks) + if processed > 1 then processed - 1 else 0
    {
      if processed > 1 {
        lateTicks := lateTicks + processed - 1;
      }
    }
  }
}
