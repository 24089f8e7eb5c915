/** The engine and the expiry manager wired together: any run of operations and ticks. */
module WholeCache {
  import opened Expiry
  import opened Options
  import opened TtlManager
  import EngineCore
  import NoLeak
  import Victims

  datatype Op =
    | Put(key: string, value: string, ttl: int, onlyIfAbsent: bool)
    | SetTtl(key: string, ttl: int)
    | Get(key: string)
    | Delete(key: string)
    | Evict(shard: nat, key: string)
    | CatchUp

  /** Whatever is resident expires no earlier than the manager's clock. */
  ghost predicate Kept(c: Config, s: NoLeak.Cache) {
    forall id | id in s.keys && s.keys[id] != 0 :: s.keys[id] >= Deadline(c, s.timers.current)
  }

  /** The cache at time `now`: nothing with an expiry is stranded, nothing was removed before
      its time, the memory limit holds, and with no batch limit nothing is overdue. */
  ghost predicate Sound(m: Manager, now: int)
    reads m, m.Wheels, m.keyspace, m.keyspace.engine, m.keyspace.engine.memory, m.keyspace.engine.shards
  {
    && m.Valid() && m.keyspace.Valid() && !m.stopped
    && !m.keyspace.engine.shared && !m.keyspace.engine.closed
    && NoLeak.Covered(m.config, m.Cache())
    && Punctual(m.keyspace.removals)
    && m.keyspace.engine.memory.Within()
    && Deadline(m.config, m.current) <= now
    && (m.config.limit == 0 ==> Kept(m.config, m.Cache()))
  }

  /** With the clock caught up, what is left expired less than one tick ago. */
  lemma LessThanATick(m: Manager, now: int)
    requires Sound(m, now) && m.config.limit == 0 && Deadline(m.config, m.current + 1) > now
    ensures forall id | id in m.keyspace.engine.keys && m.keyspace.engine.keys[id] != 0 ::
              now < m.keyspace.engine.keys[id] + m.config.step
  {
    DeadlineStep(m.config, m.current);
  }

  /** An operation that gives at most one key a new expiry, in the future, keeps all of that. */
  lemma KeptOn(c: Config, before: NoLeak.Cache, after: NoLeak.Cache, now: int)
    requires Kept(c, before) && after.timers.current == before.timers.current
    requires Deadline(c, before.timers.current) <= now
    requires forall id | id in after.keys :: (id in before.keys && after.keys[id] == before.keys[id])
                                             || after.keys[id] == 0 || after.keys[id] > now
    ensures Kept(c, after)
  {
  }

  /** The scheduler hears what the engine has to tell. */
  method Tell(m: Manager, notice: Option<EngineCore.Notice>, now: int, ghost before: Expiries, ghost step: NoLeak.Event)
    requires m.Valid() && m.keyspace.Valid() && !m.stopped && !m.keyspace.engine.shared && !m.keyspace.engine.closed
    requires Punctual(m.keyspace.removals) && m.keyspace.engine.memory.Within() && Deadline(m.config, m.current) <= now
    requires EngineCore.Steps(before, m.keyspace.engine.keys, notice, step)
    requires NoLeak.Covered(m.config, NoLeak.Cache(before, m.View()))
    requires m.config.limit == 0 ==> Kept(m.config, m.Cache())
    modifies m`helds, m`counters, m.Wheels
    ensures Sound(m, now)
  {
    hide NoLeak.Covered;
    hide Manager.InStep;
    hide Union;
    hide EngineCore.Steps;
    EngineCore.EngineNeverLeaks(m.config, m.View(), before, m.keyspace.engine.keys, notice, step);
    if notice.Some? {
      m.Add(notice.value.shard, notice.value.key, notice.value.expireAt);
    }
  }

  /** What an operation comes to, as far as keys and their expiries go.  A write may make room
      first, and may be refused; with no memory limit it only depends on what is asked. */
  ghost predicate Effect(engine: EngineCore.Engine, op: Op, now: nat, before: Expiries, after: Expiries)
    reads engine`uses, engine.memory`max
    requires engine.Wired()
  {
    match op
    case Put(key, value, ttl, onlyIfAbsent) =>
      var id := KeyId(engine.ShardFor(key), key);
      engine.memory.max == 0 ==>
        after == if |value| > engine.maxValueSize || ttl < 0 || (onlyIfAbsent && Alive(before, id, now)) then before
                 else before[id := if ttl > 0 then now + ttl else 0]
    case SetTtl(key, ttl) =>
      var id := KeyId(engine.ShardFor(key), key);
      after == if Alive(before, id, now) then before[id := if ttl <= 0 then 0 else now + ttl] else before
    case Get(key) =>
      var id := KeyId(engine.ShardFor(key), key);
      after == before || (after == before - {id} && id in before && !Alive(before, id, now))
    case Delete(key) => after == before - {KeyId(engine.ShardFor(key), key)}
    case Evict(i, key) => after == before - {KeyId(i, key)}
    case CatchUp => true
  }

  predicate Alive(keys: Expiries, id: KeyId, now: int) {
    id in keys && (keys[id] == 0 || now <= keys[id])
  }

  lemma HeldIsAlive(engine: EngineCore.Engine, key: string, now: int)
    requires engine.Valid()
    ensures var i := engine.ShardFor(key);
            EngineCore.Held(engine.shards[i].data, key, now) <==> Alive(engine.keys, KeyId(i, key), now)
  {
    assert engine.ShardAt(engine.ShardFor(key));
  }

  lemma WriteEffect(before: Expiries, after: Expiries, notice: Option<EngineCore.Notice>, step: NoLeak.Event, at: int)
    requires EngineCore.Steps(before, after, notice, step) && step.Write?
    requires notice == if at != 0 then Some(EngineCore.Notice(step.id.shard, step.id.name, at)) else None
    ensures step.victims == {} ==> after == before[step.id := at]
    ensures forall id | id in after :: (id in before && after[id] == before[id]) || after[id] == at
  {
  }

  lemma RetimeEffect(before: Expiries, after: Expiries, notice: Option<EngineCore.Notice>, step: NoLeak.Event)
    requires EngineCore.Steps(before, after, notice, step) && step.Retime?
    ensures after == before[step.id := step.expireAt]
  {
  }

  lemma LeaveEffect(before: Expiries, after: Expiries, notice: Option<EngineCore.Notice>, step: NoLeak.Event)
    requires EngineCore.Steps(before, after, notice, step) && step.Leave?
    ensures forall id | id in after :: id in before && after[id] == before[id]
  {
  }

  lemma LeaveSteps(before: Expiries, id: KeyId)
    ensures EngineCore.Steps(before, before - {id}, None, NoLeak.Leave({id}))
  {
  }

  lemma OnlyItself(before: Expiries, after: Expiries, id: KeyId, step: NoLeak.Event)
    requires EngineCore.Steps(before, after, None, step) && step.Leave?
    requires forall x | x in before && x !in after :: x == id
    ensures after == before || (after == before - {id} && id in before)
  {
    if id in before && id !in after {
      assert after == before - {id};
    } else {
      assert after == before;
    }
  }

  lemma NoSuchShard(engine: EngineCore.Engine, i: nat, key: string)
    requires engine.Valid() && i >= |engine.shards|
    ensures engine.keys - {KeyId(i, key)} == engine.keys
  {
  }

  /** What the engine does with an operation: one step of the cache, and any new expiry lies
      in the future. */
  method Perform(engine: EngineCore.Engine, op: Op, now: nat)
    returns (notice: Option<EngineCore.Notice>, ghost step: NoLeak.Event)
    requires engine.Valid() && !engine.shared && !engine.closed && !op.CatchUp?
    modifies engine`uses, engine`keys, engine.shards, engine.memory`used, engine.memory`evictions, engine.memory`oomRejected
    ensures engine.Valid() && (old(engine.memory.Within()) ==> engine.memory.Within())
    ensures EngineCore.Steps(old(engine.keys), engine.keys, notice, step)
    ensures Effect(engine, op, now, old(engine.keys), engine.keys)
    ensures forall id | id in engine.keys :: (id in old(engine.keys) && engine.keys[id] == old(engine.keys)[id])
                                             || engine.keys[id] == 0 || engine.keys[id] > now
  {
    hide EngineCore.Engine.Valid;
    hide EngineCore.Steps;
    notice, step := None, NoLeak.Leave({});
    EngineCore.NothingLeaves(engine.keys);
    match op {
      case Put(key, value, ttl, onlyIfAbsent) =>
        var a;
        HeldIsAlive(engine, key, now);
        a, notice, step := engine.Put(key, value, ttl, onlyIfAbsent, now);
        if a == EngineCore.Done {
          WriteEffect(old(engine.keys), engine.keys, notice, step, if ttl > 0 then now + ttl else 0);
        } else {
          LeaveEffect(old(engine.keys), engine.keys, notice, step);
        }
      case SetTtl(key, ttl) =>
        var found;
        HeldIsAlive(engine, key, now);
        found, notice, step := engine.SetTtl(key, ttl, now);
        if found {
          RetimeEffect(old(engine.keys), engine.keys, notice, step);
        }
      case Get(key) =>
        var r, ttl;
        HeldIsAlive(engine, key, now);
        ghost var met;
        r, ttl, met, step := engine.Get(key, now, now);
        ghost var id := KeyId(engine.ShardFor(key), key);
        OnlyItself(old(engine.keys), engine.keys, id, step);
      case Delete(key) =>
        var existed := engine.Delete(key);
        step := NoLeak.Leave({KeyId(engine.ShardFor(key), key)});
        LeaveSteps(old(engine.keys), KeyId(engine.ShardFor(key), key));
      case Evict(i, key) =>
        if i < |engine.shards| {
          var removed := engine.EvictAt(i, key);
          step := NoLeak.Leave({KeyId(i, key)});
          LeaveSteps(old(engine.keys), KeyId(i, key));
        } else {
          NoSuchShard(engine, i, key);
        }
    }
  }

  /** One operation of a client, at time `now`. */
  method Operate(m: Manager, op: Op, now: nat)
    requires Sound(m, now) && !op.CatchUp?
    modifies m`helds, m`counters, m.Wheels, m.keyspace.engine`uses, m.keyspace.engine`keys, m.keyspace.engine.shards,
             m.keyspace.engine.memory`used, m.keyspace.engine.memory`evictions, m.keyspace.engine.memory`oomRejected
    ensures Sound(m, now)
    ensures Effect(m.keyspace.engine, op, now, old(m.keyspace.engine.keys), m.keyspace.engine.keys)
  {
    hide NoLeak.Covered;
    hide Manager.InStep;
    hide Union;
    hide Effect;
    hide EngineCore.Engine.Valid;
    hide EngineCore.Steps;
    var engine := m.keyspace.engine;
    ghost var before, was := engine.keys, m.Cache();
    var notice;
    ghost var step;
    notice, step := Perform(engine, op, now);
    if m.config.limit == 0 {
      KeptOn(m.config, was, m.Cache(), now);
    }
    Tell(m, notice, now, before, step);
  }

  /** The ticks that have come due are processed, unless the pass is interrupted. */
  method Pass(m: Manager, now: nat) returns (interrupted: bool)
    requires Sound(m, now)
    modifies m`current, m`ticks, m`helds, m`counters, m`lateTicks, m.Wheels, m.keyspace`removals,
             m.keyspace.engine`uses, m.keyspace.engine`keys, m.keyspace.engine.shards,
             m.keyspace.engine.memory`used, m.keyspace.engine.memory`evictions
    ensures Sound(m, now)
    ensures !interrupted ==> Deadline(m.config, m.current + 1) > now
    ensures interrupted ==> m.current > old(m.current)
  {
    hide NoLeak.Covered;
    hide NoLeak.Reclaimed;
    hide Manager.InStep;
    hide Union;
    hide EngineCore.Engine.Valid;
    ghost var before := m.current;
    var processed;
    processed, interrupted := m.CatchUp(now);
    if m.config.limit == 0 && processed > 0 {
      ReclaimedIsKept(m.config, m.Cache(), now);
    }
    if !interrupted {
      DueByQuotient(m.config, m.current + 1, now);
    }
  }

  lemma AtTheEpoch(c: Config, expireAt: int)
    requires ValidConfig(c) && expireAt <= c.epoch
    ensures TickFor(c, expireAt) == 0
  {
  }

  lemma ReclaimedIsKept(c: Config, s: NoLeak.Cache, now: int)
    requires ValidConfig(c) && NoLeak.Reclaimed(c, s, now) && Deadline(c, s.timers.current) <= now
    ensures Kept(c, s)
  {
    hide TickFor;
    hide Deadline;
    forall id | id in s.keys && s.keys[id] != 0
      ensures s.keys[id] >= Deadline(c, s.timers.current)
    {
      if s.keys[id] > c.epoch {
        TickForIsLeast(c, s.keys[id], s.timers.current);
      } else {
        AtTheEpoch(c, s.keys[id]);
      }
    }
  }

  /** An engine and its manager, newly wired together. */
  method Start(configured: bv64, hash: string -> nat, max: nat, maxValueSize: nat, policy: Option<Victims.Policy>,
               tick: int, stripes: int, maxHints: int, now: nat)
    returns (m: Manager)
    ensures Sound(m, now) && fresh(m) && fresh(m.Wheels)
    ensures fresh(m.keyspace) && fresh(m.keyspace.engine) && fresh(m.keyspace.engine.memory)
    ensures forall s | s in m.keyspace.engine.shards :: fresh(s)
    ensures m.config == Normalized(tick, now, maxHints) && m.keyspace.engine.keys == map[]
  {
    var engine := new EngineCore.Engine(configured, hash, max, maxValueSize, policy, 0, 0, true, false);
    var keyspace := new Keyspace(engine);
    m := new Manager(tick, now, stripes, maxHints, keyspace);
    NoLeak.EmptyCovered(m.config, m.Cache());
  }

  /** Any run: operations and passes of the manager, each some time after the one before.
      Nothing with an expiry is ever stranded, and nothing leaves before its time; with no
      batch limit, once the clock has caught up nothing is left that expired a tick ago. */
  method Drive(ops: seq<(nat, Op)>, m: Manager, start: nat) returns (now: nat)
    requires Sound(m, start)
    modifies m`current, m`ticks, m`helds, m`counters, m`lateTicks, m.Wheels, m.keyspace`removals,
             m.keyspace.engine`uses, m.keyspace.engine`keys, m.keyspace.engine.shards,
             m.keyspace.engine.memory`used, m.keyspace.engine.memory`evictions, m.keyspace.engine.memory`oomRejected
    ensures now == start + Elapsed(ops) && Sound(m, now)
    ensures m.config.limit == 0 && Deadline(m.config, m.current + 1) > now ==>
              forall id | id in m.keyspace.engine.keys && m.keyspace.engine.keys[id] != 0 ::
                now < m.keyspace.engine.keys[id] + m.config.step
  {
    hide Sound;
    now := start;
    for k := 0 to |ops|
      invariant now == start + Elapsed(ops[..k]) && Sound(m, now)
    {
      assert ops[..k + 1][..k] == ops[..k];
      Later(m, now, now + ops[k].0);
      now := now + ops[k].0;
      if ops[k].1.CatchUp? {
        var _ := Pass(m, now);
      } else {
        Operate(m, ops[k].1, now);
      }
    }
    assert ops[..|ops|] == ops;
    if m.config.limit == 0 && Deadline(m.config, m.current + 1) > now {
      LessThanATick(m, now);
    }
  }

  function Elapsed(ops: seq<(nat, Op)>): nat {
    if ops == [] then 0 else Elapsed(ops[..|ops| - 1]) + ops[|ops| - 1].0
  }

  lemma Later(m: Manager, now: int, later: int)
    requires Sound(m, now) && now <= later
    ensures Sound(m, later)
  {
  }
}
