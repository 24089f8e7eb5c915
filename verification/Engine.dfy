/** The sharded engine: where keys live, the memory limit, and eviction to make room. */
module EngineCore {
  import opened SeqSums
  import opened Entries
  import opened Options
  import opened ShardStore
  import opened Expiry
  import NoLeak
  import Sharding
  import Victims

  const MAX_EVICTIONS_PER_WRITE: nat := 64
  const ADMIT_ATTEMPTS: nat := 4

  /** An expiry handed to the scheduler. */
  datatype Notice = Notice(shard: int, key: string, expireAt: int)

  datatype Answer = Done | NotStored | Closed | ValueTooLarge | InvalidTtl | NoMemory

  /** The keys of one shard, as the expiry scheduler knows them. */
  ghost function KeysOf(i: int, data: map<string, Entry>): Expiries {
    map id: KeyId | id in (set k | k in data :: KeyId(i, k)) :: data[id.name].expireAt
  }

  ghost function OutsideOf(i: int, keys: Expiries): Expiries {
    map id | id in keys && id.shard != i :: keys[id]
  }

  /** `keys` lists exactly what shard `i` holds, as far as that shard goes. */
  ghost predicate Mirrors(i: int, keys: Expiries, data: map<string, Entry>) {
    && (forall k :: KeyId(i, k) in keys <==> k in data)
    && (forall k | k in data :: keys[KeyId(i, k)] == data[k].expireAt)
  }

  ghost function Remade(i: int, keys: Expiries, data: map<string, Entry>): Expiries {
    OutsideOf(i, keys) + KeysOf(i, data)
  }

  ghost function Ids(i: int, names: set<string>): set<KeyId> {
    set k | k in names :: KeyId(i, k)
  }

  lemma RemadeMirrors(i: int, keys: Expiries, data: map<string, Entry>)
    ensures Mirrors(i, Remade(i, keys, data), data)
    ensures forall id | id in Remade(i, keys, data) :: id.shard == i || id in keys
  {
  }

  lemma RemadeElsewhere(i: int, keys: Expiries, data: map<string, Entry>, k: int, d: map<string, Entry>)
    requires k != i && Mirrors(k, keys, d)
    ensures Mirrors(k, Remade(i, keys, data), d)
  {
  }

  lemma RemadeSame(i: int, keys: Expiries, data: map<string, Entry>)
    requires Mirrors(i, keys, data)
    ensures Remade(i, keys, data) == keys
  {
  }

  lemma RemadePut(i: int, keys: Expiries, data: map<string, Entry>, key: string, e: Entry)
    requires Mirrors(i, keys, data)
    ensures Remade(i, keys, data[key := e]) == keys[KeyId(i, key) := e.expireAt]
  {
  }

  lemma RemadeWithout(i: int, keys: Expiries, data: map<string, Entry>, key: string)
    requires Mirrors(i, keys, data)
    ensures Remade(i, keys, data - {key}) == keys - {KeyId(i, key)}
  {
  }

  /** Exactly the victims have left shard `i`, and they were live. */
  ghost predicate Evicted(i: int, victims: set<string>, now: int, was: map<string, Entry>, data: map<string, Entry>,
                          keysWere: Expiries, keys: Expiries)
  {
    && victims <= was.Keys && (forall v | v in victims :: !was[v].IsExpired(now))
    && data == was - victims && keys == keysWere - Ids(i, victims)
  }

  lemma NobodyEvicted(i: int, now: int, data: map<string, Entry>, keys: Expiries)
    ensures Evicted(i, {}, now, data, data, keys, keys)
  {
  }

  lemma EvictedMore(i: int, v: set<string>, w: set<string>, now: int, a: map<string, Entry>, b: map<string, Entry>,
                    c: map<string, Entry>, ka: Expiries, kb: Expiries, kc: Expiries)
    requires Evicted(i, v, now, a, b, ka, kb) && Evicted(i, w, now, b, c, kb, kc)
    ensures Evicted(i, v + w, now, a, c, ka, kc) && |v + w| == |v| + |w|
  {
    assert v !! w;
    assert Ids(i, v + w) == Ids(i, v) + Ids(i, w);
  }

  lemma EvictedOne(i: int, v: string, now: int, data: map<string, Entry>, keys: Expiries)
    requires v in data && !data[v].IsExpired(now)
    ensures Evicted(i, {v}, now, data, data - {v}, keys, keys - {KeyId(i, v)})
  {
    assert Ids(i, {v}) == {KeyId(i, v)};
  }

  lemma EvictedWithin(i: int, v: set<string>, now: int, was: map<string, Entry>, data: map<string, Entry>,
                      keysWere: Expiries, keys: Expiries)
    requires Evicted(i, v, now, was, data, keysWere, keys)
    ensures forall k | k in data :: k in was && data[k] == was[k]
  {
  }

  /** At least one victim could not have been spared: with it the use would be over `bound`. */
  ghost predicate Wanted(victims: set<string>, was: map<string, Entry>, used: int, bound: int) {
    victims == {} || exists v :: v in victims && v in was && used + was[v].size > bound
  }

  lemma NobodyWanted(data: map<string, Entry>, used: int, bound: int)
    ensures Wanted({}, data, used, bound)
  {
  }

  /** Storing the entry takes what it was short of. */
  lemma WantedStored(v: set<string>, was: map<string, Entry>, used: int, bound: int, more: int)
    requires Wanted(v, was, used, bound)
    ensures Wanted(v, was, used + more, bound + more)
  {
  }

  /** The credit of the written key does not grow while victims leave. */
  lemma LessCredit(i: int, key: string, w: set<string>, now: int, b: map<string, Entry>, c: map<string, Entry>,
                   kb: Expiries, kc: Expiries, used: int, bound: int)
    requires Evicted(i, w, now, b, c, kb, kc)
    requires Wanted(w, b, used, bound + if key in b then b[key].size else 0)
    ensures Wanted(w, b, used, bound + if key in c then c[key].size else 0)
  {
  }

  /** The victims of a later round come from what the earlier ones left. */
  lemma StillWanted(i: int, v: set<string>, w: set<string>, now: int, a: map<string, Entry>, b: map<string, Entry>,
                    ka: Expiries, kb: Expiries, used: int, bound: int)
    requires Evicted(i, v, now, a, b, ka, kb) && w != {} && Wanted(w, b, used, bound)
    ensures Wanted(v + w, a, used, bound)
  {
    var x :| x in w && x in b && used + b[x].size > bound;
    assert x in v + w && x in a && a[x] == b[x];
  }

  /** A live entry holds the key. */
  predicate Held(data: map<string, Entry>, key: string, now: int) {
    key in data && !data[key].IsExpired(now)
  }

  /** The outcome of a whole write that no one else disturbed: the victims left first, then
      the entry was stored, or was not. */
  ghost predicate Settled(i: int, p: Put, e: Entry, victims: set<string>, now: int, was: map<string, Entry>,
                          data: map<string, Entry>, keysWere: Expiries, keys: Expiries)
  {
    exists mid, keysMid ::
      && Evicted(i, victims, now, was, mid, keysWere, keysMid)
      && (if p == Stored then data == mid[e.key := e] && keys == keysMid[KeyId(i, e.key) := e.expireAt]
          else data == mid && keys == keysMid)
  }

  lemma NothingSettled(i: int, e: Entry, now: int, data: map<string, Entry>, keys: Expiries)
    ensures Settled(i, OutOfMemory, e, {}, now, data, data, keys, keys)
  {
    hide Evicted;
    NobodyEvicted(i, now, data, keys);
  }

  lemma SettledMore(i: int, p: Put, e: Entry, v: set<string>, w: set<string>, now: int,
                    a: map<string, Entry>, b: map<string, Entry>, c: map<string, Entry>,
                    ka: Expiries, kb: Expiries, kc: Expiries)
    requires Settled(i, OutOfMemory, e, v, now, a, b, ka, kb) && Settled(i, p, e, w, now, b, c, kb, kc)
    ensures Settled(i, p, e, v + w, now, a, c, ka, kc) && |v + w| == |v| + |w|
  {
    var mid, keysMid :|
      && Evicted(i, w, now, b, mid, kb, keysMid)
      && (if p == Stored then c == mid[e.key := e] && kc == keysMid[KeyId(i, e.key) := e.expireAt]
          else c == mid && kc == keysMid);
    EvictedMore(i, v, w, now, a, b, mid, ka, kb, keysMid);
    hide Evicted;
  }

  // ---- What the expiry scheduler is told ----

  function Told(id: KeyId, expireAt: int): Option<Notice> {
    if expireAt == 0 then None else Some(Notice(id.shard, id.name, expireAt))
  }

  function Scheduled(c: Config, t: Expiry.State, notice: Option<Notice>): Expiry.State
    requires ValidConfig(c)
  {
    match notice
    case None => t
    case Some(n) => Expiry.Add(c, t, n.shard, n.key, n.expireAt)
  }

  /** An operation that took the resident keys from `before` to `after` and told the
      scheduler `notice` is the event `e` of the cache. */
  ghost predicate Steps(before: Expiries, after: Expiries, notice: Option<Notice>, e: NoLeak.Event) {
    match e
    case Write(id, at, victims) => at >= 0 && after == (before - victims)[id := at] && notice == Told(id, at)
    case Retime(id, at) => id in before && at >= 0 && after == before[id := at] && notice == Told(id, at)
    case Leave(ids) => after == before - ids && notice == None
    case Tick(_, _) => false
  }

  /** Engine and scheduler together take exactly the step of the cache, so nothing the
      engine does can strand an entry that has an expiry. */
  lemma EngineNeverLeaks(c: Config, t: Expiry.State, before: Expiries, after: Expiries, notice: Option<Notice>,
                         e: NoLeak.Event)
    requires ValidConfig(c) && Steps(before, after, notice, e)
    ensures NoLeak.Next(c, NoLeak.Cache(before, t), e) == NoLeak.Cache(after, Scheduled(c, t, notice))
    ensures NoLeak.Covered(c, NoLeak.Cache(before, t)) ==>
              NoLeak.Covered(c, NoLeak.Cache(after, Scheduled(c, t, notice)))
  {
    hide NoLeak.Covered;
    hide Expiry.Add;
    var s := NoLeak.Cache(before, t);
    assert NoLeak.Next(c, s, e) == NoLeak.Cache(after, Scheduled(c, t, notice));
    if NoLeak.Covered(c, s) {
      NoLeak.NextCovers(c, s, e);
    }
  }

  lemma {:induction false} AsManyIds(i: int, names: set<string>)
    ensures |Ids(i, names)| == |names|
  {
    if names == {} {
      assert Ids(i, names) == {};
    } else {
      var k :| k in names;
      AsManyIds(i, names - {k});
      assert Ids(i, names) == Ids(i, names - {k}) + {KeyId(i, k)};
    }
  }

  lemma SettledSteps(i: int, p: Put, e: Entry, victims: set<string>, now: int, was: map<string, Entry>,
                     data: map<string, Entry>, keysWere: Expiries, keys: Expiries)
    requires Settled(i, p, e, victims, now, was, data, keysWere, keys) && e.expireAt >= 0
    ensures p == Stored ==>
              Steps(keysWere, keys, Told(KeyId(i, e.key), e.expireAt), NoLeak.Write(KeyId(i, e.key), e.expireAt, Ids(i, victims)))
    ensures p == Stored ==> e.key in data && data[e.key] == e
    ensures forall k | k in data && (k != e.key || p != Stored) :: k in was && data[k] == was[k]
    ensures p != Stored ==> Steps(keysWere, keys, None, NoLeak.Leave(Ids(i, victims)))
  {
  }

  class Engine {
    const shards: seq<Shard>
    const hash: string -> nat
    const memory: MemoryTracker
    const maxValueSize: nat
    /** Whether other connections act between the steps of an operation. */
    const shared: bool
    /** The eviction policy; none installed, writes past the limit are simply refused. */
    var policy: Option<Victims.Policy>
    const sampleSize: nat
    const halfLife: nat
    var closed: bool
    /** What each shard is charged. */
    ghost var uses: seq<nat>
    /** What is resident, as the expiry scheduler sees it. */
    ghost var keys: Expiries

    ghost predicate Wired()
      reads `uses
    {
      && 0 < |shards| == |uses| && sampleSize > 0 && halfLife > 0
      && (forall i | 0 <= i < |shards| :: shards[i].mem == memory)
      && (forall i, j | 0 <= i < j < |shards| :: shards[i] != shards[j])
    }

    ghost predicate ShardAt(i: nat)
      requires i < |shards| == |uses|
      reads `uses, `keys, shards[i]
    {
      && Counted(shards[i].data, shards[i].memoryUsed, shards[i].keysWithTtl)
      && shards[i].memoryUsed == uses[i]
      && Mirrors(i, keys, shards[i].data)
    }

    /** The engine-wide counter is the sum of the shards', and every shard is in order. */
    ghost predicate Valid()
      reads `uses, `keys, memory`used, shards
      ensures Valid() ==> Wired()
    {
      && Wired()
      && memory.used == Sum(uses, Bytes)
      && (forall i | 0 <= i < |shards| :: ShardAt(i))
      && (forall id | id in keys :: 0 <= id.shard < |shards|)
    }

    static function Bytes(n: nat): int {
      n
    }

    function ShardFor(key: string): (i: nat)
      requires |shards| > 0
      ensures i < |shards|
    {
      hash(key) % |shards|
    }

    constructor (configured: bv64, hash: string -> nat, max: nat, maxValueSize: nat, policy: Option<Victims.Policy>,
                 sampleSize: int, halfLife: int, lazyExpiration: bool, shared: bool)
      ensures Valid() && |shards| == Sharding.ShardCount(configured) && keys == map[] && memory.used == 0 && memory.max == max && !closed
      ensures this.shared == shared && fresh(memory) && forall s | s in shards :: fresh(s) && s.lazyExpiration == lazyExpiration
      ensures this.policy == policy && this.hash == hash && this.maxValueSize == maxValueSize
      // 5 sampled and a minute's half-life where nothing is set, 100 sampled at most
      ensures this.sampleSize == if sampleSize <= 0 then 5 else if sampleSize > 100 then 100 else sampleSize
      ensures this.halfLife == if halfLife <= 0 then 60_000_000_000 else halfLife
    {
      var count := Sharding.ShardCount(configured);
      var mem := new MemoryTracker(max);
      var ss: seq<Shard> := [];
      ghost var us: seq<nat> := [];
      while |ss| < count
        invariant |us| == |ss| <= count && Sum(us, Bytes) == 0
        invariant fresh(mem) && mem.used == 0 && mem.max == max
        invariant forall i | 0 <= i < |ss| ::
                    fresh(ss[i]) && ss[i].mem == mem && ss[i].data == map[] && ss[i].memoryUsed == 0 == us[i]
                    && ss[i].lazyExpiration == lazyExpiration
                    && ss[i].Valid()
        invariant forall i, j | 0 <= i < j < |ss| :: ss[i] != ss[j]
      {
        var s := new Shard(mem, lazyExpiration);
        SumPush(us, 0, Bytes);
        ss, us := ss + [s], us + [0];
      }
      this.shards, this.hash, this.memory, this.maxValueSize, this.shared := ss, hash, mem, maxValueSize, shared;
      this.policy, closed := policy, false;
      this.sampleSize, this.halfLife := Victims.SampleSize(sampleSize), Victims.HalfLife(halfLife);
      uses, keys := us, map[];
    }

    /** Records what an operation has done to one shard. */
    ghost method Sync(i: nat)
      requires Wired() && i < |shards| && forall k | 0 <= k < |shards| && k != i :: ShardAt(k)
      requires Counted(shards[i].data, shards[i].memoryUsed, shards[i].keysWithTtl)
      requires memory.used - shards[i].memoryUsed == Sum(uses, Bytes) - uses[i]
      requires forall id | id in keys :: 0 <= id.shard < |shards|
      modifies `uses, `keys
      ensures Valid() && keys == Remade(i, old(keys), shards[i].data)
      ensures uses == old(uses)[i := shards[i].memoryUsed]
    {
      hide Counted;
      hide Mirrors;
      hide Remade;
      SumUpdate(uses, i, shards[i].memoryUsed, Bytes);
      RemadeMirrors(i, keys, shards[i].data);
      forall k | 0 <= k < |shards| && k != i
        ensures Mirrors(k, Remade(i, keys, shards[i].data), shards[k].data)
      {
        assert ShardAt(k);
        RemadeElsewhere(i, keys, shards[i].data, k, shards[k].data);
      }
      forall k | 0 <= k < |shards| && k != i
        ensures Counted(shards[k].data, shards[k].memoryUsed, shards[k].keysWithTtl) && shards[k].memoryUsed == uses[k]
      {
        assert ShardAt(k);
      }
      uses := uses[i := shards[i].memoryUsed];
      keys := Remade(i, keys, shards[i].data);
    }

    lemma Opened(i: nat)
      requires Valid() && i < |shards|
      ensures shards[i].Valid() && shards[i].Elsewhere() == Sum(uses, Bytes) - uses[i]
      ensures Mirrors(i, keys, shards[i].data)
    {
      assert ShardAt(i);
      SumNonNegative(uses, Bytes);
    }

    /** Stores into one shard, under its lock. */
    method WriteAt(i: nat, e: Entry, onlyIfAbsent: bool, now: int) returns (p: Put)
      requires Valid() && i < |shards|
      modifies shards[i], memory`used, `uses, `keys
      ensures Valid() && (old(memory.Within()) ==> memory.Within())
      ensures p == Blocked <==>
              onlyIfAbsent && e.key in old(shards[i].data) && !old(shards[i].data)[e.key].IsExpired(now)
      ensures p == OutOfMemory <==>
              p != Blocked && memory.max != 0 && old(memory.used) + e.size > memory.max + old(shards[i].Resident(e.key))
      ensures p == Stored ==> shards[i].data == old(shards[i].data)[e.key := e]
      ensures p == Stored ==> keys == old(keys)[KeyId(i, e.key) := e.expireAt]
      ensures p == Stored ==> memory.used == old(memory.used) + e.size - old(shards[i].Resident(e.key))
      ensures p != Stored ==> shards[i].data == old(shards[i].data) && keys == old(keys) && memory.used == old(memory.used)
    {
      hide Counted;
      hide Mirrors;
      hide Remade;
      Opened(i);
      RemadePut(i, keys, shards[i].data, e.key, e);
      RemadeSame(i, keys, shards[i].data);
      p := shards[i].Write(e.key, e, onlyIfAbsent, now);
      forall k | 0 <= k < |shards| && k != i
        ensures ShardAt(k)
      {
        assert old(ShardAt(k));
      }
      Sync(i);
    }

    /** Drops one key of one shard to make room. */
    method EvictAt(i: nat, key: string) returns (removed: bool)
      requires Valid() && i < |shards|
      modifies shards[i], memory`used, memory`evictions, `uses, `keys
      ensures Valid() && memory.used == old(memory.used) - old(shards[i].Resident(key))
      ensures removed <==> key in old(shards[i].data)
      ensures shards[i].data == old(shards[i].data) - {key}
      ensures keys == old(keys) - {KeyId(i, key)}
    {
      hide Counted;
      hide Mirrors;
      hide Remade;
      Opened(i);
      RemadeWithout(i, keys, shards[i].data, key);
      removed := shards[i].Evict(key);
      forall k | 0 <= k < |shards| && k != i
        ensures ShardAt(k)
      {
        assert old(ShardAt(k));
      }
      Sync(i);
    }

    /** What other connections may do between two steps of an operation. */
    method Interleave()
      requires Valid()
      modifies shards, memory`used, memory`evictions, `uses, `keys
      ensures Valid() && (old(memory.Within()) ==> memory.Within())
      ensures !shared ==> Untouched(old(memory.used), old(keys))
      ensures !shared ==> forall i | 0 <= i < |shards| ::
                shards[i].data == old(shards[i].data) && shards[i].lazyExpiration == old(shards[i].lazyExpiration)
    {
      hide ShardAt;
      if shared {
        var steps :| 0 <= steps;
        for _ := 0 to steps
          invariant Valid() && (old(memory.Within()) ==> memory.Within())
        {
          var i :| 0 <= i < |shards|;
          var e: Entry, onlyIfAbsent: bool, now: int := *, *, *;
          if * {
            var _ := WriteAt(i, e, onlyIfAbsent, now);
          } else {
            var _ := EvictAt(i, e.key);
          }
        }
      }
    }

    ghost predicate Untouched(was: nat, keysWere: Expiries)
      reads memory`used, `keys
    {
      memory.used == was && keys == keysWere
    }

    /** Keys of one shard to drop so that `needed` bytes come free: the fewest of those drawn,
        by the policy, or all that were drawn when they do not free enough. */
    method PickVictims(i: nat, needed: nat, now: int) returns (victims: seq<string>, ghost drawn: seq<Entry>)
      requires Valid() && i < |shards| && policy.Some? && needed > 0
      ensures forall a, b | 0 <= a < b < |victims| :: victims[a] != victims[b]
      ensures forall v | v in victims :: v in shards[i].data && !shards[i].data[v].IsExpired(now)
      ensures victims == [] <==> policy.value == Victims.NoEviction || NothingLive(i, now)
      // what was drawn: as many live entries as are sampled, or all there are
      ensures forall e | e in drawn :: e.key in shards[i].data && shards[i].data[e.key] == e && !e.IsExpired(now)
      ensures |drawn| == sampleSize || forall k | k in shards[i].data && !shards[i].data[k].IsExpired(now) :: shards[i].data[k] in drawn
      ensures Victims.ByPolicy(policy.value, halfLife, drawn, victims, now)
      ensures victims != [] ==> Victims.Sizes(shards[i].data, victims[..|victims| - 1]) < needed
      ensures victims != [] ==> Victims.Sizes(shards[i].data, victims) >= needed || |victims| == |drawn|
    {
      hide Counted;
      hide Victims.ByPolicy;
      hide Victims.Sizes;
      hide Victims.Freed;
      hide Victims.Ascending;
      Opened(i);
      var samples := shards[i].Sample(sampleSize, now);
      ghost var ranked;
      victims, ranked := Victims.SelectVictims(policy.value, halfLife, samples, needed, now);
      drawn := samples;
      Victims.VictimsAreLowest(policy.value, halfLife, samples, now, ranked, victims);
      Victims.AllByPolicy(policy.value, halfLife, samples, now, ranked, victims);
      Victims.SameNumber(policy.value, halfLife, samples, now, ranked);
      if victims != [] {
        Victims.FreedIsSizes(policy.value, halfLife, samples, now, ranked, victims, shards[i].data, |victims| - 1);
        Victims.FreedIsSizes(policy.value, halfLife, samples, now, ranked, victims, shards[i].data, |victims|);
        assert victims[..|victims|] == victims;
      }
      assert samples != [] ==> samples[0] in samples;
    }

    ghost predicate NothingLive(i: nat, now: int)
      requires i < |shards|
      reads shards[i]
    {
      forall k | k in shards[i].data :: shards[i].data[k].IsExpired(now)
    }

    /** The entry fits, counting what it would displace. */
    predicate Fits(i: nat, e: Entry)
      requires i < |shards|
      reads memory, shards[i]
    {
      memory.max == 0 || memory.used + e.size <= memory.max + shards[i].Resident(e.key)
    }

    /** Evicts the named keys in order, at most `limit` of them. */
    method EvictSome(i: nat, names: seq<string>, limit: nat, now: int, ghost needed: nat)
      returns (attempts: nat, ghost victims: set<string>)
      requires Valid() && i < |shards|
      requires names != [] ==> Victims.Sizes(shards[i].data, names[..|names| - 1]) < needed
      requires forall a, b | 0 <= a < b < |names| :: names[a] != names[b]
      requires forall v | v in names :: v in shards[i].data && !shards[i].data[v].IsExpired(now)
      modifies shards, memory`used, memory`evictions, `uses, `keys
      ensures Valid() && (old(memory.Within()) ==> memory.Within())
      ensures attempts == if |names| < limit then |names| else limit
      ensures !shared ==> Evicted(i, victims, now, old(shards[i].data), shards[i].data, old(keys), keys) && |victims| == attempts
      ensures !shared ==> forall k | 0 <= k < |shards| && k != i :: shards[k].data == old(shards[k].data)
      ensures !shared ==> Wanted(victims, old(shards[i].data), memory.used, old(memory.used) - needed)
    {
      hide Valid;
      hide Evicted;
      hide Victims.Sizes;
      victims, attempts := {}, 0;
      NobodyEvicted(i, now, shards[i].data, keys);
      ghost var all := shards[i].data;
      NothingTaken(all, names);
      while attempts < |names| && attempts < limit
        invariant Valid() && (old(memory.Within()) ==> memory.Within())
        invariant attempts <= |names| && attempts <= limit
        invariant !shared ==> Evicted(i, victims, now, old(shards[i].data), shards[i].data, old(keys), keys) && |victims| == attempts
        invariant !shared ==>
                    forall a | attempts <= a < |names| :: names[a] in shards[i].data && shards[i].data[names[a]] == all[names[a]]
        invariant !shared ==> forall k | 0 <= k < |shards| && k != i :: shards[k].data == old(shards[k].data)
        invariant !shared ==> memory.used == old(memory.used) - Victims.Sizes(all, names[..attempts])
        invariant !shared ==> Wanted(victims, all, memory.used, old(memory.used) - needed)
      {
        Interleave();
        var name := names[attempts];
        assert name in names;
        OneMoreTaken(all, names, attempts, needed);
        if !shared {
          EvictedOne(i, name, now, shards[i].data, keys);
          EvictedMore(i, victims, {name}, now, old(shards[i].data), shards[i].data, shards[i].data - {name},
                      old(keys), keys, keys - {KeyId(i, name)});
        }
        var removed := EvictAt(i, name);
        victims := victims + {name};
        attempts := attempts + 1;
      }
    }

    static lemma NothingTaken(data: map<string, Entry>, names: seq<string>)
      ensures Victims.Sizes(data, names[..0]) == 0
    {
    }

    static lemma OneMoreTaken(data: map<string, Entry>, names: seq<string>, k: nat, needed: nat)
      requires k < |names| && names[k] in data && Victims.Sizes(data, names[..|names| - 1]) < needed
      ensures Victims.Sizes(data, names[..k + 1]) == Victims.Sizes(data, names[..k]) + data[names[k]].size
      ensures Victims.Sizes(data, names[..k]) < needed
    {
      assert names[..k + 1][..k] == names[..k];
      Victims.SizesGrow(data, names, k, |names| - 1);
    }

    /** One round of making room: victims for what is missing, and off with them. */
    method OneRound(i: nat, e: Entry, limit: nat, now: int) returns (tried: nat, ghost victims: set<string>)
      requires Valid() && i < |shards| && policy.Some? && limit > 0 && !Fits(i, e)
      modifies shards, memory`used, memory`evictions, `uses, `keys
      ensures Valid() && (old(memory.Within()) ==> memory.Within())
      ensures tried <= limit
      ensures tried == 0 ==> policy == Some(Victims.NoEviction) || NothingLive(i, now)
      ensures tried == 0 ==> memory.used == old(memory.used) && keys == old(keys) && shards[i].data == old(shards[i].data)
      ensures !shared ==> Evicted(i, victims, now, old(shards[i].data), shards[i].data, old(keys), keys) && |victims| == tried
      ensures !shared ==> forall k | 0 <= k < |shards| && k != i :: shards[k].data == old(shards[k].data)
      ensures !shared ==> Wanted(victims, old(shards[i].data), memory.used, memory.max - e.size + shards[i].Resident(e.key))
    {
      hide Valid;
      hide Evicted;
      hide Victims.Sizes;
      hide Victims.ByPolicy;
      var needed := memory.used + e.size - shards[i].Resident(e.key) - memory.max;
      ghost var drawn;
      var names;
      names, drawn := PickVictims(i, needed, now);
      if names == [] {
        NobodyEvicted(i, now, shards[i].data, keys);
        return 0, {};
      }
      tried, victims := EvictSome(i, names, limit, now, needed);
      if !shared {
        LessCredit(i, e.key, victims, now, old(shards[i].data), shards[i].data, old(keys), keys, memory.used, memory.max - e.size);
      }
    }

    /** Makes room for a write by evicting from the shard it is bound for. */
    method Admit(i: nat, e: Entry, now: int) returns (ok: bool, attempts: nat, ghost victims: set<string>)
      requires Valid() && i < |shards|
      modifies shards, memory`used, memory`evictions, `uses, `keys
      ensures Valid() && (old(memory.Within()) ==> memory.Within())
      ensures attempts <= MAX_EVICTIONS_PER_WRITE
      ensures ok ==> Fits(i, e)
      ensures !ok ==>
                || e.size > memory.max || policy == None || policy == Some(Victims.NoEviction)
                || attempts == MAX_EVICTIONS_PER_WRITE || NothingLive(i, now)
      ensures !shared ==> Evicted(i, victims, now, old(shards[i].data), shards[i].data, old(keys), keys) && |victims| == attempts
      ensures !shared ==> forall k | 0 <= k < |shards| && k != i :: shards[k].data == old(shards[k].data)
      ensures !shared && ok && old(Fits(i, e)) ==> victims == {}
      // no more goes than is needed
      ensures !shared ==> Wanted(victims, old(shards[i].data), memory.used, memory.max - e.size + shards[i].Resident(e.key))
    {
      hide Valid;
      hide Evicted;
      attempts, victims := 0, {};
      NobodyEvicted(i, now, shards[i].data, keys);
      if memory.max == 0 {
        return true, attempts, victims;
      }
      if e.size > memory.max || policy == None {
        return false, attempts, victims;
      }
      while true
        invariant Valid() && (old(memory.Within()) ==> memory.Within())
        invariant attempts <= MAX_EVICTIONS_PER_WRITE
        invariant !shared ==> Evicted(i, victims, now, old(shards[i].data), shards[i].data, old(keys), keys) && |victims| == attempts
        invariant !shared ==> forall k | 0 <= k < |shards| && k != i :: shards[k].data == old(shards[k].data)
        invariant !shared && old(Fits(i, e)) ==>
                    victims == {} && memory.used == old(memory.used) && shards[i].data == old(shards[i].data)
        invariant !shared ==> Wanted(victims, old(shards[i].data), memory.used, memory.max - e.size + shards[i].Resident(e.key))
        decreases MAX_EVICTIONS_PER_WRITE - attempts
      {
        Interleave();
        if Fits(i, e) {
          return true, attempts, victims;
        }
        if attempts >= MAX_EVICTIONS_PER_WRITE {
          return false, attempts, victims;
        }
        ghost var more;
        var tried;
        ghost var was, keysWere := shards[i].data, keys;
        tried, more := OneRound(i, e, MAX_EVICTIONS_PER_WRITE - attempts, now);
        if tried == 0 {
          return false, attempts, victims;
        }
        if !shared {
          EvictedMore(i, victims, more, now, old(shards[i].data), was, shards[i].data, old(keys), keysWere, keys);
          StillWanted(i, victims, more, now, old(shards[i].data), was, old(keys), keysWere, memory.used,
                      memory.max - e.size + shards[i].Resident(e.key));
        }
        hide Wanted;
        attempts := attempts + tried;
        victims := victims + more;
      }
    }

    /** One attempt at a store; when the limit refuses it, room is made for the next one. */
    method Attempt(i: nat, e: Entry, onlyIfAbsent: bool, now: int)
      returns (p: Put, ok: bool, tried: nat, ghost victims: set<string>)
      requires Valid() && i < |shards|
      modifies shards, memory`used, memory`evictions, `uses, `keys
      ensures Valid() && (old(memory.Within()) ==> memory.Within())
      ensures tried <= MAX_EVICTIONS_PER_WRITE && (p != OutOfMemory ==> tried == 0)
      ensures !shared ==> forall k | 0 <= k < |shards| && k != i :: shards[k].data == old(shards[k].data)
      ensures !shared ==> Settled(i, p, e, victims, now, old(shards[i].data), shards[i].data, old(keys), keys)
      ensures !shared ==> |victims| == tried
      ensures !shared ==> (p == Blocked <==> onlyIfAbsent && Held(old(shards[i].data), e.key, now))
      ensures !shared ==> (p == OutOfMemory <==> p != Blocked && !old(Fits(i, e)))
      ensures !shared && p == OutOfMemory && ok ==> Fits(i, e) && !(onlyIfAbsent && Held(shards[i].data, e.key, now))
      ensures !shared && p == Stored ==> memory.used == old(memory.used) + e.size - old(shards[i].Resident(e.key))
      ensures !shared && p != OutOfMemory ==> victims == {}
      ensures !shared && p == OutOfMemory ==>
                Wanted(victims, old(shards[i].data), memory.used, memory.max - e.size + shards[i].Resident(e.key))
      ensures p == OutOfMemory ==> memory.max != 0
      ensures p == OutOfMemory && !ok ==>
                || e.size > memory.max || policy == None || policy == Some(Victims.NoEviction)
                || tried == MAX_EVICTIONS_PER_WRITE || NothingLive(i, now)
    {
      hide Valid;
      hide Evicted;
      ok, tried, victims := true, 0, {};
      NobodyEvicted(i, now, shards[i].data, keys);
      p := WriteAt(i, e, onlyIfAbsent, now);
      if p == OutOfMemory {
        ok, tried, victims := Admit(i, e, now);
        if !shared {
          EvictedWithin(i, victims, now, old(shards[i].data), shards[i].data, old(keys), keys);
        }
        if ok {
          Interleave();
        }
      }
    }

    /** Stores, evicting to make room when the limit refuses the store, and trying again when
        the room has been lost to another writer. */
    method AdmitAndStore(i: nat, e: Entry, onlyIfAbsent: bool, now: int)
      returns (p: Put, attempts: nat, ghost victims: set<string>)
      requires Valid() && i < |shards|
      modifies shards, memory`used, memory`evictions, memory`oomRejected, `uses, `keys
      ensures Valid() && (old(memory.Within()) ==> memory.Within())
      ensures attempts <= ADMIT_ATTEMPTS * MAX_EVICTIONS_PER_WRITE
      ensures memory.oomRejected == old(memory.oomRejected) + if p == OutOfMemory then 1 else 0
      // what one writer alone can rely on
      ensures !shared ==> Settled(i, p, e, victims, now, old(shards[i].data), shards[i].data, old(keys), keys)
      ensures !shared ==> forall k | 0 <= k < |shards| && k != i :: shards[k].data == old(shards[k].data)
      ensures !shared ==> |victims| == attempts <= MAX_EVICTIONS_PER_WRITE
      ensures !shared ==> (p == Blocked <==> onlyIfAbsent && Held(old(shards[i].data), e.key, now))
      ensures !shared && (p == Blocked || old(Fits(i, e))) ==> victims == {} && p != OutOfMemory
      // no more goes than is needed
      ensures !shared && p == Stored ==> Wanted(victims, old(shards[i].data), memory.used, memory.max)
      ensures p == OutOfMemory ==> memory.max != 0
      ensures !shared && p == OutOfMemory ==>
                || e.size > memory.max || policy == None || policy == Some(Victims.NoEviction)
                || attempts == MAX_EVICTIONS_PER_WRITE || NothingLive(i, now)
    {
      hide Valid;
      hide Evicted;
      hide Settled;
      hide Held;
      hide Wanted;
      attempts, victims := 0, {};
      NobodyWanted(shards[i].data, memory.used, memory.max - e.size + shards[i].Resident(e.key));
      NothingSettled(i, e, now, shards[i].data, keys);
      for attempt := 0 to ADMIT_ATTEMPTS
        invariant Valid() && (old(memory.Within()) ==> memory.Within())
        invariant attempts <= attempt * MAX_EVICTIONS_PER_WRITE
        invariant memory.oomRejected == old(memory.oomRejected) && (attempt > 0 ==> memory.max != 0)
        invariant !shared ==> attempt <= 1 && |victims| == attempts <= MAX_EVICTIONS_PER_WRITE
        invariant !shared ==> Settled(i, OutOfMemory, e, victims, now, old(shards[i].data), shards[i].data, old(keys), keys)
        invariant !shared ==> forall k | 0 <= k < |shards| && k != i :: shards[k].data == old(shards[k].data)
        invariant !shared && attempt == 0 ==>
                    victims == {} && shards[i].data == old(shards[i].data) && memory.used == old(memory.used)
        invariant !shared ==> Wanted(victims, old(shards[i].data), memory.used, memory.max - e.size + shards[i].Resident(e.key))
        invariant !shared && attempt > 0 ==>
                    && Fits(i, e) && !old(Fits(i, e))
                    && !(onlyIfAbsent && Held(old(shards[i].data), e.key, now))
                    && !(onlyIfAbsent && Held(shards[i].data, e.key, now))
      {
        ghost var more;
        ghost var was, keysWere, usedWas, creditWas := shards[i].data, keys, memory.used, shards[i].Resident(e.key);
        var ok, tried;
        p, ok, tried, more := Attempt(i, e, onlyIfAbsent, now);
        if !shared {
          SettledMore(i, p, e, victims, more, now, old(shards[i].data), was, shards[i].data, old(keys), keysWere, keys);
        }
        if !shared && p == Stored {
          WantedStored(victims, old(shards[i].data), usedWas, memory.max - e.size + creditWas, e.size - creditWas);
        }
        attempts := attempts + tried;
        victims := victims + more;
        if p != OutOfMemory {
          return;
        }
        if !ok {
          break;
        }
      }
      p := OutOfMemory;
      memory.oomRejected := memory.oomRejected + 1;
    }

    // ---- The operations of the engine ----

    /** The checks that Set and SetNX share. */
    method ValidateWrite(key: string, value: string, ttl: int, now: nat) returns (a: Answer, e: Entry)
      ensures a == if closed then Closed else if |value| > maxValueSize then ValueTooLarge
                   else if ttl < 0 then InvalidTtl else Done
      ensures a == Done ==> e == MakeEntry(key, value, ttl, now)
    {
      e := MakeEntry(key, value, ttl, now);
      if closed {
        return Closed, e;
      }
      if |value| > maxValueSize {
        return ValueTooLarge, e;
      }
      if ttl < 0 {
        return InvalidTtl, e;
      }
      a := Done;
    }

    /** A write, conditional or not.  Done alone, it is one step of the cache: the entry is in,
        live keys of its own shard may have gone to make room, and the scheduler has been told;
        or nothing was stored, and nobody was told. */
    method Put(key: string, value: string, ttl: int, onlyIfAbsent: bool, now: nat)
      returns (a: Answer, notice: Option<Notice>, ghost step: NoLeak.Event)
      requires Valid()
      modifies shards, memory`used, memory`evictions, memory`oomRejected, `uses, `keys
      ensures Valid() && (old(memory.Within()) ==> memory.Within())
      ensures closed ==> a == Closed
      ensures !closed ==> (a == ValueTooLarge <==> |value| > maxValueSize)
      ensures !closed && |value| <= maxValueSize ==> (a == InvalidTtl <==> ttl < 0)
      // whoever else acts, the scheduler hears of this key only, and only when something was stored
      ensures notice.Some? ==>
                a == Done && notice.value.shard == ShardFor(key) && notice.value.key == key && notice.value.expireAt != 0
      // alone, what is stored is what was sent, as of now, and lives as long as was asked
      ensures !shared && a == Done ==>
                && key in shards[ShardFor(key)].data
                && var e := shards[ShardFor(key)].data[key];
                   && e.key == key && e.value == value && e.expireAt == (if ttl > 0 then now + ttl else 0)
                   && e.createdAt == now && e.lastAccess == now && e.accessCount == 1
                   && e.size == (if |key| + |value| + ENTRY_OVERHEAD > MAX_UINT32 then MAX_UINT32 else |key| + |value| + ENTRY_OVERHEAD)
      // the scheduler hears of an expiry exactly when an entry that has one was stored
      ensures !shared ==> notice == if a == Done && ttl > 0 then Some(Notice(ShardFor(key), key, now + ttl)) else None
      ensures !shared ==> Steps(old(keys), keys, notice, step)
      ensures !shared ==> (if a == Done then step.Write? else step.Leave?) && (step.Write? ==> step.id == KeyId(ShardFor(key), key))
      ensures !shared ==> forall k | k in shards[ShardFor(key)].data && (k != key || a != Done) ::
                k in old(shards[ShardFor(key)].data) && shards[ShardFor(key)].data[k] == old(shards[ShardFor(key)].data)[k]
      // nothing goes when the entry fits as things are, and it is refused only for want of memory that cannot be made
      ensures !shared && !closed && |value| <= maxValueSize && ttl >= 0 && old(Fits(ShardFor(key), MakeEntry(key, value, ttl, now))) ==>
                a == (if onlyIfAbsent && Held(old(shards[ShardFor(key)].data), key, now) then NotStored else Done)
                && (step.Write? ==> step.victims == {})
      // nothing goes that need not go
      ensures !shared && a == Done && step.victims != {} ==>
                exists v :: v in old(shards[ShardFor(key)].data) && KeyId(ShardFor(key), v) in step.victims
                            && memory.used + old(shards[ShardFor(key)].data)[v].size > memory.max
      ensures !shared && a == NoMemory ==>
                && step.Leave? && memory.max != 0
                && (|| |key| + |value| + ENTRY_OVERHEAD > memory.max || policy == None || policy == Some(Victims.NoEviction)
                    || |step.ids| == MAX_EVICTIONS_PER_WRITE || NothingLive(ShardFor(key), now))
      ensures memory.oomRejected == old(memory.oomRejected) + if a == NoMemory then 1 else 0
      ensures a == Closed || a == ValueTooLarge || a == InvalidTtl ==>
                keys == old(keys) && forall k | 0 <= k < |shards| :: shards[k].data == old(shards[k].data)
      ensures !shared && a == NotStored ==>
                keys == old(keys) && onlyIfAbsent && Held(old(shards[ShardFor(key)].data), key, now)
      ensures !shared && a == Done && onlyIfAbsent ==> !Held(old(shards[ShardFor(key)].data), key, now)
      ensures !shared ==>
                forall k | 0 <= k < |shards| && k != ShardFor(key) :: shards[k].data == old(shards[k].data)
    {
      hide Valid;
      hide Settled;
      hide Fits;
      notice, step := None, NoLeak.Leave({});
      var e;
      a, e := ValidateWrite(key, value, ttl, now);
      NothingLeaves(keys);
      if a != Done {
        return;
      }
      var i := ShardFor(key);
      var p, attempts;
      ghost var victims;
      p, attempts, victims := AdmitAndStore(i, e, onlyIfAbsent, now);
      if !shared {
        SettledSteps(i, p, e, victims, now, old(shards[i].data), shards[i].data, old(keys), keys);
        AsManyIds(i, victims);
      }
      match p {
        case Stored =>
          Interleave();
          // The stored entry is read again; others may have changed its expiry by now.
          var at := e.expireAt;
          if shared {
            at := *;
          }
          notice := Told(KeyId(i, key), at);
          step := NoLeak.Write(KeyId(i, key), e.expireAt, Ids(i, victims));
        case Blocked =>
          a := NotStored;
          step := NoLeak.Leave(Ids(i, victims));
        case OutOfMemory =>
          a := NoMemory;
          step := NoLeak.Leave(Ids(i, victims));
      }
    }

    /** Changes the expiry of a live entry, and tells the scheduler what it has become. */
    method SetTtl(key: string, ttl: int, now: nat) returns (found: bool, notice: Option<Notice>, ghost step: NoLeak.Event)
      requires Valid()
      modifies shards, memory`used, memory`evictions, `uses, `keys
      ensures Valid() && (old(memory.Within()) ==> memory.Within())
      ensures !shared ==> Steps(old(keys), keys, notice, step) && step.Retime? == found
      ensures found <==> !closed && Held(old(shards[ShardFor(key)].data), key, now)
      // what the scheduler hears is what the entry says when it is told
      ensures notice == if found && KeyId(ShardFor(key), key) in keys
                        then Told(KeyId(ShardFor(key), key), keys[KeyId(ShardFor(key), key)]) else None
      ensures !shared && found ==> step == NoLeak.Retime(KeyId(ShardFor(key), key), if ttl <= 0 then 0 else now + ttl)
      // the entry keeps everything but its expiry, and so does every other entry
      ensures !shared && found ==>
                && notice == (if ttl <= 0 then None else Some(Notice(ShardFor(key), key, now + ttl)))
                && shards[ShardFor(key)].data == old(shards[ShardFor(key)].data)
                   [key := old(shards[ShardFor(key)].data)[key].(expireAt := if ttl <= 0 then 0 else now + ttl)]
      ensures !shared && !found ==> keys == old(keys) && shards[ShardFor(key)].data == old(shards[ShardFor(key)].data)
      ensures !shared ==>
                forall k | 0 <= k < |shards| && k != ShardFor(key) :: shards[k].data == old(shards[k].data)
    {
      hide Counted;
      hide Mirrors;
      hide Remade;
      notice, step := None, NoLeak.Leave({});
      NothingLeaves(keys);
      if closed {
        return false, notice, step;
      }
      var i := ShardFor(key);
      Opened(i);
      RemadeSame(i, keys, shards[i].data);
      if key in shards[i].data {
        RemadePut(i, keys, shards[i].data, key, shards[i].data[key].Retimed(ttl, now));
        Resident(i, key);
      }
      found := shards[i].SetTtl(key, ttl, now);
      forall k | 0 <= k < |shards| && k != i
        ensures ShardAt(k)
      {
        assert old(ShardAt(k));
      }
      Sync(i);
      if !found {
        return;
      }
      step := NoLeak.Retime(KeyId(i, key), if ttl <= 0 then 0 else now + ttl);
      Interleave();
      var at, present := ExpiryOf(i, key);
      if present {
        notice := Told(KeyId(i, key), at);
      }
    }

    lemma Resident(i: nat, key: string)
      requires Valid() && i < |shards| && key in shards[i].data
      ensures KeyId(i, key) in keys && keys[KeyId(i, key)] == shards[i].data[key].expireAt
    {
      assert ShardAt(i);
    }

    /** What the expiry manager asks of a hint: an index it may have held for days is checked
        rather than trusted, and an expired entry still counts as present. */
    method ExpiryOf(shard: int, key: string) returns (expireAt: int, present: bool)
      requires Valid()
      ensures present <==> !closed && KeyId(shard, key) in keys
      ensures expireAt == if present then keys[KeyId(shard, key)] else 0
    {
      if closed || shard < 0 || shard >= |shards| {
        return 0, false;
      }
      assert ShardAt(shard);
      if key !in shards[shard].data {
        return 0, false;
      }
      return shards[shard].data[key].expireAt, true;
    }

    /** What the expiry manager does to a key it has found expired: it goes only if it is
        expired when looked at again, exactly as the manager's own model of it has it. */
    method Expire(shard: int, key: string, now: int) returns (removed: bool)
      requires Valid()
      modifies shards, memory`used, `uses, `keys
      ensures Valid() && memory.used <= old(memory.used)
      ensures closed ==> !removed && keys == old(keys)
      ensures !closed ==> removed == (OutcomeOf(old(keys), KeyId(shard, key), now) == Removed)
      ensures !closed ==> keys == AfterOne(old(keys), KeyId(shard, key), now)
    {
      hide Counted;
      hide Mirrors;
      hide Remade;
      if closed || shard < 0 || shard >= |shards| {
        return false;
      }
      Opened(shard);
      RemadeSame(shard, keys, shards[shard].data);
      RemadeWithout(shard, keys, shards[shard].data, key);
      if key in shards[shard].data {
        Resident(shard, key);
      } else {
        Absent(shard, key);
      }
      removed := shards[shard].Expire(key, now);
      forall k | 0 <= k < |shards| && k != shard
        ensures ShardAt(k)
      {
        assert old(ShardAt(k));
      }
      Sync(shard);
    }

    lemma Absent(i: nat, key: string)
      requires Valid() && i < |shards| && key !in shards[i].data
      ensures KeyId(i, key) !in keys
    {
      assert ShardAt(i);
    }

    /** Reads a value.  A read that finds its entry expired may reclaim it; `met` is the
        keyspace as it is at the second look, when others may have been at the key. */
    method Get(key: string, now: int, later: int)
      returns (r: Option<Entry>, ttl: int, ghost met: Expiries, ghost step: NoLeak.Event)
      requires Valid() && now <= later
      modifies shards, memory`used, memory`evictions, `uses, `keys
      ensures Valid() && (old(memory.Within()) ==> memory.Within())
      ensures r.Some? <==> !closed && Held(old(shards[ShardFor(key)].data), key, now)
      ensures r.Some? ==> r.value.value == old(shards[ShardFor(key)].data)[key].value && keys == old(keys)
      // the time left is read after the value: -1 for ever, 0 from the deadline on
      ensures r.None? ==> ttl == 0
      ensures r.Some? ==>
                var at := old(shards[ShardFor(key)].data)[key].expireAt;
                ttl == if at == 0 then -1 else if at <= later then 0 else at - later
      // whoever else acts, the read itself takes its own key at most, expired at this look too
      ensures Steps(met, keys, None, step) && step.Leave?
      ensures forall id | id in met && id !in keys :: id == KeyId(ShardFor(key), key) && met[id] != 0 && later > met[id]
      ensures keys != met ==> key in old(shards[ShardFor(key)].data) && old(shards[ShardFor(key)].data)[key].IsExpired(now)
      // alone, an expired entry goes at once, unless lazy expiration is off
      ensures !shared ==>
                (keys != old(keys) <==> !closed && key in old(shards[ShardFor(key)].data)
                                        && old(shards[ShardFor(key)].data)[key].IsExpired(now)
                                        && old(shards[ShardFor(key)].lazyExpiration))
      ensures !shared ==> met == old(keys) && memory.used <= old(memory.used)
      ensures !shared ==> forall id | id in met && id !in keys :: now > met[id]
      ensures !shared ==> forall k | k in shards[ShardFor(key)].data && k != key ::
                k in old(shards[ShardFor(key)].data) && shards[ShardFor(key)].data[k] == old(shards[ShardFor(key)].data)[k]
      ensures !shared ==>
                forall k | 0 <= k < |shards| && k != ShardFor(key) :: shards[k].data == old(shards[k].data)
    {
      hide Valid;
      NothingLeaves(keys);
      r, ttl, met, step := None, 0, keys, NoLeak.Leave({});
      if closed {
        return;
      }
      var i := ShardFor(key);
      var f := LookAt(i, key, now);
      if f.Hit? {
        r, ttl := Some(f.entry), f.entry.Ttl(later);
        return;
      }
      Interleave();
      met := keys;
      NothingLeaves(keys);
      var went := MissAt(i, key, f == Stale, later);
      if went {
        step := NoLeak.Leave({KeyId(i, key)});
      }
    }

    method LookAt(i: nat, key: string, now: int) returns (f: Found)
      requires Valid() && i < |shards|
      modifies shards, `uses, `keys
      ensures Valid() && keys == old(keys)
      ensures f.Hit? <==> Held(old(shards[i].data), key, now)
      ensures f == Stale <==> key in old(shards[i].data) && old(shards[i].data)[key].IsExpired(now)
      ensures f.Hit? ==> f.entry.value == old(shards[i].data)[key].value && f.entry.expireAt == old(shards[i].data)[key].expireAt
      ensures shards[i].data == if f.Hit? then old(shards[i].data)[key := f.entry] else old(shards[i].data)
      ensures shards[i].lazyExpiration == old(shards[i].lazyExpiration)
      ensures forall k | 0 <= k < |shards| && k != i :: shards[k].data == old(shards[k].data)
    {
      hide Counted;
      hide Mirrors;
      hide Remade;
      Opened(i);
      RemadeSame(i, keys, shards[i].data);
      if key in shards[i].data {
        Resident(i, key);
        RemadePut(i, keys, shards[i].data, key, shards[i].data[key].Accessed(now));
      }
      f := shards[i].Look(key, now);
      forall k | 0 <= k < |shards| && k != i
        ensures ShardAt(k)
      {
        assert old(ShardAt(k));
      }
      Sync(i);
    }

    method MissAt(i: nat, key: string, stale: bool, later: int) returns (ghost went: bool)
      requires Valid() && i < |shards|
      modifies shards, memory`used, `uses, `keys
      ensures Valid() && memory.used <= old(memory.used)
      ensures keys == if went then old(keys) - {KeyId(i, key)} else old(keys)
      ensures went <==> stale && old(shards[i].lazyExpiration) && key in old(shards[i].data) && old(shards[i].data)[key].IsExpired(later)
      ensures went ==> KeyId(i, key) in old(keys) && old(keys)[KeyId(i, key)] == old(shards[i].data)[key].expireAt
      ensures shards[i].data == if went then old(shards[i].data) - {key} else old(shards[i].data)
      ensures forall k | 0 <= k < |shards| && k != i :: shards[k].data == old(shards[k].data)
    {
      hide Counted;
      hide Mirrors;
      hide Remade;
      Opened(i);
      RemadeSame(i, keys, shards[i].data);
      RemadeWithout(i, keys, shards[i].data, key);
      if key in shards[i].data {
        Resident(i, key);
      }
      ghost var was := shards[i].data;
      shards[i].Miss(key, stale, later);
      went := shards[i].data != was;
      forall k | 0 <= k < |shards| && k != i
        ensures ShardAt(k)
      {
        assert old(ShardAt(k));
      }
      Sync(i);
    }

    method Delete(key: string) returns (existed: bool)
      requires Valid()
      modifies shards, memory`used, `uses, `keys
      ensures Valid() && memory.used <= old(memory.used)
      ensures existed <==> !closed && KeyId(ShardFor(key), key) in old(keys)
      ensures keys == if closed then old(keys) else old(keys) - {KeyId(ShardFor(key), key)}
      ensures !closed ==> Steps(old(keys), keys, None, NoLeak.Leave({KeyId(ShardFor(key), key)}))
      ensures forall k | 0 <= k < |shards| :: shards[k].data ==
                if k == ShardFor(key) && !closed then old(shards[k].data) - {key} else old(shards[k].data)
    {
      hide Counted;
      hide Mirrors;
      hide Remade;
      if closed {
        return false;
      }
      var i := ShardFor(key);
      Opened(i);
      RemadeWithout(i, keys, shards[i].data, key);
      if key in shards[i].data {
        Resident(i, key);
      } else {
        Absent(i, key);
      }
      existed := shards[i].Delete(key);
      forall k | 0 <= k < |shards| && k != i
        ensures ShardAt(k)
      {
        assert old(ShardAt(k));
      }
      Sync(i);
    }

    /** Shuts the engine down; each shard gives its own bytes back, and none are left. */
    method Close() returns (ok: bool)
      requires Valid()
      modifies `closed, shards, memory`used, `uses, `keys
      ensures Valid() && closed && ok == !old(closed)
      ensures ok ==> memory.used == 0 && forall i | 0 <= i < |shards| :: shards[i].data == map[]
    {
      hide Counted;
      hide Mirrors;
      hide Remade;
      if closed {
        return false;
      }
      closed := true;
      for i := 0 to |shards|
        invariant Valid() && closed
        invariant forall k | 0 <= k < i :: shards[k].data == map[] && uses[k] == 0
      {
        Opened(i);
        label before:
        shards[i].Clear();
        forall k | 0 <= k < |shards| && k != i
          ensures ShardAt(k)
        {
          assert old@before(ShardAt(k));
        }
        Sync(i);
      }
      SumZero(uses, Bytes);
      ok := true;
    }
  }

  /** What is written is what is read: the value, and the time left of the time asked for,
      up to the deadline and not a moment longer. */
  method PutThenGet(engine: Engine, key: string, value: string, ttl: int, onlyIfAbsent: bool, now: nat, later: nat)
    returns (a: Answer, r: Option<Entry>, left: int)
    requires engine.Valid() && !engine.shared && !engine.closed && now <= later
    modifies engine.shards, engine.memory`used, engine.memory`evictions, engine.memory`oomRejected, engine`uses, engine`keys
    ensures engine.Valid()
    ensures a == Done && (ttl == 0 || later <= now + ttl) ==>
              r.Some? && r.value.value == value && left == if ttl == 0 then -1 else now + ttl - later
    ensures a == Done && ttl != 0 && later > now + ttl ==> r.None?
  {
    hide Engine.Valid;
    ghost var step, met;
    var notice;
    a, notice, step := engine.Put(key, value, ttl, onlyIfAbsent, now);
    r, left, met, step := engine.Get(key, later, later);
  }

  lemma NothingLeaves(keys: Expiries)
    ensures Steps(keys, keys, None, NoLeak.Leave({}))
  {
  }
}
