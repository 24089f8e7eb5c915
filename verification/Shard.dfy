/** One partition of the storage, and the memory accounting it shares with the others. */
module ShardStore {
  import opened MapSums
  import opened Entries
  import opened Options
  import Victims

  /** What became of a write. */
  datatype Put = Stored | Blocked | OutOfMemory

  /** What a read found at its first look. */
  datatype Found = Hit(entry: Entry) | Stale | Nothing

  /** The engine-wide memory counter; a `max` of 0 means no limit. */
  class MemoryTracker {
    var max: nat
    var used: nat
    var evictions: nat
    var oomRejected: nat

    constructor (max: nat)
      ensures this.max == max && used == 0 && evictions == 0 && oomRejected == 0
    {
      this.max, used, evictions, oomRejected := max, 0, 0, 0;
    }

    /** Accounts a store of `size` bytes that displaces `credit` bytes already counted. */
    method Reserve(size: nat, credit: nat) returns (ok: bool)
      modifies `used
      ensures credit <= old(used) ==> (ok <==> max == 0 || old(used) - credit + size <= max)
      ensures credit <= old(used) && ok ==> used == old(used) - credit + size
      ensures ok && max != 0 ==> used <= max
      ensures !ok ==> used == old(used)
    {
      var refund := credit;
      if refund > used {
        refund := used;
      }
      var next := used - refund + size;
      if max != 0 && next > max {
        return false;
      }
      used := next;
      ok := true;
    }

    method Sub(bytes: nat)
      modifies `used
      ensures used == if bytes > old(used) then 0 else old(used) - bytes
    {
      used := if bytes > used then 0 else used - bytes;
    }

    ghost predicate Within()
      reads `max, `used
    {
      max != 0 ==> used <= max
    }
  }

  function Weight(e: Entry): int {
    e.size
  }

  function Timed(e: Entry): int {
    if e.HasTtl() then 1 else 0
  }

  /** The shard's own counters say what it holds. */
  ghost predicate Counted(data: map<string, Entry>, memoryUsed: int, keysWithTtl: int) {
    && memoryUsed == MapSum(data, Weight)
    && keysWithTtl == MapSum(data, Timed)
    && forall k | k in data :: data[k].key == k
  }

  lemma CountedFits(data: map<string, Entry>, memoryUsed: int, keysWithTtl: int, key: string)
    requires Counted(data, memoryUsed, keysWithTtl)
    ensures memoryUsed >= 0 && keysWithTtl >= 0
    ensures key in data ==> data[key].size <= memoryUsed
  {
    SumNatural(data, Weight);
    SumNatural(data, Timed);
  }

  lemma CountedPut(data: map<string, Entry>, memoryUsed: int, keysWithTtl: int, key: string, e: Entry)
    requires Counted(data, memoryUsed, keysWithTtl) && e.key == key
    ensures Counted(data[key := e],
                    memoryUsed + e.size - (if key in data then data[key].size else 0),
                    keysWithTtl + Timed(e) - (if key in data then Timed(data[key]) else 0))
  {
    SumWith(data, key, e, Weight);
    SumWith(data, key, e, Timed);
  }

  lemma CountedRemove(data: map<string, Entry>, memoryUsed: int, keysWithTtl: int, key: string)
    requires Counted(data, memoryUsed, keysWithTtl) && key in data
    ensures Counted(data - {key}, memoryUsed - data[key].size, keysWithTtl - Timed(data[key]))
  {
    SumWithout(data, key, Weight);
    SumWithout(data, key, Timed);
  }

  class Shard {
    const mem: MemoryTracker
    var data: map<string, Entry>
    var memoryUsed: nat
    var keysWithTtl: int
    var lazyExpiration: bool
    var sets: nat
    var deletes: nat
    var hits: nat
    var misses: nat
    var expirations: nat

    constructor (mem: MemoryTracker, lazyExpiration: bool)
      ensures Valid() && this.mem == mem && data == map[] && memoryUsed == 0 && this.lazyExpiration == lazyExpiration
      ensures sets == deletes == hits == misses == expirations == 0
    {
      this.mem, this.lazyExpiration := mem, lazyExpiration;
      data, memoryUsed, keysWithTtl := map[], 0, 0;
      sets, deletes, hits, misses, expirations := 0, 0, 0, 0, 0;
    }

    /** Counts are exact, and the engine-wide counter covers at least this shard. */
    ghost predicate Valid()
      reads `data, `memoryUsed, `keysWithTtl, mem`used
    {
      Counted(data, memoryUsed, keysWithTtl) && memoryUsed <= mem.used
    }

    /** What the engine-wide counter holds for everything but this shard. */
    ghost function Elsewhere(): int
      reads `memoryUsed, mem`used
    {
      mem.used - memoryUsed
    }

    function Resident(key: string): nat
      reads `data
    {
      if key in data then data[key].size else 0
    }

    /** Takes on the accounting of an entry already charged to the engine. */
    method Store(key: string, e: Entry)
      modifies `data, `memoryUsed, `keysWithTtl
      ensures data == old(data)[key := e]
      ensures memoryUsed == old(memoryUsed) + e.size && keysWithTtl == old(keysWithTtl) + Timed(e)
    {
      data := data[key := e];
      memoryUsed := memoryUsed + e.size;
      if e.HasTtl() {
        keysWithTtl := keysWithTtl + 1;
      }
    }

    /** Drops the shard's accounting of an entry leaving it. */
    method Release(e: Entry)
      requires e.size <= memoryUsed
      modifies `memoryUsed, `keysWithTtl
      ensures memoryUsed == old(memoryUsed) - e.size && keysWithTtl == old(keysWithTtl) - Timed(e)
    {
      memoryUsed := memoryUsed - e.size;
      if e.HasTtl() {
        keysWithTtl := keysWithTtl - 1;
      }
    }

    method RemoveLocked(key: string)
      requires Valid() && key in data
      modifies `data, `memoryUsed, `keysWithTtl, mem`used
      ensures Valid() && data == old(data) - {key}
      ensures mem.used == old(mem.used) - old(data)[key].size && Elsewhere() == old(Elsewhere())
    {
      hide Counted;
      CountedFits(data, memoryUsed, keysWithTtl, key);
      CountedRemove(data, memoryUsed, keysWithTtl, key);
      var e := data[key];
      data := data - {key};
      Release(e);
      mem.Sub(e.size);
    }

    /** The one write path.  It charges exactly the difference between the new entry and the
        one it displaces, and changes nothing when it does not store. */
    method Write(key: string, e: Entry, onlyIfAbsent: bool, now: int) returns (p: Put)
      requires Valid() && e.key == key
      modifies `data, `memoryUsed, `keysWithTtl, `sets, mem`used
      ensures Valid() && Elsewhere() == old(Elsewhere())
      ensures p == Blocked <==> onlyIfAbsent && key in old(data) && !old(data)[key].IsExpired(now)
      ensures p == OutOfMemory <==>
              p != Blocked && mem.max != 0 && old(mem.used) + e.size > mem.max + old(Resident(key))
      ensures p == Stored ==> data == old(data)[key := e] && sets == old(sets) + 1
      ensures p == Stored ==> mem.used == old(mem.used) + e.size - old(Resident(key)) && mem.Within()
      ensures p != Stored ==> data == old(data) && mem.used == old(mem.used) && sets == old(sets)
    {
      hide Counted;
      CountedFits(data, memoryUsed, keysWithTtl, key);
      CountedPut(data, memoryUsed, keysWithTtl, key, e);
      if onlyIfAbsent && key in data && !data[key].IsExpired(now) {
        return Blocked;
      }
      var credit := Resident(key);
      var ok := mem.Reserve(e.size, credit);
      if !ok {
        return OutOfMemory;
      }
      if key in data {
        Release(data[key]);
      }
      Store(key, e);
      sets := sets + 1;
      p := Stored;
    }

    /** The first look of a read, under the read lock: a live entry is a hit, and used. */
    method Look(key: string, now: int) returns (f: Found)
      requires Valid()
      modifies `data, `hits
      ensures Valid()
      ensures f.Hit? <==> key in old(data) && !old(data)[key].IsExpired(now)
      ensures f == Stale <==> key in old(data) && old(data)[key].IsExpired(now)
      ensures f.Hit? ==> data == old(data)[key := f.entry]
      // one more access, now; the 32-bit counter wraps around
      ensures f.Hit? ==>
                var e := old(data)[key];
                f.entry == e.(lastAccess := now, accessCount := (e.accessCount + 1) % 0x1_0000_0000)
      ensures !f.Hit? ==> data == old(data)
      ensures hits == old(hits) + if f.Hit? then 1 else 0
    {
      hide Counted;
      if key !in data {
        return Nothing;
      }
      if data[key].IsExpired(now) {
        return Stale;
      }
      CountedNamed(data, memoryUsed, keysWithTtl, key);
      CountedPut(data, memoryUsed, keysWithTtl, key, data[key].Accessed(now));
      data := data[key := data[key].Accessed(now)];
      hits := hits + 1;
      f := Hit(data[key]);
    }

    /** The rest of a read that is a miss.  An entry that was expired at the first look is
        reclaimed, unless lazy expiration is off, if it is expired at the second look too. */
    method Miss(key: string, stale: bool, later: int)
      requires Valid()
      modifies `data, `memoryUsed, `keysWithTtl, `misses, `expirations, mem`used
      ensures Valid() && Elsewhere() == old(Elsewhere()) && mem.used <= old(mem.used)
      ensures data == if stale && lazyExpiration && key in old(data) && old(data)[key].IsExpired(later)
                      then old(data) - {key} else old(data)
      ensures misses == old(misses) + 1 && expirations == old(expirations) + if data == old(data) then 0 else 1
    {
      hide Counted;
      if stale && lazyExpiration {
        var _ := Expire(key, later);
      }
      misses := misses + 1;
    }

    /** Changes the expiry of a live entry. */
    method SetTtl(key: string, ttl: int, now: int) returns (found: bool)
      requires Valid()
      modifies `data, `keysWithTtl
      ensures Valid()
      ensures found <==> key in old(data) && !old(data)[key].IsExpired(now)
      // the entry keeps everything but its expiry
      ensures !found ==> data == old(data)
      ensures found ==> data == old(data)[key := old(data)[key].(expireAt := if ttl <= 0 then 0 else now + ttl)]
    {
      hide Counted;
      if key !in data || data[key].IsExpired(now) {
        return false;
      }
      var had := data[key].HasTtl();
      var e := data[key].Retimed(ttl, now);
      CountedNamed(data, memoryUsed, keysWithTtl, key);
      CountedPut(data, memoryUsed, keysWithTtl, key, e);
      data := data[key := e];
      if !had && e.HasTtl() {
        keysWithTtl := keysWithTtl + 1;
      } else if had && !e.HasTtl() {
        keysWithTtl := keysWithTtl - 1;
      }
      found := true;
    }

    method Delete(key: string) returns (existed: bool)
      requires Valid()
      modifies `data, `memoryUsed, `keysWithTtl, `deletes, mem`used
      ensures Valid() && Elsewhere() == old(Elsewhere()) && mem.used <= old(mem.used)
      ensures existed <==> key in old(data)
      ensures data == old(data) - {key}
      ensures deletes == old(deletes) + if existed then 1 else 0
    {
      hide Counted;
      existed := key in data;
      if existed {
        RemoveLocked(key);
        deletes := deletes + 1;
      }
    }

    /** Both expiry routes end here: the entry goes only if it is expired now. */
    method Expire(key: string, now: int) returns (removed: bool)
      requires Valid()
      modifies `data, `memoryUsed, `keysWithTtl, `expirations, mem`used
      ensures Valid() && Elsewhere() == old(Elsewhere()) && mem.used <= old(mem.used)
      ensures removed <==> key in old(data) && old(data)[key].IsExpired(now)
      ensures data == if removed then old(data) - {key} else old(data)
      ensures expirations == old(expirations) + if removed then 1 else 0
    {
      hide Counted;
      if key !in data || !data[key].IsExpired(now) {
        return false;
      }
      RemoveLocked(key);
      expirations := expirations + 1;
      removed := true;
    }

    /** Drops a key to make room for a write. */
    method Evict(key: string) returns (removed: bool)
      requires Valid()
      modifies `data, `memoryUsed, `keysWithTtl, mem`used, mem`evictions
      ensures Valid() && Elsewhere() == old(Elsewhere())
      ensures removed <==> key in old(data)
      ensures data == old(data) - {key}
      ensures mem.used == old(mem.used) - old(Resident(key))
      ensures mem.evictions == old(mem.evictions) + if removed then 1 else 0
    {
      hide Counted;
      if key !in data {
        return false;
      }
      RemoveLocked(key);
      mem.evictions := mem.evictions + 1;
      removed := true;
    }

    /** The count is looked at only after an entry has been drawn. */
    function AtLeastOne(count: nat): nat {
      if count == 0 then 1 else count
    }

    /** Draws live entries in the map's own order until there are enough. */
    method Sample(count: nat, now: int) returns (samples: seq<Entry>)
      requires Valid()
      ensures |samples| <= AtLeastOne(count) && Victims.DistinctKeys(samples)
      ensures forall e | e in samples :: e.key in data && data[e.key] == e && !e.IsExpired(now)
      ensures |samples| == AtLeastOne(count) || forall k | k in data && !data[k].IsExpired(now) :: data[k] in samples
    {
      samples := [];
      var left := data.Keys;
      while left != {} && (samples == [] || |samples| < count)
        invariant left <= data.Keys && |samples| <= AtLeastOne(count)
        invariant Victims.DistinctKeys(samples)
        invariant forall e | e in samples :: e.key in data && e.key !in left && data[e.key] == e && !e.IsExpired(now)
        invariant forall k | k in data && k !in left && !data[k].IsExpired(now) :: data[k] in samples
        decreases left
      {
        var k :| k in left;
        left := left - {k};
        if !data[k].IsExpired(now) {
          assert forall i | 0 <= i < |samples| :: samples[i] in samples;
          samples := samples + [data[k]];
        }
      }
    }

    /** Removes every entry. */
    method Clear()
      requires Valid()
      modifies `data, `memoryUsed, `keysWithTtl, mem`used
      ensures Valid() && data == map[] && memoryUsed == 0 && Elsewhere() == old(Elsewhere())
    {
      mem.Sub(memoryUsed);
      data, memoryUsed, keysWithTtl := map[], 0, 0;
    }
  }

  lemma CountedNamed(data: map<string, Entry>, memoryUsed: int, keysWithTtl: int, key: string)
    requires Counted(data, memoryUsed, keysWithTtl) && key in data
    ensures data[key].key == key
  {
  }
}
