/** The scan registry as the program keeps it, and the pages it serves. */
module ScanCursors {
  import opened MapSums
  import opened Options
  import opened ScanRuns
  import opened ScanState
  import Glob

  /** The shards as a scan sees them: which keys are live changes at any moment. */
  class Shards {
    const layout: Layout
    var live: set<string>
    /** Every set of live keys there has been. */
    ghost var history: seq<set<string>>

    constructor (layout: Layout)
      ensures this.layout == layout && live == {} && history == [{}]
    {
      this.layout := layout;
      live, history := {}, [{}];
    }

    /** Other connections write, delete, and let keys expire. */
    method Interfere()
      modifies this
      ensures history == old(history) + [live]
    {
      live := *;
      history := history + [live];
    }

    /** The live keys of one shard, in the map's own order. */
    method Keys(i: nat) returns (order: seq<string>)
      requires layout.shards > 0
      ensures Lists(layout, order, live, i)
    {
      order := [];
      var left := live;
      while left != {}
        invariant left <= live && Distinct(order)
        invariant forall k :: k in order <==> k in live && k !in left && HomeOf(layout, k) == i
        decreases left
      {
        var k :| k in left;
        left := left - {k};
        if HomeOf(layout, k) == i {
          order := order + [k];
        }
      }
    }

    /** Appends the candidates that are live and pass the filter. */
    method LiveKeys(candidates: seq<string>, match': string, dst: seq<string>) returns (r: seq<string>)
      ensures r == dst + Living(candidates, live, match')
    {
      hide Keeps;
      r := dst;
      for i := 0 to |candidates|
        invariant r == dst + Living(candidates[..i], live, match')
      {
        assert candidates[..i + 1][..i] == candidates[..i];
        var key := candidates[i];
        var keeps := Filter(match', key);
        if key in live && keeps {
          r := r + [key];
        }
      }
      assert candidates[..|candidates|] == candidates;
    }
  }

  /** These looks at the keyspace were taken since its history was `from` long, with this filter. */
  ghost predicate Observed(steps: seq<Step>, history: seq<set<string>>, from: nat, match': string)
    requires from <= |history|
  {
    forall s | s in steps :: s.live in history[from..] && (s.Batch? ==> s.match' == match')
  }

  lemma NothingObserved(history: seq<set<string>>, match': string)
    ensures Observed([], history, |history|, match')
  {
  }

  lemma ObservedLater(steps: seq<Step>, history: seq<set<string>>, later: seq<set<string>>, from: nat, match': string)
    requires from <= |history| && history <= later && Observed(steps, history, from, match')
    ensures Observed(steps, later, from, match')
  {
    forall t | t in steps
      ensures t.live in later[from..]
    {
      var i :| 0 <= i < |history[from..]| && history[from..][i] == t.live;
      assert later[from..][i] == t.live;
    }
  }

  lemma ObservedJoin(a: seq<Step>, b: seq<Step>, history: seq<set<string>>, later: seq<set<string>>, from: nat, match': string)
    requires from <= |history| && history <= later
    requires Observed(a, history, from, match') && Observed(b, later, |history|, match')
    ensures Observed(a + b, later, from, match')
  {
    ObservedLater(a, history, later, from, match');
    forall t | t in b
      ensures t.live in later[from..]
    {
      var i :| 0 <= i < |later[|history|..]| && later[|history|..][i] == t.live;
      assert later[from..][i + |history| - from] == t.live;
    }
  }

  /** The key has been live ever since the history was `from` long. */
  ghost predicate Stayed(key: string, history: seq<set<string>>, from: nat)
    requires from <= |history|
  {
    forall h | h in history[from..] :: key in h
  }

  /** The key was live at some time since then. */
  ghost predicate Appeared(key: string, history: seq<set<string>>, from: nat)
    requires from <= |history|
  {
    exists h | h in history[from..] :: key in h
  }

  lemma StayedThroughout(steps: seq<Step>, history: seq<set<string>>, from: nat, match': string, key: string)
    requires from <= |history| && Observed(steps, history, from, match') && Stayed(key, history, from) && Keeps(match', key)
    ensures Throughout(steps, key)
  {
    hide Keeps;
    forall i | 0 <= i < |steps|
      ensures key in steps[i].live && (steps[i].Batch? ==> steps[i].match' == match')
    {
      assert steps[i] in steps;
    }
  }

  lemma ReturnedAppeared(steps: seq<Step>, history: seq<set<string>>, from: nat, match': string, key: string)
    requires from <= |history| && Observed(steps, history, from, match') && key in Replay(steps).returned
    ensures Appeared(key, history, from) && Keeps(match', key)
  {
    hide Keeps;
    hide Replay;
    OnlyLive(steps, key);
    var i :| 0 <= i < |steps| && ReturnedAt(steps, i, key);
    assert steps[i] in steps;
  }

  lemma ObservedMore(steps: seq<Step>, s: Step, history: seq<set<string>>, later: seq<set<string>>, from: nat, match': string)
    requires from <= |history| && history <= later && Observed(steps, history, from, match')
    requires s.live in later[|history|..] && (s.Batch? ==> s.match' == match')
    ensures Observed(steps + [s], later, from, match')
  {
    forall t | t in steps + [s]
      ensures t.live in later[from..]
    {
      if t in steps {
        var i :| 0 <= i < |history[from..]| && history[from..][i] == t.live;
        assert later[from..][i] == t.live;
      } else {
        var i :| 0 <= i < |later[|history|..]| && later[|history|..][i] == s.live;
        assert later[from..][i + |history| - from] == s.live;
      }
    }
  }

  method SnapshotSize(keys: seq<string>) returns (need: nat)
    ensures need == CURSOR_OVERHEAD + SnapshotBytes(keys)
  {
    var total: nat := |keys| * KEY_OVERHEAD;
    for i := 0 to |keys|
      invariant total == |keys| * KEY_OVERHEAD + KeyBytes(keys[..i])
    {
      assert keys[..i + 1][..i] == keys[..i];
      total := total + |keys[i]|;
    }
    assert keys[..|keys|] == keys;
    need := CURSOR_OVERHEAD + total;
  }

  method Filter(match': string, key: string) returns (keeps: bool)
    ensures keeps == Keeps(match', key)
  {
    if match' == "" {
      return true;
    }
    ghost var trials;
    keeps, trials := Glob.MatchGlob(match', key);
  }

  datatype Failure = Unknown | TooMany | OutOfMemory | NoId

  datatype Found = Got(id: string) | Failed(why: Failure)

  datatype Advanced = Next | NoMore | Exhausted

  /** One page: the keys and the cursor for the next one, "0" when the scan is over. */
  datatype Page = Page(keys: seq<string>, next: string) | Refused(why: Failure)

  const START_ID: string := "0"
  const ID_ATTEMPTS: nat := 4

  class Registry {
    const idle: int
    const maxPerOwner: nat
    const maxBytes: nat
    const layout: Layout
    var cursors: map<string, ScanState.Cursor>
    var perConn: map<nat, nat>
    var lru: seq<string>
    var bytes: int
    /** Everything each scan has looked at so far. */
    ghost var traces: map<string, seq<Step>>
    /** The clock: the latest time the registry has been told. */
    var clock: int

    constructor (idle: int, maxPerOwner: nat, maxBytes: nat, layout: Layout, now: int)
      requires layout.shards > 0
      ensures Valid() && cursors == map[] && clock == now && this.layout == layout
    {
      this.idle, this.maxPerOwner, this.maxBytes, this.layout := idle, maxPerOwner, maxBytes, layout;
      cursors, perConn, lru, bytes := map[], map[], [], 0;
      traces, clock := map[], now;
    }

    function View(): ScanState.Registry
      reads this
    {
      ScanState.Registry(cursors, perConn, lru, bytes)
    }

    /** The books balance, both caps hold, and the list is in order of last use. */
    ghost predicate Sound()
      reads this
      ensures Sound() ==> layout.shards > 0 && START_ID !in cursors
    {
      && layout.shards > 0
      && Ok(View())
      && WithinCaps(View(), maxBytes, maxPerOwner, clock)
      && START_ID !in cursors
    }

    /** A cursor is where its scan has got to. */
    ghost predicate Traced(id: string)
      requires layout.shards > 0
      reads this
    {
      id in cursors ==> Follows(layout, cursors[id], TraceOf(id))
    }

    ghost function TraceOf(id: string): seq<Step>
      reads `traces
    {
      TraceIn(traces, id)
    }

    ghost predicate Valid()
      reads this
      ensures Valid() ==> layout.shards > 0 && START_ID !in cursors
    {
      Sound() && forall id :: Traced(id)
    }

    method DropCursor(id: string)
      requires Sound() && id in cursors
      modifies `cursors, `perConn, `lru, `bytes
      ensures Sound() && View() == Drop(old(View()), id)
    {
      hide Listed;
      hide Booked;
      hide Without;
      DropBooked(View(), id);
      DropListed(View(), id);
      var c := cursors[id];
      cursors := cursors - {id};
      lru := Without(lru, id);
      bytes := bytes - c.bytes;
      var remaining := Held(perConn, c.owner) as int - 1;
      if remaining > 0 {
        perConn := perConn[c.owner := remaining];
      } else {
        perConn := perConn - {c.owner};
      }
    }

    /** Drops every cursor that has gone idle past the timeout. */
    method Sweep(now: int)
      requires Valid() && clock <= now
      modifies this
      ensures Valid() && clock == now && traces == old(traces)
      ensures forall id :: id in cursors <==> id in old(cursors) && old(cursors)[id].lastUsed > now - idle
      ensures forall id | id in cursors :: cursors[id] == old(cursors)[id]
      ensures forall o :: Held(perConn, o) <= Held(old(perConn), o)
    {
      hide Listed;
      hide Booked;
      hide Drop;
      hide SweepBack;
      hide Follows;
      clock := now;
      SweepExact(View(), now - idle);
      ghost var target := SweepBack(View(), now - idle);
      while lru != [] && LastUsedIn(lru[|lru| - 1]) <= now - idle
        invariant Sound() && clock == now && traces == old(traces)
        invariant SweepBack(View(), now - idle) == target
        invariant forall o :: Held(perConn, o) <= Held(old(perConn), o)
        decreases |lru|
      {
        LastIsOldest(View());
        SweepOne(View(), now - idle);
        DropKeeps(View(), lru[|lru| - 1]);
        DropCursor(lru[|lru| - 1]);
      }
      if lru != [] {
        LastIsOldest(View());
      }
      NothingToSweep(View(), now - idle);
      forall id
        ensures Traced(id)
      {
        assert old(Traced(id));
      }
    }

    function LastUsedIn(id: string): int
      reads this
    {
      if id in cursors then cursors[id].lastUsed else 0
    }

    /** The least recently used cursor that is not the kept one, as a place in the list. */
    method Oldest(keep: Keep) returns (k: nat)
      ensures k <= |lru|
      ensures k < |lru| ==> keep != Only(lru[k]) && forall i | k < i < |lru| :: keep == Only(lru[i])
      ensures k == |lru| ==> forall i | 0 <= i < |lru| :: keep == Only(lru[i])
    {
      var i := |lru|;
      while i > 0
        invariant 0 <= i <= |lru|
        invariant forall j | i <= j < |lru| :: keep == Only(lru[j])
      {
        i := i - 1;
        if keep != Only(lru[i]) {
          return i;
        }
      }
      return |lru|;
    }

    /** Evicts least recently used cursors until `want` more bytes fit, and no further. */
    method MakeRoom(keep: Keep, want: nat) returns (ok: bool)
      requires Sound() && (keep.Only? ==> keep.id in cursors)
      modifies `cursors, `perConn, `lru, `bytes
      ensures Sound() && (keep.Only? ==> keep.id in cursors)
      ensures forall id | id in cursors :: id in old(cursors) && cursors[id] == old(cursors)[id]
      ensures LeastRecent(old(View()), View(), keep)
      ensures ok <==> bytes + want <= maxBytes
      ensures !ok ==> forall id | id in cursors :: keep == Only(id)
      ensures forall o :: Held(perConn, o) <= Held(old(perConn), o)
      ensures old(bytes) + want <= maxBytes ==> View() == old(View())
      ensures ok && old(bytes) + want > maxBytes ==>
                exists v | v in old(cursors) && v !in cursors :: bytes + old(cursors)[v].bytes + want > maxBytes
    {
      hide Listed;
      hide Booked;
      hide Drop;
      hide LeastRecent;
      NothingEvicted(View(), keep);
      ghost var last: string := "";
      while bytes + want > maxBytes
        invariant Sound() && (keep.Only? ==> keep.id in cursors)
        invariant forall id | id in cursors :: id in old(cursors) && cursors[id] == old(cursors)[id]
        invariant LeastRecent(old(View()), View(), keep)
        invariant forall o :: Held(perConn, o) <= Held(old(perConn), o)
        invariant old(bytes) + want <= maxBytes ==> View() == old(View())
        invariant View() == old(View())
                  || (last in old(cursors) && last !in cursors && bytes + old(cursors)[last].bytes + want > maxBytes)
        decreases |lru|
      {
        var k := Oldest(keep);
        if k == |lru| {
          OnlyKept(View(), keep);
          return false;
        }
        ListedIn(View(), k);
        EvictLeastRecent(old(View()), View(), lru[k], k, keep);
        DropKeeps(View(), lru[k]);
        DropShrinks(View(), lru[k]);
        last := lru[k];
        DropCursor(lru[k]);
      }
      ok := true;
    }

    /** An identifier no live cursor uses: the first free one among the first few generated.
        It fails when the generator does, and when all of those are taken. */
    method FreshId(generated: seq<string>) returns (f: Found)
      ensures f.Got? ==> exists k | 0 <= k < |generated| && k < ID_ATTEMPTS ::
                f.id == generated[k] && f.id !in cursors && forall j | 0 <= j < k :: generated[j] in cursors
      ensures f.Failed? <==> forall k | 0 <= k < |generated| && k < ID_ATTEMPTS :: generated[k] in cursors
      ensures f.Failed? ==> f.why == NoId
    {
      for attempt := 0 to ID_ATTEMPTS
        invariant forall k | 0 <= k < attempt :: k < |generated| && generated[k] in cursors
      {
        if attempt >= |generated| {
          return Failed(NoId);
        }
        if generated[attempt] !in cursors {
          return Got(generated[attempt]);
        }
      }
      return Failed(NoId);
    }

    method Register(owner: nat, id: string, now: int)
      requires Valid() && clock <= now && id !in cursors && id != START_ID
      requires Held(perConn, owner) < maxPerOwner && bytes + CURSOR_OVERHEAD <= maxBytes
      modifies this
      ensures Valid() && clock == now && View() == Open(old(View()), owner, id, now)
      ensures traces == old(traces)[id := []]
    {
      hide Listed;
      hide Booked;
      hide Follows;
      clock := now;
      Enter(owner, id);
      traces := traces[id := []];
      NewFollows(layout, owner, now);
      forall k
        ensures Traced(k)
      {
        assert k != id ==> old(Traced(k));
      }
    }

    method Enter(owner: nat, id: string)
      requires Sound() && id !in cursors && id != START_ID
      requires Held(perConn, owner) < maxPerOwner && bytes + CURSOR_OVERHEAD <= maxBytes
      modifies `cursors, `lru, `perConn, `bytes
      ensures Sound() && View() == Open(old(View()), owner, id, clock)
    {
      hide Listed;
      hide Booked;
      OpenOk(View(), owner, id, clock);
      OpenWithinCaps(View(), owner, id, clock, maxBytes, maxPerOwner, clock);
      hide WithinCaps;
      cursors := cursors[id := ScanState.Cursor(owner, -1, [], 0, CURSOR_OVERHEAD, clock)];
      lru := [id] + lru;
      perConn := perConn[owner := Held(perConn, owner) + 1];
      bytes := bytes + CURSOR_OVERHEAD;
    }

    /** Registers a new cursor, before any snapshot is taken. */
    method OpenCursor(owner: nat, now: int, generated: seq<string>) returns (f: Found)
      requires Valid() && clock <= now && START_ID !in generated
      modifies this
      ensures Valid()
      ensures f.Got? ==> f.id in cursors && f.id !in old(cursors) && cursors[f.id].owner == owner && TraceOf(f.id) == []
      ensures f.Got? ==> cursors[f.id].shard == -1
      ensures f.Failed? ==> f.why != Unknown
      ensures f == Failed(TooMany) <==> Held(old(perConn), owner) >= maxPerOwner
      ensures f == Failed(TooMany) ==> View() == old(View())
      ensures f == Failed(NoId) <==>
              Held(old(perConn), owner) < maxPerOwner
              && forall k | 0 <= k < |generated| && k < ID_ATTEMPTS :: generated[k] in old(cursors)
      ensures f == Failed(OutOfMemory) ==> CURSOR_OVERHEAD > maxBytes
      ensures forall id | id in cursors && f != Got(id) ::
                id in old(cursors) && cursors[id] == old(cursors)[id] && TraceOf(id) == old(TraceOf(id))
    {
      hide Listed;
      hide Booked;
      hide Drop;
      hide LeastRecent;
      hide Follows;
      if Held(perConn, owner) >= maxPerOwner {
        return Failed(TooMany);
      }
      f := FreshId(generated);
      if f.Failed? {
        return;
      }
      var ok := MakeRoom(Nobody, CURSOR_OVERHEAD);
      forall k
        ensures Traced(k)
      {
        assert old(Traced(k));
      }
      if !ok {
        NothingBooked(View());
        return Failed(OutOfMemory);
      }
      Register(owner, f.id, now);
    }

    method TouchCursor(id: string, now: int)
      requires Valid() && clock <= now && id in cursors
      modifies this
      ensures Valid() && clock == now && traces == old(traces)
      ensures View() == Touch(old(View()), id, now)
    {
      hide Listed;
      hide Booked;
      TouchOk(View(), id, now);
      cursors := cursors[id := cursors[id].(lastUsed := now)];
      lru := [id] + Without(lru, id);
      clock := now;
      forall k
        ensures Traced(k)
      {
        assert old(Traced(k));
      }
    }

    /** Opens a cursor for the start sentinel, or finds one; another connection's cursor is
        answered as an unknown one is. */
    method Resolve(owner: nat, id: string, now: int, generated: seq<string>) returns (f: Found)
      requires Valid() && clock <= now && START_ID !in generated
      modifies this
      ensures Valid()
      ensures id != START_ID ==> f == if id in old(cursors) && old(cursors)[id].owner == owner then Got(id) else Failed(Unknown)
      ensures f.Got? ==> f.id in cursors && cursors[f.id].owner == owner
      ensures f.Got? && id == START_ID ==> f.id !in old(cursors) && TraceOf(f.id) == [] && cursors[f.id].shard == -1
      ensures f.Got? && id != START_ID ==>
                TraceOf(id) == old(TraceOf(id)) && cursors[id].(lastUsed := 0) == old(cursors)[id].(lastUsed := 0)
      ensures id == START_ID && f.Failed? ==> f.why != Unknown
      ensures f == Failed(TooMany) <==> id == START_ID && Held(old(perConn), owner) >= maxPerOwner
      ensures f == Failed(NoId) <==>
              id == START_ID && Held(old(perConn), owner) < maxPerOwner
              && forall k | 0 <= k < |generated| && k < ID_ATTEMPTS :: generated[k] in old(cursors)
      ensures f == Failed(OutOfMemory) ==> id == START_ID && CURSOR_OVERHEAD > maxBytes
      ensures forall k | k in cursors && f != Got(k) ::
                k in old(cursors) && cursors[k] == old(cursors)[k] && TraceOf(k) == old(TraceOf(k))
    {
      hide Listed;
      hide Booked;
      hide Follows;
      if id == START_ID {
        f := OpenCursor(owner, now, generated);
        return;
      }
      if id !in cursors || cursors[id].owner != owner {
        return Failed(Unknown);
      }
      TouchCursor(id, now);
      f := Got(id);
    }

    /** Replaces what one cursor holds, and what it is charged for it. */
    method Recharge(id: string, shard: int, keys: seq<string>, pos: nat, charge: nat)
      requires Sound() && id in cursors && bytes - cursors[id].bytes + charge <= maxBytes
      modifies `cursors, `bytes
      ensures Sound() && bytes == old(bytes) - old(cursors)[id].bytes + charge
      ensures cursors == old(cursors)[id := old(cursors)[id].(shard := shard, keys := keys, pos := pos, bytes := charge)]
    {
      hide Listed;
      hide Booked;
      var c := cursors[id];
      var n := c.(shard := shard, keys := keys, pos := pos, bytes := charge);
      UpdateOk(View(), id, n, bytes - c.bytes + charge);
      bytes := bytes - c.bytes + charge;
      cursors := cursors[id := n];
    }

    /** Charges a cursor for the list of another shard.  The old list is given back before the
        new one is admitted; it is refused, and the cursor dropped, exactly when the new list
        does not fit on its own. */
    method Admit(id: string, shard: int, keys: seq<string>) returns (ok: bool)
      requires Sound() && id in cursors
      modifies `cursors, `perConn, `lru, `bytes
      ensures Sound()
      ensures ok <==> CURSOR_OVERHEAD + SnapshotBytes(keys) <= maxBytes
      ensures ok ==>
                && id in cursors
                && cursors[id] == old(cursors)[id].(shard := shard, keys := keys, pos := 0,
                                                    bytes := CURSOR_OVERHEAD + SnapshotBytes(keys))
      ensures !ok ==> id !in cursors
      ensures forall k | k in cursors && k != id :: k in old(cursors) && cursors[k] == old(cursors)[k]
    {
      hide Listed;
      hide Booked;
      hide LeastRecent;
      NaturalCharges(View(), id);
      Recharge(id, cursors[id].shard, [], cursors[id].pos, 0);
      var need := SnapshotSize(keys);
      ok := MakeRoom(Only(id), need);
      NaturalCharges(View(), id);
      if ok {
        Recharge(id, shard, keys, 0, need);
      } else {
        Alone(View(), id);
        DropKeeps(View(), id);
        DropCursor(id);
      }
    }

    /** Adds a step to the record of a scan whose cursor has just taken it. */
    ghost method Extend(id: string, was: ScanState.Cursor, s: Step)
      requires Sound() && id in cursors && forall k | k != id :: Traced(k)
      requires Follows(layout, was, TraceOf(id)) && Legal(layout, Walk(was.shard, was.keys, was.pos, []), s)
      requires var w := After(Walk(was.shard, was.keys, was.pos, []), s);
               cursors[id].shard == w.shard && cursors[id].keys == w.keys && cursors[id].pos == w.pos
      modifies `traces
      ensures Valid() && traces == old(traces)[id := old(TraceOf(id)) + [s]]
      ensures Replay(TraceOf(id)) == After(Replay(old(TraceOf(id))), s)
    {
      hide Listed;
      hide Booked;
      hide Follows;
      hide Legal;
      hide After;
      FollowsOn(layout, was, TraceOf(id), s, cursors[id]);
      traces := traces[id := TraceOf(id) + [s]];
      forall k
        ensures Traced(k)
      {
        assert k != id ==> old(Traced(k));
      }
    }

    /** Moves a cursor whose list is spent on to the next shard, taking that shard's key list
        as it is at this moment. */
    method Advance(id: string, shards: Shards) returns (a: Advanced, ghost taken: Step)
      requires Valid() && id in cursors && shards.layout == layout && cursors[id].pos >= |cursors[id].keys|
      modifies this, shards
      ensures Valid() && clock == old(clock)
      ensures -1 <= old(cursors)[id].shard < layout.shards
      ensures a == NoMore <==> old(cursors)[id].shard + 1 >= layout.shards
      ensures a == NoMore ==> View() == old(View()) && traces == old(traces)
      ensures old(shards.history) <= shards.history
      ensures a == NoMore ==> shards.history == old(shards.history)
      ensures a != NoMore ==> taken.live in shards.history[|old(shards.history)|..]
      ensures a != NoMore ==> taken.Snapshot? && Lists(layout, taken.order, taken.live, old(cursors)[id].shard + 1)
      ensures a != NoMore ==> (a == Exhausted <==> CURSOR_OVERHEAD + SnapshotBytes(taken.order) > maxBytes)
      ensures a == Exhausted ==> id !in cursors
      ensures a == Next ==>
                && id in cursors && cursors[id].owner == old(cursors)[id].owner
                && cursors[id].shard == old(cursors)[id].shard + 1 && cursors[id].pos == 0
                && TraceOf(id) == old(TraceOf(id)) + [taken]
                && Replay(TraceOf(id)).returned == Replay(old(TraceOf(id))).returned
                && Ahead(Replay(old(TraceOf(id))), Replay(TraceOf(id)))
      ensures forall k | k in cursors && k != id ::
                k in old(cursors) && cursors[k] == old(cursors)[k] && TraceOf(k) == old(TraceOf(k))
    {
      hide Listed;
      hide Booked;
      hide Follows;
      hide LeastRecent;
      hide Lists;
      hide After;
      hide Replay;
      hide Legal;
      hide Ahead;
      assert Traced(id);
      FollowsInside(layout, cursors[id], TraceOf(id));
      taken := Batch(0, {}, "");
      ghost var was := cursors[id];
      var next := cursors[id].shard + 1;
      if next >= layout.shards {
        return NoMore, taken;
      }
      shards.Interfere();
      var keys := shards.Keys(next);
      taken := Snapshot(keys, shards.live);
      var ok := Admit(id, next, keys);
      if !ok {
        forall k
          ensures Traced(k)
        {
          assert old(Traced(k));
        }
        return Exhausted, taken;
      }
      forall k | k != id
        ensures Traced(k)
      {
        assert old(Traced(k));
      }
      SnapshotMoves(layout, was, old(TraceOf(id)), keys, shards.live);
      Extend(id, was, taken);
      a := Next;
    }

    /** Judges the next `take` keys of a cursor's list. */
    method Take(id: string, take: nat, shards: Shards, match': string, dst: seq<string>)
      returns (keys: seq<string>, ghost more: seq<string>)
      requires Valid() && id in cursors && cursors[id].pos + take <= |cursors[id].keys|
      modifies `cursors, `traces, `bytes, shards
      ensures Valid() && View() == Forward(old(View()), id, take)
      ensures traces == old(traces)[id := old(TraceOf(id)) + [Batch(take, shards.live, match')]]
      ensures shards.history == old(shards.history) + [shards.live]
      ensures more == Living(old(cursors)[id].keys[old(cursors)[id].pos..old(cursors)[id].pos + take], shards.live, match')
      ensures keys == dst + more && |more| <= take
      ensures Replay(TraceOf(id)).returned == Replay(old(TraceOf(id))).returned + more
      ensures take > 0 ==> Ahead(Replay(old(TraceOf(id))), Replay(TraceOf(id)))
    {
      hide Listed;
      hide Booked;
      hide Follows;
      hide After;
      hide Replay;
      hide Legal;
      hide Ahead;
      hide Living;
      assert Traced(id);
      ghost var was := cursors[id];
      var batch := cursors[id].keys[cursors[id].pos..cursors[id].pos + take];
      Recharge(id, cursors[id].shard, cursors[id].keys, cursors[id].pos + take, cursors[id].bytes);
      shards.Interfere();
      keys := shards.LiveKeys(batch, match', dst);
      LivingShort(batch, shards.live, match');
      more := Living(batch, shards.live, match');
      forall k | k != id
        ensures Traced(k)
      {
        assert old(Traced(k));
      }
      BatchMoves(layout, was, old(TraceOf(id)), take, shards.live, match');
      Extend(id, was, Batch(take, shards.live, match'));
    }

    /** One turn of a page: the next list when the current one is spent, or else the next keys
        of it; a scan that is over is forgotten, as is one whose next list does not fit. */
    method Look(id: string, shards: Shards, room: nat, match': string, dst: seq<string>)
      returns (outcome: Advanced, keys: seq<string>, examined: nat, ghost taken: Step)
      requires Valid() && id in cursors && shards.layout == layout && room > 0
      modifies this, shards
      ensures Valid() && clock == old(clock) && old(shards.history) <= shards.history
      ensures outcome != Next ==> id !in cursors && keys == dst
      ensures outcome == Exhausted ==> Oversized(layout, shards.history, |old(shards.history)|, maxBytes)
      ensures outcome == NoMore ==> Finished(layout, Replay(old(TraceOf(id))))
      ensures outcome == Next ==>
                && id in cursors && cursors[id].owner == old(cursors)[id].owner
                && TraceOf(id) == old(TraceOf(id)) + [taken]
                && taken.live in shards.history[|old(shards.history)|..] && (taken.Batch? ==> taken.match' == match')
                && Ahead(Replay(old(TraceOf(id))), Replay(TraceOf(id)))
                && dst <= keys && Replay(TraceOf(id)).returned == Replay(old(TraceOf(id))).returned + keys[|dst|..]
                && |keys| - |dst| <= examined <= room
                && old(cursors)[id].shard < layout.shards
                && (examined > 0 || cursors[id].shard > old(cursors)[id].shard)
      ensures Spared(id, old(cursors), old(traces), cursors, traces)
    {
      hide Sound;
      hide LegalRun;
      hide After;
      hide Replay;
      assert Traced(id);
      FollowsInside(layout, cursors[id], TraceOf(id));
      keys, examined := dst, 0;
      if cursors[id].pos >= |cursors[id].keys| {
        outcome, taken := Advance(id, shards);
        assert Replay(TraceOf(id)).returned == Replay(TraceOf(id)).returned + [];
        if outcome == NoMore {
          Forget(id);
        }
      } else {
        outcome, examined := Next, Smaller(room, |cursors[id].keys| - cursors[id].pos);
        ghost var more;
        keys, more := Take(id, examined, shards, match', keys);
        taken := Batch(examined, shards.live, match');
      }
    }

    /** Examines keys until the page is full or the scan is over. */
    method Fill(id: string, shards: Shards, count: nat, match': string)
      returns (outcome: Advanced, keys: seq<string>, ghost run: seq<Step>, ghost steps: seq<Step>)
      requires Valid() && id in cursors && shards.layout == layout
      modifies this, shards
      ensures Valid() && clock == old(clock)
      ensures LegalRun(layout, run) && run == old(TraceOf(id)) + steps && |keys| <= count
      ensures old(shards.history) <= shards.history && Observed(steps, shards.history, |old(shards.history)|, match')
      ensures Replay(run).returned == Replay(old(TraceOf(id))).returned + keys
      ensures outcome == NoMore ==> Finished(layout, Replay(run))
      ensures outcome != Next ==> id !in cursors
      ensures outcome == Exhausted ==> Oversized(layout, shards.history, |old(shards.history)|, maxBytes)
      ensures outcome == Next ==>
                && id in cursors && cursors[id].owner == old(cursors)[id].owner && TraceOf(id) == run
                && (count > 0 ==> Ahead(Replay(old(TraceOf(id))), Replay(run)))
      ensures Spared(id, old(cursors), old(traces), cursors, traces)
    {
      hide Valid;
      hide Ahead;
      hide LegalRun;
      hide After;
      hide Replay;
      hide Observed;
      hide Finished;
      hide Spared;
      hide Oversized;
      AllSpared(id, cursors, traces);
      keys, run, steps := [], TraceOf(id), [];
      NothingObserved(shards.history, match');
      ghost var start := Replay(run);
      var examined: nat := 0;
      TracedLegal(id);
      while examined < count
        invariant Valid() && clock == old(clock)
        invariant id in cursors && cursors[id].owner == old(cursors)[id].owner && TraceOf(id) == run
        invariant LegalRun(layout, run) && run == old(TraceOf(id)) + steps && |keys| <= examined <= count
        invariant old(shards.history) <= shards.history && Observed(steps, shards.history, |old(shards.history)|, match')
        invariant Replay(run).returned == start.returned + keys
        invariant Ahead(start, Replay(run)) || Replay(run) == start
        invariant examined > 0 ==> Ahead(start, Replay(run))
        invariant Spared(id, old(cursors), old(traces), cursors, traces)
        decreases count - examined, layout.shards - cursors[id].shard
      {
        ghost var taken;
        ghost var history, was, tracesWere := shards.history, cursors, traces;
        ghost var page := keys;
        var more;
        outcome, keys, more, taken := Look(id, shards, count - examined, match', keys);
        SparedOn(id, old(cursors), old(traces), was, tracesWere, cursors, traces);
        if outcome != Next {
          ObservedLater(steps, history, shards.history, |old(shards.history)|, match');
          if outcome == Exhausted {
            OversizedSince(layout, shards.history, |old(shards.history)|, |history|, maxBytes);
          }
          return;
        }
        ObservedMore(steps, taken, history, shards.history, |old(shards.history)|, match');
        examined := examined + more;
        Appended(start.returned, page, keys);
        AheadOn(start, Replay(run), Replay(TraceOf(id)));
        run, steps := TraceOf(id), steps + [taken];
        TracedLegal(id);
      }
      outcome := Next;
    }

    lemma TracedLegal(id: string)
      requires Valid() && id in cursors
      ensures LegalRun(layout, TraceOf(id))
    {
      assert Traced(id);
    }

    method Forget(id: string)
      requires Valid() && id in cursors
      modifies `cursors, `perConn, `lru, `bytes
      ensures Valid() && View() == Drop(old(View()), id)
    {
      hide Listed;
      hide Booked;
      hide Follows;
      DropCursor(id);
      DropKeeps(old(View()), id);
      forall k
        ensures Traced(k)
      {
        assert old(Traced(k));
      }
    }

    /** What a request for `id` already has behind it. */
    ghost function Behind(id: string): seq<Step>
      reads `traces
    {
      if id == START_ID then [] else TraceOf(id)
    }

    /** Serves the next page of a scan. */
    method NextPage(shards: Shards, owner: nat, id: string, count: nat, match': string,
                    now: int, later: int, generated: seq<string>)
      returns (p: Page, ghost run: seq<Step>, ghost steps: seq<Step>)
      requires Valid() && clock <= now <= later && START_ID !in generated && shards.layout == layout
      modifies this, shards
      ensures Valid()
      ensures p == Refused(Unknown) <==>
              id != START_ID && !(id in old(cursors) && old(cursors)[id].owner == owner && old(cursors)[id].lastUsed > now - idle)
      ensures p.Page? ==>
                && LegalRun(layout, run) && run == old(Behind(id)) + steps && |p.keys| <= count
                && Replay(run).returned == Replay(old(Behind(id))).returned + p.keys
      ensures old(shards.history) <= shards.history && Observed(steps, shards.history, |old(shards.history)|, match')
      ensures p.Page? && p.next == START_ID ==> Finished(layout, Replay(run)) && id !in cursors
      ensures p.Page? && p.next != START_ID ==>
                && p.next in cursors && cursors[p.next].owner == owner && TraceOf(p.next) == run
                && (if id != START_ID then p.next == id
                    else p.next in old(cursors) ==> old(cursors)[p.next].lastUsed <= now - idle)
                && (count > 0 ==> Ahead(Replay(old(Behind(id))), Replay(run)))
      ensures forall k | k in cursors && !(p.Page? && p.next == k) ::
                k in old(cursors) && cursors[k] == old(cursors)[k] && TraceOf(k) == old(TraceOf(k))
      // a page is refused for these reasons only
      ensures p == Refused(TooMany) ==> id == START_ID && Held(old(perConn), owner) >= maxPerOwner
      ensures p == Refused(NoId) ==>
                id == START_ID && forall k | 0 <= k < |generated| && k < ID_ATTEMPTS :: generated[k] in old(cursors)
      ensures p == Refused(OutOfMemory) ==>
                (id == START_ID && CURSOR_OVERHEAD > maxBytes) || Oversized(layout, shards.history, |old(shards.history)|, maxBytes)
    {
      hide Sound;
      hide LegalRun;
      hide Finished;
      hide Ahead;
      hide Oversized;
      Sweep(now);
      run, steps := [], [];
      NothingObserved(shards.history, match');
      hide Observed;
      var f := Resolve(owner, id, later, generated);
      if f.Failed? {
        return Refused(f.why), run, steps;
      }
      var outcome, keys;
      outcome, keys, run, steps := Fill(f.id, shards, count, match');
      match outcome {
        case Next => p := Page(keys, f.id);
        case NoMore => p := Page(keys, START_ID);
        case Exhausted => p := Refused(OutOfMemory);
      }
    }

    /** A connection has gone away: drops exactly its cursors. */
    method Release(owner: nat)
      requires Valid()
      modifies `cursors, `perConn, `lru, `bytes
      ensures Valid() && Held(perConn, owner) == 0
      ensures forall id :: id in cursors <==> id in old(cursors) && old(cursors)[id].owner != owner
      ensures forall id | id in cursors :: cursors[id] == old(cursors)[id]
    {
      hide Sound;
      hide Drop;
      var left := cursors.Keys;
      while left != {}
        invariant Valid() && left <= cursors.Keys
        invariant forall id :: id in cursors <==> id in old(cursors) && (id in left || old(cursors)[id].owner != owner)
        invariant forall id | id in cursors :: cursors[id] == old(cursors)[id]
        decreases left
      {
        var id :| id in left;
        left := left - {id};
        if cursors[id].owner == owner {
          DropKeeps(View(), id);
          Forget(id);
        }
      }
      NoneOwned(View(), owner, this);
    }

    /** The engine shuts down: nothing stays on the books. */
    method CloseAll()
      requires Valid()
      modifies `cursors, `perConn, `lru, `bytes
      ensures Valid() && cursors == map[] && perConn == map[] && lru == [] && bytes == 0
    {
      hide Sound;
      hide Drop;
      var left := cursors.Keys;
      while left != {}
        invariant Valid() && cursors.Keys == left
        decreases left
      {
        var id :| id in left;
        left := left - {id};
        DropKeeps(View(), id);
        Forget(id);
      }
      NothingHeld(this);
    }
  }

  lemma NoneOwned(r: ScanState.Registry, owner: nat, reg: Registry)
    requires reg.Sound() && r == reg.View() && forall id | id in r.cursors :: r.cursors[id].owner != owner
    ensures Held(r.perConn, owner) == 0
  {
    SumAllZero(r.cursors, OwnedBy(owner));
  }

  lemma FirstListed(ids: seq<string>)
    ensures ids == [] || ids[0] in ids
  {
  }

  lemma NothingHeld(reg: Registry)
    requires reg.Sound() && reg.cursors == map[]
    ensures reg.perConn == map[] && reg.lru == [] && reg.bytes == 0
  {
    forall o
      ensures o !in reg.perConn
    {
      NoneOwned(reg.View(), o, reg);
    }
    FirstListed(reg.lru);
  }

  lemma {:induction false} SumAllZero(m: map<string, ScanState.Cursor>, w: ScanState.Cursor -> int)
    requires forall k | k in m :: w(m[k]) == 0
    ensures MapSum(m, w) == 0
    decreases |m|
  {
    if m != map[] {
      var k :| k in m;
      SumWithout(m, k, w);
      SumAllZero(m - {k}, w);
    }
  }

  lemma KeepsMeans(match': string)
    ensures forall key :: Keeps(match', key) <==> match' == "" || (key != "" && Glob.Matches(Glob.Tokens(match'), key))
  {
  }

  /** A client follows a scan to its end while other connections open, page and drop scans
      of their own, and the keyspace changes as it will.  Unless a page is refused, the keys
      it collects never repeat; every key that was live all along, and passes the filter, is
      among them; and each was live at some time meanwhile. */
  method FollowScan(reg: Registry, shards: Shards, owner: nat, count: nat, match': string)
    returns (refusal: Option<Failure>, keys: seq<string>)
    requires reg.Valid() && shards.layout == reg.layout && count > 0
    modifies reg, shards
    ensures reg.Valid() && old(shards.history) <= shards.history
    // memory is refused only where a key list, or a cursor without one, is over the limit by itself
    ensures refusal == Some(OutOfMemory) ==>
              CURSOR_OVERHEAD > reg.maxBytes || Oversized(reg.layout, shards.history, |old(shards.history)|, reg.maxBytes)
    ensures refusal.None? ==> Distinct(keys)
    ensures refusal.None? ==> forall key | Stayed(key, shards.history, |old(shards.history)|)
              && (match' == "" || (key != "" && Glob.Matches(Glob.Tokens(match'), key))) :: key in keys
    ensures refusal.None? ==> forall key | key in keys ::
              Appeared(key, shards.history, |old(shards.history)|)
              && (match' == "" || (key != "" && Glob.Matches(Glob.Tokens(match'), key)))
  {
    KeepsMeans(match');
    hide LegalRun;
    hide Throughout;
    hide Keeps;
    hide Finished;
    hide Replay;
    hide Observed;
    hide Registry.Valid;
    hide Oversized;
    var next := START_ID;
    keys := [];
    ghost var run: seq<Step> := [];
    ghost var from := |shards.history|;
    Beginning(reg.layout);
    NothingObserved(shards.history, match');
    while true
      invariant reg.Valid() && LegalRun(reg.layout, run)
      invariant Replay(run).returned == keys && Standing(reg.layout, Replay(run))
      invariant next == START_ID ==> run == []
      invariant next in reg.cursors && reg.cursors[next].owner == owner ==> reg.TraceOf(next) == run
      invariant old(shards.history) <= shards.history && Observed(run, shards.history, from, match')
      decreases reg.layout.shards - Replay(run).shard, |Replay(run).keys| - Replay(run).pos
    {
      ghost var before := shards.history;
      Meanwhile(reg, shards, owner);
      ObservedLater(run, before, shards.history, from, match');
      var now :| reg.clock <= now;
      var generated: seq<string> :| START_ID !in generated;
      assert next != START_ID && next in reg.cursors && reg.cursors[next].owner == owner ==> reg.Behind(next) == run;
      ghost var was, history := run, shards.history;
      var p;
      ghost var steps;
      p, run, steps := reg.NextPage(shards, owner, next, count, match', now, now, generated);
      if p.Refused? {
        if Oversized(reg.layout, shards.history, |history|, reg.maxBytes) {
          OversizedSince(reg.layout, shards.history, from, |history|, reg.maxBytes);
        }
        return Some(p.why), keys;
      }
      ObservedJoin(was, steps, history, shards.history, from, match');
      keys := keys + p.keys;
      if p.next == START_ID {
        ExactlyOnce(reg.layout, run);
        forall key | Stayed(key, shards.history, from) && Keeps(match', key)
          ensures key in keys
        {
          StayedThroughout(run, shards.history, from, match', key);
        }
        forall key | key in keys
          ensures Appeared(key, shards.history, from) && Keeps(match', key)
        {
          ReturnedAppeared(run, shards.history, from, match', key);
        }
        return None, keys;
      }
      next := p.next;
      Stands(reg.layout, run);
    }
  }

  /** Other connections use the registry, and the keyspace changes, for a while. */
  method Meanwhile(reg: Registry, shards: Shards, owner: nat)
    requires reg.Valid() && shards.layout == reg.layout
    modifies reg, shards
    ensures reg.Valid() && old(shards.history) <= shards.history
    ensures forall k | k in reg.cursors && reg.cursors[k].owner == owner ::
              k in old(reg.cursors) && reg.cursors[k] == old(reg.cursors)[k] && reg.TraceOf(k) == old(reg.TraceOf(k))
  {
    hide Registry.Valid;
    hide LegalRun;
    var requests :| 0 <= requests;
    for i := 0 to requests
      invariant reg.Valid() && old(shards.history) <= shards.history
      invariant forall k | k in reg.cursors && reg.cursors[k].owner == owner ::
                  k in old(reg.cursors) && reg.cursors[k] == old(reg.cursors)[k] && reg.TraceOf(k) == old(reg.TraceOf(k))
    {
      var other: nat, count: nat :| true;
      var id: string, match': string := *, *;
      if other != owner {
        if * {
          reg.Release(other);
        } else {
          var now :| reg.clock <= now;
          var generated: seq<string> :| START_ID !in generated;
          var p;
          ghost var run, steps;
          p, run, steps := reg.NextPage(shards, other, id, count, match', now, now, generated);
        }
      }
      shards.Interfere();
    }
  }

  ghost predicate Standing(l: Layout, w: Walk) {
    -1 <= w.shard < l.shards && w.pos <= |w.keys|
  }

  lemma Beginning(l: Layout)
    requires l.shards > 0
    ensures LegalRun(l, []) && Standing(l, Replay([])) && Replay([]).returned == []
  {
  }

  lemma Stands(l: Layout, steps: seq<Step>)
    requires l.shards > 0 && LegalRun(l, steps)
    ensures Standing(l, Replay(steps))
  {
    hide LegalRun;
    RunOrderly(l, steps);
  }

  function Smaller(a: nat, b: nat): (m: nat)
    ensures m <= a && m <= b && (m == a || m == b)
  {
    if a < b then a else b
  }

  /** The second walk has got further than the first. */
  ghost predicate Ahead(a: Walk, b: Walk) {
    b.shard > a.shard || (b.shard == a.shard && b.keys == a.keys && b.pos > a.pos)
  }

  ghost function TraceIn(traces: map<string, seq<Step>>, id: string): seq<Step> {
    if id in traces then traces[id] else []
  }

  /** There was a moment at which the key list of some shard was more than a cursor may hold. */
  ghost predicate Oversized(l: Layout, history: seq<set<string>>, from: nat, maxBytes: nat)
    requires l.shards > 0
  {
    from <= |history|
    && exists live, order, i: nat ::
         live in history[from..] && Lists(l, order, live, i) && CURSOR_OVERHEAD + SnapshotBytes(order) > maxBytes
  }

  lemma OversizedSince(l: Layout, history: seq<set<string>>, from: nat, later: nat, maxBytes: nat)
    requires l.shards > 0 && from <= later && Oversized(l, history, later, maxBytes)
    ensures Oversized(l, history, from, maxBytes)
  {
    hide Lists;
    hide SnapshotBytes;
    var live, order, i: nat :|
      live in history[later..] && Lists(l, order, live, i) && CURSOR_OVERHEAD + SnapshotBytes(order) > maxBytes;
    var k :| 0 <= k < |history[later..]| && history[later..][k] == live;
    assert history[from..][k + later - from] == live;
  }

  lemma NothingBooked(r: ScanState.Registry)
    requires Booked(r) && r.cursors == map[]
    ensures r.bytes == 0
  {
  }

  /** Every other cursor that is still there is as it was, and so is the record of its scan. */
  ghost predicate Spared(id: string, was: map<string, ScanState.Cursor>, tracesWere: map<string, seq<Step>>,
                         cursors: map<string, ScanState.Cursor>, traces: map<string, seq<Step>>)
  {
    forall k | k in cursors && k != id ::
      k in was && cursors[k] == was[k] && TraceIn(traces, k) == TraceIn(tracesWere, k)
  }

  lemma AllSpared(id: string, cursors: map<string, ScanState.Cursor>, traces: map<string, seq<Step>>)
    ensures Spared(id, cursors, traces, cursors, traces)
  {
  }

  lemma SparedOn(id: string, a: map<string, ScanState.Cursor>, ta: map<string, seq<Step>>,
                 b: map<string, ScanState.Cursor>, tb: map<string, seq<Step>>,
                 c: map<string, ScanState.Cursor>, tc: map<string, seq<Step>>)
    requires Spared(id, a, ta, b, tb) && Spared(id, b, tb, c, tc)
    ensures Spared(id, a, ta, c, tc)
  {
  }

  lemma Appended(before: seq<string>, page: seq<string>, keys: seq<string>)
    requires page <= keys
    ensures before + page + keys[|page|..] == before + keys
  {
  }

  lemma AheadOn(a: Walk, b: Walk, c: Walk)
    requires (Ahead(a, b) || a == b) && Ahead(b, c)
    ensures Ahead(a, c)
  {
  }

  /** The run of a scan leads to exactly where its cursor stands. */
  ghost predicate Follows(l: Layout, c: ScanState.Cursor, steps: seq<Step>)
    requires l.shards > 0
  {
    && LegalRun(l, steps)
    && var w := Replay(steps);
       w.shard == c.shard && w.keys == c.keys && w.pos == c.pos
  }

  lemma NothingEvicted(r: ScanState.Registry, keep: Keep)
    ensures LeastRecent(r, r, keep)
  {
  }

  lemma OnlyKept(r: ScanState.Registry, keep: Keep)
    requires Listed(r) && forall i | 0 <= i < |r.lru| :: keep == Only(r.lru[i])
    ensures forall id | id in r.cursors :: keep == Only(id)
  {
    forall id | id in r.cursors
      ensures keep == Only(id)
    {
      assert id in r.lru;
    }
  }

  lemma ListedIn(r: ScanState.Registry, k: nat)
    requires Listed(r) && k < |r.lru|
    ensures r.lru[k] in r.cursors
  {
    assert r.lru[k] in r.lru;
  }

  lemma DropShrinks(r: ScanState.Registry, id: string)
    requires Listed(r) && id in r.cursors
    ensures |Drop(r, id).lru| < |r.lru| && Drop(r, id).bytes == r.bytes - r.cursors[id].bytes
  {
    assert id in r.lru;
    WithoutShorter(r.lru, id);
  }

  lemma {:induction false} WithoutShorter(ids: seq<string>, id: string)
    requires id in ids
    ensures |Without(ids, id)| == |ids| - 1
  {
    if ids[0] != id {
      WithoutShorter(ids[1..], id);
    }
  }

  lemma NewFollows(l: Layout, owner: nat, now: int)
    requires l.shards > 0
    ensures Follows(l, ScanState.Cursor(owner, -1, [], 0, CURSOR_OVERHEAD, now), [])
  {
  }

  lemma FollowsInside(l: Layout, c: ScanState.Cursor, steps: seq<Step>)
    requires l.shards > 0 && Follows(l, c, steps)
    ensures -1 <= c.shard < l.shards && c.pos <= |c.keys|
    ensures var w := Replay(steps); w.shard == c.shard && w.keys == c.keys && w.pos == c.pos
  {
    hide LegalRun;
    RunOrderly(l, steps);
  }

  lemma FollowsOn(l: Layout, c: ScanState.Cursor, steps: seq<Step>, s: Step, n: ScanState.Cursor)
    requires l.shards > 0 && Follows(l, c, steps)
    requires Legal(l, Walk(c.shard, c.keys, c.pos, []), s)
    requires var w := After(Walk(c.shard, c.keys, c.pos, []), s); n.shard == w.shard && n.keys == w.keys && n.pos == w.pos
    ensures Follows(l, n, steps + [s])
    ensures Replay(steps + [s]) == After(Replay(steps), s)
  {
    hide Lists;
    var more := steps + [s];
    assert more[..|more| - 1] == steps;
    assert Legal(l, Replay(steps), s);
    LegalOn(l, steps, s);
  }

  lemma BatchMoves(l: Layout, c: ScanState.Cursor, steps: seq<Step>, take: nat, live: set<string>, m: string)
    requires l.shards > 0 && Follows(l, c, steps) && c.pos + take <= |c.keys|
    ensures var s := Batch(take, live, m);
            var w := After(Walk(c.shard, c.keys, c.pos, []), s);
            var n := After(Replay(steps), s);
            && Legal(l, Walk(c.shard, c.keys, c.pos, []), s)
            && w.shard == c.shard && w.keys == c.keys && w.pos == c.pos + take
            && n.returned == Replay(steps).returned + Living(c.keys[c.pos..c.pos + take], live, m)
            && (take > 0 ==> Ahead(Replay(steps), n))
  {
    hide LegalRun;
    hide Living;
  }

  lemma SnapshotMoves(l: Layout, c: ScanState.Cursor, steps: seq<Step>, order: seq<string>, live: set<string>)
    requires l.shards > 0 && Follows(l, c, steps) && c.pos >= |c.keys| && c.shard + 1 < l.shards
    requires -1 <= c.shard && Lists(l, order, live, c.shard + 1)
    ensures var s := Snapshot(order, live);
            var w := After(Walk(c.shard, c.keys, c.pos, []), s);
            var n := After(Replay(steps), s);
            && Legal(l, Walk(c.shard, c.keys, c.pos, []), s)
            && w.shard == c.shard + 1 && w.keys == order && w.pos == 0
            && n.returned == Replay(steps).returned && Ahead(Replay(steps), n)
  {
    hide LegalRun;
    hide Lists;
  }

  lemma LegalOn(l: Layout, steps: seq<Step>, s: Step)
    requires l.shards > 0 && LegalRun(l, steps) && Legal(l, Replay(steps), s)
    ensures LegalRun(l, steps + [s])
  {
    hide Legal;
    hide Replay;
    var more := steps + [s];
    forall i | 0 <= i < |more|
      ensures Legal(l, Replay(more[..i]), more[i])
    {
      assert more[..i] == steps[..i];
      if i < |steps| {
        assert Legal(l, Replay(steps[..i]), steps[i]);
      } else {
        assert steps[..i] == steps;
      }
    }
  }

  lemma {:induction false} LivingShort(cs: seq<string>, live: set<string>, m: string)
    ensures |Living(cs, live, m)| <= |cs|
  {
    hide Keeps;
    if cs != [] {
      LivingShort(cs[..|cs| - 1], live, m);
    }
  }

  /** No cursor is charged more than the whole. */
  lemma NaturalCharges(r: ScanState.Registry, id: string)
    requires Booked(r) && id in r.cursors
    ensures 0 <= r.cursors[id].bytes <= r.bytes
  {
    SumNatural(r.cursors, BytesOf);
  }

  /** A lone cursor charged nothing leaves nothing on the books. */
  lemma Alone(r: ScanState.Registry, id: string)
    requires Booked(r) && id in r.cursors && r.cursors[id].bytes == 0 && forall k | k in r.cursors :: Only(id) == Only(k)
    ensures r.bytes == 0
  {
    SumWithout(r.cursors, id, BytesOf);
    assert r.cursors - {id} == map[];
  }
}
