/** The keyspace and the expiry scheduler together: over whole runs, an entry with an
    expiry is never forgotten and never removed early. */
module NoLeak {
  import opened WheelState
  import opened Expiry

  /** One atomic step of the cache, as the scheduler sees it. */
  datatype Event =
    /** A stored write: `victims` made room for it; `expireAt` is 0 when it has no expiry. */
    | Write(id: KeyId, expireAt: int, victims: set<KeyId>)
    /** A change of expiry of a resident entry. */
    | Retime(id: KeyId, expireAt: int)
    /** Entries that left: deleted, evicted, or reclaimed by a read. */
    | Leave(ids: set<KeyId>)
    /** One tick at wall-clock time `now`, the hints coming off the wheels in this order. */
    | Tick(fired: seq<Hint>, now: int)

  datatype Cache = Cache(keys: Expiries, timers: Expiry.State)

  function Hinted(c: Config, s: Cache, keys: Expiries, id: KeyId, expireAt: int): Cache
    requires ValidConfig(c)
  {
    Cache(keys, if expireAt == 0 then s.timers else Add(c, s.timers, id.shard, id.name, expireAt))
  }

  /** The hints that leave the wheels at a tick are those due then; see TickFiresExactlyTheDue. */
  ghost predicate Due(s: Expiry.State, fired: seq<Hint>) {
    && multiset(fired) <= s.pending
    && (forall h | h in fired :: h.tick == s.current + 1)
    && (forall h | h in s.pending - multiset(fired) :: h.tick > s.current + 1)
  }

  ghost predicate Enabled(s: Cache, e: Event) {
    match e
    case Write(_, at, _) => at >= 0
    case Retime(id, at) => id in s.keys && at >= 0
    case Leave(_) => true
    case Tick(fired, _) => Due(s.timers, fired)
  }

  function Validated(c: Config, fired: seq<Hint>): seq<Hint> {
    fired[..Batch(c, |fired|)]
  }

  function Taken(s: Expiry.State, fired: seq<Hint>): Expiry.State {
    s.(current := s.current + 1, pending := s.pending - multiset(fired))
  }

  function Next(c: Config, s: Cache, e: Event): Cache
    requires ValidConfig(c)
  {
    match e
    case Write(id, at, victims) => Hinted(c, s, (s.keys - victims)[id := at], id, at)
    case Retime(id, at) => Hinted(c, s, s.keys[id := at], id, at)
    case Leave(ids) => s.(keys := s.keys - ids)
    case Tick(fired, now) =>
      var hs := Validated(c, fired);
      Cache(AfterAll(s.keys, hs, now), Process(c, Taken(s.timers, fired), fired, OutcomesOf(s.keys, hs, now)))
  }

  // ---- The invariant ----

  function Latest(c: Config, s: Expiry.State, expireAt: int): nat
    requires ValidConfig(c)
  {
    var t := TickFor(c, expireAt);
    if t > s.current + 1 then t else s.current + 1
  }

  ghost predicate HintedBy(s: Expiry.State, id: KeyId, latest: nat) {
    exists h | h in s.pending :: IdOf(h) == id && h.tick <= latest
  }

  /** Every resident entry with an expiry has a pending hint that comes no later than its
      own tick, or than the next one if that has passed. */
  ghost predicate Covered(c: Config, s: Cache)
    requires ValidConfig(c)
  {
    && (forall id | id in s.keys :: s.keys[id] >= 0)
    && forall id | id in s.keys && s.keys[id] != 0 :: HintedBy(s.timers, id, Latest(c, s.timers, s.keys[id]))
  }

  lemma {:induction false} AfterAllShrinks(ks: Expiries, hs: seq<Hint>, now: int, i: nat)
    requires i <= |hs|
    ensures var r := AfterAll(ks, hs, now);
            forall id | id in r ::
              id in AfterAll(ks, hs[..i], now) && r[id] == AfterAll(ks, hs[..i], now)[id]
  {
    if i < |hs| {
      var n := |hs| - 1;
      AfterAllShrinks(ks, hs[..n], now, i);
      assert hs[..n][..i] == hs[..i];
    } else {
      assert hs[..i] == hs;
    }
  }

  lemma AfterAllWithin(ks: Expiries, hs: seq<Hint>, now: int)
    ensures forall id | id in AfterAll(ks, hs, now) :: id in ks && AfterAll(ks, hs, now)[id] == ks[id]
  {
    AfterAllShrinks(ks, hs, now, 0);
    assert hs[..0] == [];
  }

  lemma {:induction false} OutcomeAt(ks: Expiries, hs: seq<Hint>, now: int, i: nat)
    requires i < |hs|
    ensures OutcomesOf(ks, hs, now)[i] == OutcomeOf(AfterAll(ks, hs[..i], now), IdOf(hs[i]), now)
  {
    var n := |hs| - 1;
    if i < n {
      OutcomeAt(ks, hs[..n], now, i);
      assert hs[..n][..i] == hs[..i];
    }
  }

  /** A hinted key that survives the tick was found live, with a later expiry. */
  lemma SurvivorIsLater(ks: Expiries, hs: seq<Hint>, now: int, i: nat)
    requires i < |hs| && IdOf(hs[i]) in AfterAll(ks, hs, now)
    requires IdOf(hs[i]) in ks && ks[IdOf(hs[i])] != 0
    ensures now <= ks[IdOf(hs[i])]
    ensures OutcomesOf(ks, hs, now)[i] == Later(ks[IdOf(hs[i])])
  {
    OutcomeAt(ks, hs, now, i);
    AfterAllShrinks(ks, hs, now, i + 1);
    assert hs[..i + 1][..i] == hs[..i];
    AfterAllWithin(ks, hs[..i], now);
  }

  lemma SettleKeeps(c: Config, s: Expiry.State, h: Hint, o: Outcome, g: Hint)
    requires ValidConfig(c)
    ensures g in s.pending ==> g in Settle(c, s, h, o).pending
    ensures o.Later? ==> Clamp(h.(tick := TickFor(c, o.expireAt)), s.current + 1) in Settle(c, s, h, o).pending
  {
    hide TickFor;
  }

  lemma {:induction false} SettleAllKeeps(c: Config, s: Expiry.State, hs: seq<Hint>, os: seq<Outcome>, g: Hint)
    requires ValidConfig(c) && |hs| == |os| && g in s.pending
    ensures g in SettleAll(c, s, hs, os).pending
  {
    hide Settle;
    if hs != [] {
      var n := |hs| - 1;
      SettleAllKeeps(c, s, hs[..n], os[..n], g);
      SettleKeeps(c, SettleAll(c, s, hs[..n], os[..n]), hs[n], os[n], g);
    }
  }

  lemma {:induction false} SettleAllSchedules(c: Config, s: Expiry.State, hs: seq<Hint>, os: seq<Outcome>, i: nat)
    requires ValidConfig(c) && |hs| == |os| && i < |hs| && os[i].Later?
    ensures Clamp(hs[i].(tick := TickFor(c, os[i].expireAt)), s.current + 1) in SettleAll(c, s, hs, os).pending
  {
    hide TickFor;
    hide Settle;
    hide Clamp;
    var n := |hs| - 1;
    var g := Clamp(hs[i].(tick := TickFor(c, os[i].expireAt)), s.current + 1);
    if i < n {
      SettleAllSchedules(c, s, hs[..n], os[..n], i);
    }
    SettleKeeps(c, SettleAll(c, s, hs[..n], os[..n]), hs[n], os[n], g);
  }

  lemma {:induction false} DeferAllKeeps(s: Expiry.State, hs: seq<Hint>, g: Hint)
    ensures g in s.pending ==> g in DeferAll(s, hs).pending
    ensures g in hs ==> g.(tick := s.current + 1) in DeferAll(s, hs).pending
  {
    if hs != [] {
      DeferAllKeeps(s, hs[..|hs| - 1], g);
      assert hs == hs[..|hs| - 1] + [hs[|hs| - 1]];
    }
  }

  lemma ProcessKeeps(c: Config, s: Expiry.State, fired: seq<Hint>, os: seq<Outcome>, g: Hint)
    requires ValidConfig(c) && |os| == Batch(c, |fired|)
    ensures g in s.pending ==> g in Process(c, s, fired, os).pending
    ensures g in fired[Batch(c, |fired|)..] ==> g.(tick := s.current + 1) in Process(c, s, fired, os).pending
  {
    hide TickFor;
    hide SettleAll;
    hide DeferAll;
    var k := Batch(c, |fired|);
    DeferAllKeeps(s, fired[k..], g);
    var s' := DeferAll(s, fired[k..]);
    var s'' := s'.(counters := s'.counters.(deferred := s'.counters.deferred + |fired| - k));
    if g in s'.pending {
      SettleAllKeeps(c, s'', fired[..k], os, g);
    }
    var g' := g.(tick := s.current + 1);
    if g' in s'.pending {
      SettleAllKeeps(c, s'', fired[..k], os, g');
    }
  }

  lemma ProcessSchedules(c: Config, s: Expiry.State, fired: seq<Hint>, os: seq<Outcome>, i: nat)
    requires ValidConfig(c) && |os| == Batch(c, |fired|) && i < |os| && os[i].Later?
    ensures Clamp(fired[i].(tick := TickFor(c, os[i].expireAt)), s.current + 1) in Process(c, s, fired, os).pending
  {
    hide TickFor;
    var k := Batch(c, |fired|);
    var s' := DeferAll(s, fired[k..]);
    var s'' := s'.(counters := s'.counters.(deferred := s'.counters.deferred + |fired| - k));
    SettleAllSchedules(c, s'', fired[..k], os, i);
  }

  /** One entry through one tick: its hint stays, is deferred by one tick, or fires and is
      scheduled again. */
  lemma TickCoversKey(c: Config, s: Cache, fired: seq<Hint>, now: int, id: KeyId)
    requires ValidConfig(c) && Covered(c, s) && Due(s.timers, fired)
    requires var r := Next(c, s, Tick(fired, now)); id in r.keys && r.keys[id] != 0
    ensures var r := Next(c, s, Tick(fired, now));
            id in s.keys && r.keys[id] == s.keys[id] && HintedBy(r.timers, id, Latest(c, r.timers, r.keys[id]))
  {
    hide TickFor;
    hide Process;
    var hs := Validated(c, fired);
    var os := OutcomesOf(s.keys, hs, now);
    var r := Next(c, s, Tick(fired, now));
    AfterAllWithin(s.keys, hs, now);
    assert r.timers.current == s.timers.current + 1 by { ProcessClock(c, Taken(s.timers, fired), fired, os); }
    var h :| h in s.timers.pending && IdOf(h) == id && h.tick <= Latest(c, s.timers, s.keys[id]);
    assert h in fired || h in s.timers.pending - multiset(fired);
    if h !in fired {
      ProcessKeeps(c, Taken(s.timers, fired), fired, os, h);
    } else {
      var i :| 0 <= i < |fired| && fired[i] == h;
      if i < |hs| {
        SurvivorIsLater(s.keys, hs, now, i);
        ProcessSchedules(c, Taken(s.timers, fired), fired, os, i);
      } else {
        assert h in fired[|hs|..];
        ProcessKeeps(c, Taken(s.timers, fired), fired, os, h);
      }
    }
  }

  lemma ProcessClock(c: Config, s: Expiry.State, fired: seq<Hint>, os: seq<Outcome>)
    requires ValidConfig(c) && |os| == Batch(c, |fired|)
    ensures Process(c, s, fired, os).current == s.current
  {
  }

  /** The invariant is kept by every step, whatever the batch limit. */
  lemma NextCovers(c: Config, s: Cache, e: Event)
    requires ValidConfig(c) && Covered(c, s) && Enabled(s, e)
    ensures Covered(c, Next(c, s, e))
  {
    hide TickFor;
    hide Process;
    var r := Next(c, s, e);
    match e {
      case Tick(fired, now) =>
        AfterAllWithin(s.keys, Validated(c, fired), now);
        forall id | id in r.keys && r.keys[id] != 0
          ensures HintedBy(r.timers, id, Latest(c, r.timers, r.keys[id]))
        {
          TickCoversKey(c, s, fired, now, id);
        }
      case Write(id, at, victims) => HintCovers(c, s, (s.keys - victims)[id := at], id, at);
      case Retime(id, at) => HintCovers(c, s, s.keys[id := at], id, at);
      case Leave(_) =>
    }
  }

  lemma HintCovers(c: Config, s: Cache, keys: Expiries, id: KeyId, at: int)
    requires ValidConfig(c) && Covered(c, s) && at >= 0 && id in keys && keys[id] == at
    requires forall k | k in keys && k != id :: k in s.keys && keys[k] == s.keys[k]
    ensures Covered(c, Hinted(c, s, keys, id, at))
  {
    hide TickFor;
    var r := Hinted(c, s, keys, id, at);
    forall k | k in keys && keys[k] != 0
      ensures HintedBy(r.timers, k, Latest(c, r.timers, keys[k]))
    {
      if k == id {
        var h := Clamp(Hint(id.name, TickFor(c, at), id.shard), s.timers.current + 1);
        assert h in r.timers.pending && IdOf(h) == id;
      } else {
        var h :| h in s.timers.pending && IdOf(h) == k && h.tick <= Latest(c, s.timers, s.keys[k]);
        assert h in r.timers.pending;
      }
    }
  }

  // ---- Whole runs ----

  ghost predicate Run(c: Config, states: seq<Cache>, events: seq<Event>)
    requires ValidConfig(c)
  {
    && |states| == |events| + 1
    && states[0].keys == map[]
    && forall i | 0 <= i < |events| :: Enabled(states[i], events[i]) && states[i + 1] == Next(c, states[i], events[i])
  }

  lemma {:induction false} RunCovered(c: Config, states: seq<Cache>, events: seq<Event>, i: nat)
    requires ValidConfig(c) && Run(c, states, events) && i < |states|
    ensures Covered(c, states[i])
  {
    hide Next;
    hide Covered;
    if i == 0 {
      EmptyCovered(c, states[0]);
    } else {
      RunCovered(c, states, events, i - 1);
      NextCovers(c, states[i - 1], events[i - 1]);
    }
  }

  lemma EmptyCovered(c: Config, s: Cache)
    requires ValidConfig(c) && s.keys == map[]
    ensures Covered(c, s)
  {
  }

  /** With no batch limit, the tick that brings the clock to an entry's own tick or past
      it, at an instant past its expiry, removes the entry. */
  lemma TickRemovesExpired(c: Config, s: Cache, fired: seq<Hint>, now: int, id: KeyId)
    requires ValidConfig(c) && Covered(c, s) && Due(s.timers, fired) && c.limit == 0
    requires id in s.keys && s.keys[id] != 0 && now > s.keys[id]
    requires s.timers.current + 1 >= TickFor(c, s.keys[id])
    ensures id !in Next(c, s, Tick(fired, now)).keys
  {
    hide TickFor;
    hide Process;
    assert Validated(c, fired) == fired;
    if id in AfterAll(s.keys, fired, now) {
      var h :| h in s.timers.pending && IdOf(h) == id && h.tick <= Latest(c, s.timers, s.keys[id]);
      assert h in fired || h in s.timers.pending - multiset(fired);
      var k :| 0 <= k < |fired| && fired[k] == h;
      SurvivorIsLater(s.keys, fired, now, k);
    }
  }

  lemma TickReclaims(c: Config, s: Cache, fired: seq<Hint>, now: int)
    requires ValidConfig(c) && Covered(c, s) && Due(s.timers, fired)
    ensures var r := Next(c, s, Tick(fired, now));
            && Covered(c, r)
            && r.timers.current == s.timers.current + 1
            && (c.limit == 0 ==> Reclaimed(c, r, now))
  {
    hide TickFor;
    hide Process;
    hide Covered;
    NextCovers(c, s, Tick(fired, now));
    var r := Next(c, s, Tick(fired, now));
    ProcessClock(c, Taken(s.timers, fired), fired, OutcomesOf(s.keys, Validated(c, fired), now));
    AfterAllWithin(s.keys, Validated(c, fired), now);
    if c.limit == 0 {
      forall id | id in r.keys && r.keys[id] != 0
        ensures now <= r.keys[id] || TickFor(c, r.keys[id]) > r.timers.current
      {
        if now > s.keys[id] && TickFor(c, s.keys[id]) <= s.timers.current + 1 {
          TickRemovesExpired(c, s, fired, now, id);
        }
      }
    }
  }

  /** Nothing is left that has expired and whose tick has come. */
  ghost predicate Reclaimed(c: Config, s: Cache, now: int)
    requires ValidConfig(c)
  {
    forall id | id in s.keys && s.keys[id] != 0 ::
      now <= s.keys[id] || TickFor(c, s.keys[id]) > s.timers.current
  }

  /** The same over any run from an empty cache. */
  lemma ExpiredAreGone(c: Config, states: seq<Cache>, events: seq<Event>, i: nat, id: KeyId)
    requires ValidConfig(c) && Run(c, states, events) && i < |events| && events[i].Tick? && c.limit == 0
    requires id in states[i].keys && states[i].keys[id] != 0
    requires states[i + 1].timers.current >= TickFor(c, states[i].keys[id])
    requires events[i].now > states[i].keys[id]
    ensures id !in states[i + 1].keys
  {
    hide TickFor;
    hide Process;
    RunCovered(c, states, events, i);
    var s, fired := states[i], events[i].fired;
    ProcessClock(c, Taken(s.timers, fired), fired, OutcomesOf(s.keys, Validated(c, fired), events[i].now));
    TickRemovesExpired(c, s, fired, events[i].now, id);
  }

  lemma {:induction false} AfterAllRemoves(ks: Expiries, hs: seq<Hint>, now: int, id: KeyId)
    requires id in ks && id !in AfterAll(ks, hs, now)
    ensures ks[id] != 0 && now > ks[id]
  {
    var n := |hs| - 1;
    if id !in AfterAll(ks, hs[..n], now) {
      AfterAllRemoves(ks, hs[..n], now, id);
    } else {
      AfterAllWithin(ks, hs[..n], now);
    }
  }

  /** A tick removes only entries whose expiry has passed, and changes no other. */
  lemma OnlyExpiredGo(c: Config, s: Cache, fired: seq<Hint>, now: int, id: KeyId)
    requires ValidConfig(c) && id in s.keys
    ensures var r := Next(c, s, Tick(fired, now));
            if id in r.keys then r.keys[id] == s.keys[id] else s.keys[id] != 0 && now > s.keys[id]
  {
    hide Process;
    var hs := Validated(c, fired);
    AfterAllWithin(s.keys, hs, now);
    if id !in AfterAll(s.keys, hs, now) {
      AfterAllRemoves(s.keys, hs, now, id);
    }
  }
}
