/** How an expiry gets from a writer to the scheduler, step by step.  Writers, readers and
    the tick loop run at the same time; every step below is one critical section, or one
    thing a goroutine does on its own. */
module Handover {
  import opened WheelState
  import opened Expiry

  /** One wheel, behind its own lock. */
  datatype Stripe = Stripe(clock: nat, pending: multiset<Hint>)

  /** How far one client operation has got.  A stored entry is named by its index. */
  datatype Writer =
    | Out
    | Stored(id: KeyId, entry: nat)            // has stored `entry`, about to read its expiry
    | Retimed(id: KeyId)                       // has changed an expiry, about to look the key up again
    | Telling(id: KeyId, expireAt: int)        // about to hand the expiry to the scheduler

  /** How far the tick loop has got. */
  datatype Task =
    | Idle
    | Advancing(fired: seq<Hint>, i: nat, now: int)                       // the stripes below `i` have moved on
    | Deferring(tail: seq<Hint>, head: seq<Hint>, now: int)               // putting back what is past the limit
    | Validating(rest: seq<Hint>, now: int)                               // about to look the next hint up
    | Condemned(h: Hint, expireAt: int, rest: seq<Hint>, now: int)        // found it expired
    | Renewing(h: Hint, expireAt: int, rest: seq<Hint>, now: int)         // found it live

  /** `entries` are the expiries of all entries ever stored; a key leads to one of them. */
  datatype World = World(entries: seq<int>, keys: map<KeyId, nat>, stripes: seq<Stripe>, clock: nat,
                         writers: seq<Writer>, task: Task)

  function Init(stripes: nat, writers: nat): World {
    World([], map[], seq(stripes, _ => Stripe(0, multiset{})), 0, seq(writers, _ => Out), Idle)
  }

  datatype Step =
    | Store(w: nat, id: KeyId, expireAt: int)
    | Retime(w: nat, id: KeyId, expireAt: int)
    | Reread(w: nat)
    | Tell(w: nat)
    | Leave(id: KeyId)                 // deleted, evicted, or reclaimed by a read
    | BeginTick(now: int)
    | Advance(fired: seq<Hint>)
    | Defer
    | LookUp
    | Strike(later: int)
    | Renew

  predicate WellFormed(s: World) {
    && s.stripes != []
    && (forall id | id in s.keys :: s.keys[id] < |s.entries|)
    && (forall w | w in s.writers && w.Stored? :: w.entry < |s.entries|)
    && (s.task.Advancing? ==> s.task.i < |s.stripes|)
    && (s.task.Deferring? ==> s.task.tail != [])
    && (s.task.Validating? ==> s.task.rest != [])
  }

  /** The hints that leave a wheel at a tick are those due then; see TickFiresExactlyTheDue. */
  ghost predicate Due(p: Stripe, fired: seq<Hint>) {
    && multiset(fired) <= p.pending
    && (forall h | h in fired :: h.tick == p.clock + 1)
    && (forall h | h in p.pending - multiset(fired) :: h.tick > p.clock + 1)
  }

  ghost predicate Enabled(s: World, e: Step)
    requires WellFormed(s)
  {
    match e
    case Store(w, _, at) => w < |s.writers| && s.writers[w].Out? && at >= 0
    case Retime(w, id, at) => w < |s.writers| && s.writers[w].Out? && id in s.keys && at >= 0
    case Reread(w) => w < |s.writers| && (s.writers[w].Stored? || s.writers[w].Retimed?)
    case Tell(w) => w < |s.writers| && s.writers[w].Telling?
    case Leave(_) => true
    case BeginTick(_) => s.task.Idle?
    case Advance(fired) => s.task.Advancing? && Due(s.stripes[s.task.i], fired)
    case Defer => s.task.Deferring?
    case LookUp => s.task.Validating?
    case Strike(later) => s.task.Condemned? && later >= s.task.now
    case Renew => s.task.Renewing?
  }

  function Home(s: World, shard: int): (i: nat)
    requires s.stripes != []
    ensures i < |s.stripes|
  {
    shard % |s.stripes|
  }

  /** A hint is put on the wheel of its shard, for the next tick of that wheel at the earliest. */
  function Scheduled(s: World, h: Hint): (r: World)
    requires s.stripes != []
    ensures r == s.(stripes := r.stripes) && |r.stripes| == |s.stripes|
  {
    var i := Home(s, h.shard);
    var p := s.stripes[i];
    s.(stripes := s.stripes[i := p.(pending := p.pending + multiset{Clamp(h, p.clock + 1)})])
  }

  /** What a look at a key reads: 0 when there is nothing to expire. */
  function Read(s: World, id: KeyId): int
    requires WellFormed(s)
  {
    if id in s.keys then s.entries[s.keys[id]] else 0
  }

  function Remaining(rest: seq<Hint>, now: int): Task {
    if rest == [] then Idle else Validating(rest, now)
  }

  function Processing(c: Config, fired: seq<Hint>, now: int): Task {
    var k := Batch(c, |fired|);
    if k == |fired| then Remaining(fired, now) else Deferring(fired[k..], fired[..k], now)
  }

  function Next(c: Config, s: World, e: Step): (r: World)
    requires ValidConfig(c) && WellFormed(s) && Enabled(s, e)
    ensures WellFormed(r)
  {
    match e
    case Store(w, id, at) =>
      var n := |s.entries|;
      s.(entries := s.entries + [at], keys := s.keys[id := n], writers := s.writers[w := Stored(id, n)])
    case Retime(w, id, at) => s.(entries := s.entries[s.keys[id] := at], writers := s.writers[w := Retimed(id)])
    case Reread(w) =>
      var at := if s.writers[w].Stored? then s.entries[s.writers[w].entry] else Read(s, s.writers[w].id);
      s.(writers := s.writers[w := if at == 0 then Out else Telling(s.writers[w].id, at)])
    case Tell(w) =>
      var id := s.writers[w].id;
      Scheduled(s, Hint(id.name, TickFor(c, s.writers[w].expireAt), id.shard)).(writers := s.writers[w := Out])
    case Leave(id) => s.(keys := s.keys - {id})
    case BeginTick(now) => s.(clock := s.clock + 1, task := Advancing([], 0, now))
    case Advance(fired) =>
      var i := s.task.i;
      var p := s.stripes[i];
      s.(stripes := s.stripes[i := Stripe(p.clock + 1, p.pending - multiset(fired))],
         task := if i + 1 == |s.stripes| then Processing(c, s.task.fired + fired, s.task.now)
                 else Advancing(s.task.fired + fired, i + 1, s.task.now))
    case Defer =>
      var h := s.task.tail[0];
      Scheduled(s, h.(tick := s.stripes[Home(s, h.shard)].clock + 1))
        .(task := if |s.task.tail| == 1 then Remaining(s.task.head, s.task.now)
                  else Deferring(s.task.tail[1..], s.task.head, s.task.now))
    case LookUp =>
      var h, rest := s.task.rest[0], s.task.rest[1..];
      var at := Read(s, IdOf(h));
      s.(task := if at == 0 then Remaining(rest, s.task.now)
                 else if s.task.now > at then Condemned(h, at, rest, s.task.now)
                 else Renewing(h, at, rest, s.task.now))
    case Strike(later) =>
      var id := IdOf(s.task.h);
      s.(keys := if Read(s, id) != 0 && later > Read(s, id) then s.keys - {id} else s.keys,
         task := Remaining(s.task.rest, s.task.now))
    case Renew =>
      Scheduled(s, s.task.h.(tick := TickFor(c, s.task.expireAt))).(task := Remaining(s.task.rest, s.task.now))
  }

  // ---- What stands for an entry ----

  /** A hint on the wheel that comes no later than tick `TickFor(c, at)`, or than the next
      one if that has passed. */
  ghost predicate Hinted(c: Config, s: World, id: KeyId, at: int)
    requires ValidConfig(c) && s.stripes != []
  {
    var p := s.stripes[Home(s, id.shard)];
    exists h | h in p.pending :: IdOf(h) == id && (h.tick <= TickFor(c, at) || h.tick <= p.clock + 1)
  }

  /** The hints the tick loop has in hand and has still to look up. */
  function Waiting(t: Task): seq<Hint> {
    match t
    case Idle => []
    case Advancing(fired, _, _) => fired
    case Deferring(tail, head, _) => tail + head
    case Validating(rest, _) => rest
    case Condemned(_, _, rest, _) => rest
    case Renewing(_, _, rest, _) => rest
  }

  ghost predicate Waits(t: Task, id: KeyId) {
    exists h | h in Waiting(t) :: IdOf(h) == id
  }

  /** The tick loop will see to the key: it has still to look it up, or it has seen it with
      this very expiry, or it will put back a hint that is early enough. */
  ghost predicate InHand(t: Task, id: KeyId, at: int) {
    || Waits(t, id)
    || (t.Condemned? && IdOf(t.h) == id && t.expireAt == at)
    || (t.Renewing? && IdOf(t.h) == id && t.expireAt <= at)
  }

  /** An operation has still to read the expiry, or to hand over one that is early enough. */
  predicate SeesTo(w: Writer, id: KeyId, entry: nat, at: int) {
    match w
    case Out => false
    case Stored(i, n) => i == id && n == entry
    case Retimed(i) => i == id
    case Telling(i, v) => i == id && v <= at
  }

  ghost predicate Covered(c: Config, s: World, id: KeyId)
    requires ValidConfig(c) && WellFormed(s) && id in s.keys
  {
    var at := s.entries[s.keys[id]];
    || Hinted(c, s, id, at)
    || InHand(s.task, id, at)
    || exists w | w in s.writers :: SeesTo(w, id, s.keys[id], at)
  }

  ghost predicate ClockAt(s: World, i: nat)
    requires i < |s.stripes|
  {
    && s.stripes[i].clock + (if s.task.Advancing? && i >= s.task.i then 1 else 0) == s.clock
    && forall h | h in s.stripes[i].pending :: h.tick > s.stripes[i].clock
  }

  /** No two keys lead to one entry, and what is condemned has expired. */
  ghost predicate Apart(s: World) {
    && (forall a, b | a in s.keys && b in s.keys && a != b :: s.keys[a] != s.keys[b])
    && (s.task.Condemned? ==> s.task.now > s.task.expireAt)
  }

  /** What every interleaving keeps: each resident entry that expires is seen to. */
  ghost predicate Inv(c: Config, s: World)
    requires ValidConfig(c)
  {
    && WellFormed(s)
    && (forall i | 0 <= i < |s.stripes| :: ClockAt(s, i))
    && Apart(s)
    && forall id | id in s.keys && s.entries[s.keys[id]] != 0 :: Covered(c, s, id)
  }

  // ---- Every step keeps it ----

  lemma TickForMonotone(c: Config, a: int, b: int)
    requires ValidConfig(c) && a <= b
    ensures TickFor(c, a) <= TickFor(c, b)
  {
    if a > c.epoch {
      NeverEarly(c, b);
      TickForIsLeast(c, a, TickFor(c, b));
    }
  }

  lemma ScheduledClocks(s: World, h: Hint, task: Task, writers: seq<Writer>, i: nat)
    requires s.stripes != [] && i < |s.stripes| && ClockAt(s, i)
    requires task == s.task || (!task.Advancing? && !s.task.Advancing?)
    ensures ClockAt(Scheduled(s, h).(task := task, writers := writers), i)
  {
  }

  lemma AdvanceClocks(c: Config, s: World, fired: seq<Hint>, i: nat)
    requires ValidConfig(c) && WellFormed(s) && Enabled(s, Advance(fired)) && i < |s.stripes| && ClockAt(s, i)
    ensures ClockAt(Next(c, s, Advance(fired)), i)
  {
    hide TickFor;
    var r := Next(c, s, Advance(fired));
    if i == s.task.i {
      assert r.stripes[i].pending == s.stripes[i].pending - multiset(fired);
    }
  }

  /** The clock of every wheel. */
  lemma NextClocks(c: Config, s: World, e: Step, i: nat)
    requires ValidConfig(c) && WellFormed(s) && Enabled(s, e) && i < |s.stripes| && ClockAt(s, i)
    ensures |Next(c, s, e).stripes| == |s.stripes| && ClockAt(Next(c, s, e), i)
  {
    hide TickFor;
    hide ClockAt;
    hide Scheduled;
    var r := Next(c, s, e);
    match e {
      case Advance(fired) => AdvanceClocks(c, s, fired, i);
      case Tell(w) =>
        var id := s.writers[w].id;
        ScheduledClocks(s, Hint(id.name, TickFor(c, s.writers[w].expireAt), id.shard), s.task, r.writers, i);
      case Defer =>
        var h := s.task.tail[0];
        ScheduledClocks(s, h.(tick := s.stripes[Home(s, h.shard)].clock + 1), r.task, s.writers, i);
      case Renew => ScheduledClocks(s, s.task.h.(tick := TickFor(c, s.task.expireAt)), r.task, s.writers, i);
      case _ => SameClocks(s, r, i);
    }
  }

  lemma SameClocks(s: World, r: World, i: nat)
    requires i < |s.stripes| && s.stripes == r.stripes && ClockAt(s, i)
    requires if s.task.Idle? && r.task.Advancing? then r.task.i == 0 && r.clock == s.clock + 1
             else r.clock == s.clock && (r.task == s.task || (!r.task.Advancing? && !s.task.Advancing?))
    ensures ClockAt(r, i)
  {
  }

  /** A hint that has been put on its wheel is there, and nothing else has gone. */
  lemma ScheduledHints(c: Config, s: World, h: Hint, id: KeyId, at: int)
    requires ValidConfig(c) && s.stripes != []
    ensures Hinted(c, s, id, at) ==> Hinted(c, Scheduled(s, h), id, at)
    ensures IdOf(h) == id && (h.tick <= TickFor(c, at) || h.tick <= s.stripes[Home(s, id.shard)].clock + 1) ==>
              Hinted(c, Scheduled(s, h), id, at)
  {
    hide TickFor;
    var r := Scheduled(s, h);
    var i := Home(s, id.shard);
    assert forall g | g in s.stripes[i].pending :: g in r.stripes[i].pending;
    if IdOf(h) == id {
      assert Clamp(h, s.stripes[i].clock + 1) in r.stripes[i].pending;
    }
  }

  /** A key that no step of this kind touches is seen to as before. */
  lemma StillCovered(c: Config, s: World, r: World, id: KeyId)
    requires ValidConfig(c) && WellFormed(s) && WellFormed(r) && id in s.keys && id in r.keys
    requires r.keys[id] == s.keys[id] && r.entries[r.keys[id]] == s.entries[s.keys[id]]
    requires Covered(c, s, id)
    requires Hinted(c, s, id, s.entries[s.keys[id]]) ==> Hinted(c, r, id, s.entries[s.keys[id]])
    requires InHand(s.task, id, s.entries[s.keys[id]]) ==>
               InHand(r.task, id, s.entries[s.keys[id]]) || Hinted(c, r, id, s.entries[s.keys[id]])
    requires forall w | w in s.writers :: SeesTo(w, id, s.keys[id], s.entries[s.keys[id]]) ==>
               (exists v | v in r.writers :: SeesTo(v, id, s.keys[id], s.entries[s.keys[id]]))
               || Hinted(c, r, id, s.entries[s.keys[id]])
    ensures Covered(c, r, id)
  {
    hide Hinted;
    hide InHand;
    hide SeesTo;
  }

  /** What one operation does next leaves what the others see to. */
  lemma OthersSeeTo(s: World, r: World, w: nat, id: KeyId, at: int)
    requires w < |s.writers| == |r.writers| && id in s.keys
    requires forall v | 0 <= v < |s.writers| && v != w :: r.writers[v] == s.writers[v]
    requires SeesTo(s.writers[w], id, s.keys[id], at) ==> SeesTo(r.writers[w], id, s.keys[id], at)
    ensures forall x | x in s.writers :: SeesTo(x, id, s.keys[id], at) ==>
              exists v | v in r.writers :: SeesTo(v, id, s.keys[id], at)
  {
    hide SeesTo;
    forall x | x in s.writers && SeesTo(x, id, s.keys[id], at)
      ensures exists v | v in r.writers :: SeesTo(v, id, s.keys[id], at)
    {
      var k :| 0 <= k < |s.writers| && s.writers[k] == x;
      assert r.writers[k] in r.writers;
    }
  }

  lemma StoreCovers(c: Config, s: World, e: Step, id: KeyId)
    requires ValidConfig(c) && Inv(c, s) && Enabled(s, e) && (e.Store? || e.Retime?)
    requires id in Next(c, s, e).keys
    ensures id == e.id || (id in s.keys && s.entries[s.keys[id]] != 0) ==> Covered(c, Next(c, s, e), id)
  {
    hide TickFor;
    hide InHand;
    var r := Next(c, s, e);
    if id == e.id {
      assert r.writers[e.w] in r.writers;
    } else if s.entries[s.keys[id]] != 0 {
      OthersSeeTo(s, r, e.w, id, s.entries[s.keys[id]]);
      StillCovered(c, s, r, id);
    }
  }

  lemma RereadCovers(c: Config, s: World, w: nat, id: KeyId)
    requires ValidConfig(c) && WellFormed(s) && Enabled(s, Reread(w))
    requires id in s.keys && s.entries[s.keys[id]] != 0 && Covered(c, s, id)
    ensures Covered(c, Next(c, s, Reread(w)), id)
  {
    hide TickFor;
    hide InHand;
    var r := Next(c, s, Reread(w));
    OthersSeeTo(s, r, w, id, s.entries[s.keys[id]]);
    StillCovered(c, s, r, id);
  }

  lemma TellCovers(c: Config, s: World, w: nat, id: KeyId)
    requires ValidConfig(c) && WellFormed(s) && Enabled(s, Tell(w))
    requires id in s.keys && s.entries[s.keys[id]] != 0 && Covered(c, s, id)
    ensures Covered(c, Next(c, s, Tell(w)), id)
  {
    hide InHand;
    hide Scheduled;
    hide TickFor;
    hide Hinted;
    var r := Next(c, s, Tell(w));
    var at := s.entries[s.keys[id]];
    var k := s.writers[w];
    var h := Hint(k.id.name, TickFor(c, k.expireAt), k.id.shard);
    ScheduledHints(c, s, h, id, at);
    SameHints(c, Scheduled(s, h), r, id, at);
    if SeesTo(k, id, s.keys[id], at) {
      TickForMonotone(c, k.expireAt, at);
    } else {
      OthersSeeTo(s, r, w, id, at);
    }
    StillCovered(c, s, r, id);
  }

  lemma SameHints(c: Config, s: World, r: World, id: KeyId, at: int)
    requires ValidConfig(c) && s.stripes != [] && s.stripes == r.stripes
    ensures Hinted(c, s, id, at) == Hinted(c, r, id, at)
  {
    hide TickFor;
  }

  lemma BeginCovers(c: Config, s: World, e: Step, id: KeyId)
    requires ValidConfig(c) && WellFormed(s) && Enabled(s, e) && (e.BeginTick? || e.Leave?)
    requires id in s.keys && Covered(c, s, id) && id in Next(c, s, e).keys
    ensures Covered(c, Next(c, s, e), id)
  {
    hide TickFor;
  }

  /** What comes off a wheel is in hand. */
  lemma AdvanceCovers(c: Config, s: World, fired: seq<Hint>, id: KeyId)
    requires ValidConfig(c) && WellFormed(s) && Enabled(s, Advance(fired))
    requires id in s.keys && s.entries[s.keys[id]] != 0 && Covered(c, s, id)
    ensures Covered(c, Next(c, s, Advance(fired)), id)
  {
    hide TickFor;
    hide SeesTo;
    var r := Next(c, s, Advance(fired));
    var at := s.entries[s.keys[id]];
    AdvanceWaits(c, s, fired);
    if Hinted(c, s, id, at) {
      AdvanceHints(c, s, fired, id, at);
    }
    hide Hinted;
  }

  lemma AdvanceWaits(c: Config, s: World, fired: seq<Hint>)
    requires ValidConfig(c) && WellFormed(s) && Enabled(s, Advance(fired))
    ensures forall h | h in Waiting(s.task) || h in fired :: h in Waiting(Next(c, s, Advance(fired)).task)
  {
    hide TickFor;
    hide Processing;
    ProcessingWaits(c, s.task.fired + fired, s.task.now);
  }

  lemma AdvanceHints(c: Config, s: World, fired: seq<Hint>, id: KeyId, at: int)
    requires ValidConfig(c) && WellFormed(s) && Enabled(s, Advance(fired)) && Hinted(c, s, id, at)
    ensures Hinted(c, Next(c, s, Advance(fired)), id, at) || Waits(Next(c, s, Advance(fired)).task, id)
  {
    hide TickFor;
    hide Processing;
    AdvanceWaits(c, s, fired);
    var r := Next(c, s, Advance(fired));
    var p := s.stripes[Home(s, id.shard)];
    var h :| h in p.pending && IdOf(h) == id && (h.tick <= TickFor(c, at) || h.tick <= p.clock + 1);
    assert h in fired || h in r.stripes[Home(s, id.shard)].pending;
  }

  lemma ProcessingWaits(c: Config, fired: seq<Hint>, now: int)
    ensures forall h | h in fired :: h in Waiting(Processing(c, fired, now))
  {
    var k := Batch(c, |fired|);
    assert fired == fired[..k] + fired[k..];
  }

  lemma DeferCovers(c: Config, s: World, id: KeyId)
    requires ValidConfig(c) && WellFormed(s) && Enabled(s, Defer)
    requires id in s.keys && s.entries[s.keys[id]] != 0 && Covered(c, s, id)
    ensures Covered(c, Next(c, s, Defer), id)
  {
    hide Scheduled;
    hide TickFor;
    hide Hinted;
    var r := Next(c, s, Defer);
    var at := s.entries[s.keys[id]];
    var h := s.task.tail[0].(tick := s.stripes[Home(s, s.task.tail[0].shard)].clock + 1);
    ScheduledHints(c, s, h, id, at);
    SameHints(c, Scheduled(s, h), r, id, at);
    assert forall g | g in Waiting(s.task) :: g == s.task.tail[0] || g in Waiting(r.task);
    StillCovered(c, s, r, id);
  }

  lemma LookUpCovers(c: Config, s: World, id: KeyId)
    requires ValidConfig(c) && WellFormed(s) && Enabled(s, LookUp)
    requires id in s.keys && s.entries[s.keys[id]] != 0 && Covered(c, s, id)
    ensures Covered(c, Next(c, s, LookUp), id)
  {
    hide TickFor;
    hide Hinted;
    var r := Next(c, s, LookUp);
    SameHints(c, s, r, id, s.entries[s.keys[id]]);
    assert forall g | g in Waiting(s.task) :: g == s.task.rest[0] || g in Waiting(r.task);
    StillCovered(c, s, r, id);
  }

  /** An entry that is still as it was when it was condemned does not survive the second look. */
  lemma StrikeCovers(c: Config, s: World, later: int, id: KeyId)
    requires ValidConfig(c) && WellFormed(s) && Enabled(s, Strike(later)) && s.task.now > s.task.expireAt
    requires id in s.keys && s.entries[s.keys[id]] != 0 && Covered(c, s, id) && id in Next(c, s, Strike(later)).keys
    ensures Covered(c, Next(c, s, Strike(later)), id)
  {
    hide TickFor;
    hide Hinted;
    var r := Next(c, s, Strike(later));
    SameHints(c, s, r, id, s.entries[s.keys[id]]);
    StillCovered(c, s, r, id);
  }

  lemma RenewCovers(c: Config, s: World, id: KeyId)
    requires ValidConfig(c) && WellFormed(s) && Enabled(s, Renew)
    requires id in s.keys && s.entries[s.keys[id]] != 0 && Covered(c, s, id)
    ensures Covered(c, Next(c, s, Renew), id)
  {
    hide Scheduled;
    hide TickFor;
    hide Hinted;
    var r := Next(c, s, Renew);
    var at := s.entries[s.keys[id]];
    var h := s.task.h.(tick := TickFor(c, s.task.expireAt));
    ScheduledHints(c, s, h, id, at);
    SameHints(c, Scheduled(s, h), r, id, at);
    if s.task.expireAt <= at {
      TickForMonotone(c, s.task.expireAt, at);
    }
    StillCovered(c, s, r, id);
  }

  /** Whatever happens, an entry that expires is seen to: by a hint on the wheel, by the tick
      loop, or by an operation under way. */
  lemma NextInv(c: Config, s: World, e: Step)
    requires ValidConfig(c) && Inv(c, s) && Enabled(s, e)
    ensures Inv(c, Next(c, s, e))
  {
    hide TickFor;
    hide ClockAt;
    hide Covered;
    hide Apart;
    hide Next;
    NextApart(c, s, e);
    var r := Next(c, s, e);
    forall i | 0 <= i < |r.stripes|
      ensures ClockAt(r, i)
    {
      SameStripes(c, s, e);
      NextClocks(c, s, e, i);
    }
    forall id | id in r.keys && r.entries[r.keys[id]] != 0
      ensures Covered(c, r, id)
    {
      NextCovers(c, s, e, id);
    }
  }

  lemma SameStripes(c: Config, s: World, e: Step)
    requires ValidConfig(c) && WellFormed(s) && Enabled(s, e)
    ensures |Next(c, s, e).stripes| == |s.stripes|
  {
    hide TickFor;
    hide Scheduled;
  }

  lemma NextApart(c: Config, s: World, e: Step)
    requires ValidConfig(c) && WellFormed(s) && Apart(s) && Enabled(s, e)
    ensures Apart(Next(c, s, e))
  {
    hide TickFor;
    hide Scheduled;
  }

  lemma NextCovers(c: Config, s: World, e: Step, id: KeyId)
    requires ValidConfig(c) && Inv(c, s) && Enabled(s, e)
    requires id in Next(c, s, e).keys && Next(c, s, e).entries[Next(c, s, e).keys[id]] != 0
    ensures Covered(c, Next(c, s, e), id)
  {
    hide TickFor;
    hide ClockAt;
    hide Covered;
    match e {
      case Store(_, _, _) => StoreCovers(c, s, e, id);
      case Retime(_, _, _) => StoreCovers(c, s, e, id);
      case Reread(w) => RereadCovers(c, s, w, id);
      case Tell(w) => TellCovers(c, s, w, id);
      case Leave(_) => BeginCovers(c, s, e, id);
      case BeginTick(_) => BeginCovers(c, s, e, id);
      case Advance(fired) => AdvanceCovers(c, s, fired, id);
      case Defer => DeferCovers(c, s, id);
      case LookUp => LookUpCovers(c, s, id);
      case Strike(later) => StrikeCovers(c, s, later, id);
      case Renew => RenewCovers(c, s, id);
    }
  }

  // ---- What each step does ----

  /** The resident keys and their expiries, as anybody looking sees them. */
  function Seen(s: World): Expiries
    requires WellFormed(s)
  {
    map id | id in s.keys :: s.entries[s.keys[id]]
  }

  /** Every operation does to the keys what it says, the tick loop takes a key only at its
      second look and only if it has expired by then, and no other step changes any. */
  lemma KeysAfter(c: Config, s: World, e: Step)
    requires ValidConfig(c) && WellFormed(s) && Apart(s) && Enabled(s, e)
    ensures Seen(Next(c, s, e)) == match e {
              case Store(_, id, at) => Seen(s)[id := at]
              case Retime(_, id, at) => Seen(s)[id := at]
              case Leave(id) => Seen(s) - {id}
              case Strike(later) =>
                var id := IdOf(s.task.h);
                if id in Seen(s) && Seen(s)[id] != 0 && later > Seen(s)[id] then Seen(s) - {id} else Seen(s)
              case _ => Seen(s)
            }
  {
    match e {
      case Store(w, id, at) => StoreSeen(c, s, w, id, at);
      case Retime(w, id, at) => RetimeSeen(c, s, w, id, at);
      case _ => OthersSeen(c, s, e);
    }
  }

  lemma StoreSeen(c: Config, s: World, w: nat, id: KeyId, at: int)
    requires ValidConfig(c) && WellFormed(s) && Enabled(s, Store(w, id, at))
    ensures Seen(Next(c, s, Store(w, id, at))) == Seen(s)[id := at]
  {
  }

  lemma RetimeSeen(c: Config, s: World, w: nat, id: KeyId, at: int)
    requires ValidConfig(c) && WellFormed(s) && Apart(s) && Enabled(s, Retime(w, id, at))
    ensures Seen(Next(c, s, Retime(w, id, at))) == Seen(s)[id := at]
  {
  }

  lemma OthersSeen(c: Config, s: World, e: Step)
    requires ValidConfig(c) && WellFormed(s) && Enabled(s, e) && !e.Store? && !e.Retime?
    ensures Seen(Next(c, s, e)) == match e {
              case Leave(id) => Seen(s) - {id}
              case Strike(later) =>
                var id := IdOf(s.task.h);
                if id in Seen(s) && Seen(s)[id] != 0 && later > Seen(s)[id] then Seen(s) - {id} else Seen(s)
              case _ => Seen(s)
            }
  {
    hide TickFor;
    hide Scheduled;
    var r := Next(c, s, e);
    assert r.entries == s.entries;
  }

  /** Only these steps move hints: an operation that tells puts one on, for its expiry's tick or
      the next; the loop takes off exactly what is due, and puts back, for the next tick, what is
      past the limit, and for its own what it found live. */
  lemma HintsAfter(c: Config, s: World, e: Step, i: nat)
    requires ValidConfig(c) && WellFormed(s) && Enabled(s, e) && i < |s.stripes|
    ensures |Next(c, s, e).stripes| == |s.stripes|
    ensures var p, q := s.stripes[i], Next(c, s, e).stripes[i];
            match e {
              case Tell(w) =>
                q == p.(pending := p.pending + Due1(s, i, s.writers[w].id, TickFor(c, s.writers[w].expireAt)))
              case Defer => q == p.(pending := p.pending + Due1(s, i, IdOf(s.task.tail[0]), 0))
              case Renew => q == p.(pending := p.pending + Due1(s, i, IdOf(s.task.h), TickFor(c, s.task.expireAt)))
              case Advance(fired) =>
                q == if i == s.task.i then Stripe(p.clock + 1, p.pending - multiset(fired)) else p
              case _ => q == p
            }
  {
    hide TickFor;
    hide Scheduled;
    hide Due1;
    SameStripes(c, s, e);
    match e {
      case Tell(w) =>
        var id := s.writers[w].id;
        ScheduledHint(s, Hint(id.name, TickFor(c, s.writers[w].expireAt), id.shard), i);
      case Defer =>
        var h := s.task.tail[0];
        ScheduledHint(s, h.(tick := s.stripes[Home(s, h.shard)].clock + 1), i);
        NextTick(s, i, IdOf(h));
      case Renew => ScheduledHint(s, s.task.h.(tick := TickFor(c, s.task.expireAt)), i);
      case _ =>
    }
  }

  lemma ScheduledHint(s: World, h: Hint, i: nat)
    requires i < |s.stripes|
    ensures Scheduled(s, h).stripes[i] == s.stripes[i].(pending := s.stripes[i].pending + Due1(s, i, IdOf(h), h.tick))
  {
  }

  lemma NextTick(s: World, i: nat, id: KeyId)
    requires i < |s.stripes|
    ensures Due1(s, i, id, s.stripes[Home(s, id.shard)].clock + 1) == Due1(s, i, id, 0)
  {
  }

  /** The one hint that wheel `i` gets for a key: at `tick`, or at its next tick if that is later. */
  function Due1(s: World, i: nat, id: KeyId, tick: nat): multiset<Hint>
    requires i < |s.stripes|
  {
    if id.shard % |s.stripes| != i then multiset{}
    else multiset{Hint(id.name, if tick < s.stripes[i].clock + 1 then s.stripes[i].clock + 1 else tick, id.shard)}
  }

  // ---- Nothing gets stuck ----

  predicate OfTheLoop(e: Step) {
    e.Advance? || e.Defer? || e.LookUp? || e.Strike? || e.Renew?
  }

  /** The hints of a wheel that are due at a tick, in some order. */
  lemma {:induction false} Enumerated(m: multiset<Hint>, tick: nat) returns (hs: seq<Hint>)
    ensures forall h :: multiset(hs)[h] == if h.tick == tick then m[h] else 0
    decreases |m|
  {
    if m == multiset{} {
      hs := [];
    } else {
      var h :| h in m;
      var rest := Enumerated(m - multiset{h}, tick);
      hs := if h.tick == tick then rest + [h] else rest;
    }
  }

  /** In the middle of a tick the loop can always go on. */
  lemma LoopGoesOn(c: Config, s: World) returns (e: Step)
    requires ValidConfig(c) && Inv(c, s) && !s.task.Idle?
    ensures Enabled(s, e) && OfTheLoop(e)
  {
    hide Covered;
    match s.task {
      case Advancing(_, i, _) =>
        assert ClockAt(s, i);
        var p := s.stripes[i];
        var fired := Enumerated(p.pending, p.clock + 1);
        forall h | h in fired
          ensures h.tick == p.clock + 1
        {
          assert multiset(fired)[h] > 0;
        }
        forall h | h in p.pending - multiset(fired)
          ensures h.tick > p.clock + 1
        {
          assert multiset(fired)[h] < p.pending[h];
        }
        e := Advance(fired);
      case Deferring(_, _, _) => e := Defer;
      case Validating(_, _) => e := LookUp;
      case Condemned(_, _, _, now) => e := Strike(now);
      case Renewing(_, _, _, _) => e := Renew;
    }
  }

  /** How much of its tick the loop has left: wheels to move on, then steps on hints. */
  function WheelsLeft(s: World): nat
    requires WellFormed(s)
  {
    if s.task.Advancing? then |s.stripes| - s.task.i else 0
  }

  function StepsLeft(t: Task): nat {
    match t
    case Idle => 0
    case Advancing(_, _, _) => 0
    case Deferring(tail, head, _) => |tail| + 2 * |head|
    case Validating(rest, _) => 2 * |rest|
    case Condemned(_, _, rest, _) => 2 * |rest| + 1
    case Renewing(_, _, rest, _) => 2 * |rest| + 1
  }

  lemma LoopAdvances(c: Config, s: World, e: Step)
    requires ValidConfig(c) && WellFormed(s) && Enabled(s, e) && OfTheLoop(e)
    ensures var r := Next(c, s, e);
            || WheelsLeft(r) < WheelsLeft(s)
            || (WheelsLeft(r) == WheelsLeft(s) == 0 && StepsLeft(r.task) < StepsLeft(s.task))
  {
    hide TickFor;
    hide Scheduled;
  }

  lemma ChainCons(c: Config, s: World, e: Step, states: seq<World>, steps: seq<Step>)
    requires ValidConfig(c) && WellFormed(s) && Enabled(s, e)
    requires Chained(c, states, steps) && states[0] == Next(c, s, e)
    ensures Chained(c, [s] + states, [e] + steps)
    ensures ([s] + states)[|[e] + steps|] == states[|steps|]
  {
    hide Next;
    hide Enabled;
    hide WellFormed;
    forall k | 0 <= k < |[e] + steps|
      ensures WellFormed(([s] + states)[k]) && Enabled(([s] + states)[k], ([e] + steps)[k])
      ensures ([s] + states)[k + 1] == Next(c, ([s] + states)[k], ([e] + steps)[k])
    {
      if k > 0 {
        assert ([s] + states)[k] == states[k - 1] && ([e] + steps)[k] == steps[k - 1];
      }
    }
  }

  /** A tick that nobody disturbs comes to its end. */
  lemma {:induction false} TickEnds(c: Config, s: World) returns (states: seq<World>, steps: seq<Step>)
    requires ValidConfig(c) && Inv(c, s)
    ensures Chained(c, states, steps) && states[0] == s && states[|steps|].task.Idle?
    ensures forall e | e in steps :: OfTheLoop(e)
    decreases WheelsLeft(s), StepsLeft(s.task)
  {
    if s.task.Idle? {
      states, steps := [s], [];
    } else {
      var e := LoopGoesOn(c, s);
      LoopAdvances(c, s, e);
      NextInv(c, s, e);
      hide Inv;
      hide Next;
      hide Enabled;
      hide Chained;
      hide WellFormed;
      hide OfTheLoop;
      hide StepsLeft;
      hide WheelsLeft;
      states, steps := TickEnds(c, Next(c, s, e));
      ChainCons(c, s, e, states, steps);
      states, steps := [s] + states, [e] + steps;
    }
  }

  /** An operation on any key can always begin, and go on until the scheduler has been told. */
  lemma OperationsGoOn(s: World, w: nat)
    requires WellFormed(s) && w < |s.writers|
    ensures match s.writers[w] {
              case Out => forall id, at: int | at >= 0 :: Enabled(s, Store(w, id, at)) && (id in s.keys ==> Enabled(s, Retime(w, id, at)))
              case Telling(_, _) => Enabled(s, Tell(w))
              case _ => Enabled(s, Reread(w))
            }
    ensures s.task.Idle? ==> forall now: int :: Enabled(s, BeginTick(now))
    ensures forall id :: Enabled(s, Leave(id))
  {
  }

  // ---- Whole runs ----

  ghost predicate Chained(c: Config, states: seq<World>, steps: seq<Step>)
    requires ValidConfig(c)
  {
    && |states| == |steps| + 1
    && forall k | 0 <= k < |steps| ::
         WellFormed(states[k]) && Enabled(states[k], steps[k]) && states[k + 1] == Next(c, states[k], steps[k])
  }

  lemma {:induction false} ChainInv(c: Config, states: seq<World>, steps: seq<Step>, k: nat)
    requires ValidConfig(c) && Chained(c, states, steps) && Inv(c, states[0]) && k < |states|
    ensures Inv(c, states[k])
  {
    hide Next;
    hide Inv;
    if k > 0 {
      ChainInv(c, states, steps, k - 1);
      NextInv(c, states[k - 1], steps[k - 1]);
    }
  }

  lemma InitInv(c: Config, stripes: nat, writers: nat)
    requires ValidConfig(c) && stripes > 0
    ensures Inv(c, Init(stripes, writers))
  {
  }

  /** No operation on this key is under way. */
  predicate Undisturbed(s: World, id: KeyId) {
    forall w | w in s.writers :: w.Out? || w.id != id
  }

  /** In every interleaving from an empty cache: whenever the tick loop is between two ticks
      and no operation on a key is under way, an entry under it that expires has a hint on its
      wheel, no later than its own tick or the next. */
  lemma NeverStranded(c: Config, stripes: nat, writers: nat, states: seq<World>, steps: seq<Step>, k: nat, id: KeyId)
    requires ValidConfig(c) && stripes > 0 && Chained(c, states, steps) && states[0] == Init(stripes, writers)
    requires k < |states| && states[k].task.Idle? && Undisturbed(states[k], id)
    requires id in states[k].keys
    ensures Inv(c, states[k])
    ensures var s := states[k];
            s.entries[s.keys[id]] != 0 ==> Hinted(c, s, id, s.entries[s.keys[id]])
  {
    InitInv(c, stripes, writers);
    ChainInv(c, states, steps, k);
    AtRest(c, states[k], id);
  }

  lemma AtRest(c: Config, s: World, id: KeyId)
    requires ValidConfig(c) && Inv(c, s) && s.task.Idle? && Undisturbed(s, id) && id in s.keys
    ensures s.entries[s.keys[id]] != 0 ==> Hinted(c, s, id, s.entries[s.keys[id]])
  {
    hide Hinted;
    hide ClockAt;
    if s.entries[s.keys[id]] != 0 {
      assert Covered(c, s, id);
    }
  }

  // ---- A tick while others act ----

  /** The hint for the key is due on its wheel, which has still to move on. */
  ghost predicate DueAhead(s: World, id: KeyId)
    requires s.stripes != []
  {
    var i := Home(s, id.shard);
    s.task.Advancing? && s.task.i <= i && exists h | h in s.stripes[i].pending :: IdOf(h) == id && h.tick == s.stripes[i].clock + 1
  }

  /** Entry `n`, which expired at `at`, has gone, or its end has been prepared. */
  ghost predicate Doomed(s: World, id: KeyId, n: nat, at: int, now: int)
    requires WellFormed(s)
  {
    id in s.keys ==>
      && s.keys[id] == n && s.entries[n] == at
      && !s.task.Idle? && !s.task.Deferring? && s.task.now == now
      && (DueAhead(s, id) || Waits(s.task, id) || (s.task.Condemned? && IdOf(s.task.h) == id))
  }

  /** The step neither stores under the key nor changes its expiry, nor begins another tick. */
  predicate Spares(e: Step, id: KeyId) {
    !e.BeginTick? && (e.Store? || e.Retime? ==> e.id != id)
  }

  lemma BeginDooms(c: Config, s: World, now: int, id: KeyId)
    requires ValidConfig(c) && Inv(c, s) && s.task.Idle? && id in s.keys
    requires var at := s.entries[s.keys[id]]; Hinted(c, s, id, at) && TickFor(c, at) <= s.clock + 1
    ensures Doomed(Next(c, s, BeginTick(now)), id, s.keys[id], s.entries[s.keys[id]], now)
  {
    hide TickFor;
    hide Covered;
    var i := Home(s, id.shard);
    assert ClockAt(s, i);
  }

  lemma NextDooms(c: Config, s: World, e: Step, id: KeyId, n: nat, at: int, now: int)
    requires ValidConfig(c) && Inv(c, s) && Enabled(s, e) && Spares(e, id) && c.limit == 0
    requires Doomed(s, id, n, at, now) && at != 0 && now > at
    ensures Doomed(Next(c, s, e), id, n, at, now)
  {
    hide TickFor;
    hide Covered;
    hide ClockAt;
    var r := Next(c, s, e);
    if id in r.keys {
      match e {
        case Advance(fired) => AdvanceDooms(c, s, fired, id, n, at, now);
        case Tell(w) => TellDooms(c, s, w, id, n, at, now);
        case Renew => assert forall g | g in Waiting(s.task) :: g in Waiting(r.task);
        case LookUp => assert forall g | g in Waiting(s.task) :: g == s.task.rest[0] || g in Waiting(r.task);
        case Strike(_) => assert forall g | g in Waiting(s.task) :: g in Waiting(r.task);
        case _ =>
      }
    }
  }

  lemma AdvanceDooms(c: Config, s: World, fired: seq<Hint>, id: KeyId, n: nat, at: int, now: int)
    requires ValidConfig(c) && WellFormed(s) && Enabled(s, Advance(fired)) && c.limit == 0
    requires Doomed(s, id, n, at, now)
    ensures Doomed(Next(c, s, Advance(fired)), id, n, at, now)
  {
    hide TickFor;
    var r := Next(c, s, Advance(fired));
    AdvanceWaits(c, s, fired);
    if id in s.keys && DueAhead(s, id) && s.task.i == Home(s, id.shard) {
      var p := s.stripes[s.task.i];
      var h :| h in p.pending && IdOf(h) == id && h.tick == p.clock + 1;
      assert h in fired || h in p.pending - multiset(fired);
    }
  }

  lemma TellDooms(c: Config, s: World, w: nat, id: KeyId, n: nat, at: int, now: int)
    requires ValidConfig(c) && WellFormed(s) && Enabled(s, Tell(w))
    requires Doomed(s, id, n, at, now)
    ensures Doomed(Next(c, s, Tell(w)), id, n, at, now)
  {
    hide TickFor;
    var r := Next(c, s, Tell(w));
    var i := Home(s, id.shard);
    assert forall h | h in s.stripes[i].pending :: h in r.stripes[i].pending;
  }

  /** One tick, from its beginning to its end, while other operations go on as they like. */
  ghost predicate OneTick(c: Config, states: seq<World>, steps: seq<Step>)
    requires ValidConfig(c)
  {
    && Chained(c, states, steps) && steps != [] && steps[0].BeginTick?
    && (forall k | 1 <= k < |steps| :: !steps[k].BeginTick?)
    && states[|steps|].task.Idle?
  }

  lemma {:induction false} DoomedThroughout(c: Config, states: seq<World>, steps: seq<Step>, k: nat, id: KeyId)
    requires ValidConfig(c) && c.limit == 0 && OneTick(c, states, steps) && Inv(c, states[0]) && 1 <= k < |states|
    requires forall j | 1 <= j < |steps| :: Spares(steps[j], id)
    requires var s := states[0];
             && id in s.keys && Hinted(c, s, id, s.entries[s.keys[id]])
             && s.entries[s.keys[id]] != 0 && steps[0].now > s.entries[s.keys[id]]
             && TickFor(c, s.entries[s.keys[id]]) <= s.clock + 1
    ensures WellFormed(states[k])
    ensures var s := states[0]; Doomed(states[k], id, s.keys[id], s.entries[s.keys[id]], steps[0].now)
  {
    hide Next;
    hide Hinted;
    hide TickFor;
    hide Doomed;
    var s := states[0];
    if k == 1 {
      BeginDooms(c, s, steps[0].now, id);
    } else {
      DoomedThroughout(c, states, steps, k - 1, id);
      ChainInv(c, states, steps, k - 1);
      NextDooms(c, states[k - 1], steps[k - 1], id, s.keys[id], s.entries[s.keys[id]], steps[0].now);
    }
  }

  /** With no batch limit, whatever else goes on during a tick at or past an entry's own, at
      an instant past its expiry: unless an operation gave the key a new entry or a new
      expiry meanwhile, the entry has gone when the tick is over. */
  lemma ExpiredGoes(c: Config, states: seq<World>, steps: seq<Step>, id: KeyId)
    requires ValidConfig(c) && c.limit == 0 && OneTick(c, states, steps) && Inv(c, states[0])
    requires forall j | 1 <= j < |steps| :: Spares(steps[j], id)
    requires var s := states[0];
             && id in s.keys && Undisturbed(s, id)
             && s.entries[s.keys[id]] != 0 && steps[0].now > s.entries[s.keys[id]]
             && TickFor(c, s.entries[s.keys[id]]) <= s.clock + 1
    ensures id !in states[|steps|].keys
  {
    AtRest(c, states[0], id);
    DoomedThroughout(c, states, steps, |steps|, id);
  }
}
