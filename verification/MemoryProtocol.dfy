/** The memory limit under concurrency.  Writers on different shards run at the same time;
    on one shard the write lock admits one at a time.  Every step below is one atomic
    operation of a lock holder, or a change of the limit. */
module MemoryProtocol {
  import opened SeqSums
  import opened MapSums
  import Entries

  /** What the holder of a shard's write lock is doing. */
  datatype Phase =
    | Unlocked
    | Writing(key: string, size: nat, credit: nat)                           // read what it displaces
    | Limited(key: string, size: nat, credit: nat, limit: nat)               // loaded the limit
    | Loaded(key: string, size: nat, credit: nat, limit: nat, seen: nat)     // loaded the use
    | Reserved(key: string, size: nat, credit: nat)                          // swapped the use
    | Removing(size: nat)                                                    // entry gone from the shard
    | Subtracting(size: nat, seen: nat)                                      // loaded the use
    | Clearing                                                               // about to clear the shard
    | ClearingFrom(seen: nat)                                                // loaded the use
    | Cleared                                                                // use given back, shard still full

  /** `entries` are the accounted sizes of the resident entries. */
  datatype Shard = Shard(entries: map<string, nat>, memoryUsed: int, phase: Phase)

  const EMPTY: Shard := Shard(map[], 0, Unlocked)

  /** A limit of 0 means none. */
  datatype State = State(limit: nat, used: nat, shards: seq<Shard>)

  datatype Step =
    | BeginWrite(i: nat, key: string, size: nat)
    | LoadLimit(i: nat)
    | LoadUsed(i: nat)
    | SwapReserve(i: nat)
    | Commit(i: nat)
    | BeginRemove(i: nat, key: string)
    | LoadForSub(i: nat)
    | SwapSub(i: nat)
    | BeginClear(i: nat)
    | FinishClear(i: nat)
    | SetLimit(limit: nat)

  function SizeAt(entries: map<string, nat>, key: string): nat {
    if key in entries then entries[key] else 0
  }

  /** What an entry under `key` may be charged: see `Chargeables`. */
  predicate Chargeable(key: string, size: nat) {
    Entries.SizeOf(key, "") <= size <= Entries.MAX_UINT32
  }

  /** Those are exactly the sizes that entries have. */
  lemma Chargeables(key: string, size: nat)
    ensures Chargeable(key, size) <==> exists value :: Entries.SizeOf(key, value) == size
  {
    if Chargeable(key, size) {
      var long := |key| + Entries.ENTRY_OVERHEAD;
      var value := seq(if long < size then size - long else 0, _ => 'v');
      assert Entries.SizeOf(key, value) == size;
    }
  }

  predicate Enabled(s: State, e: Step) {
    if e.SetLimit? then true
    else
      && e.i < |s.shards|
      && var p := s.shards[e.i].phase;
         match e
         case BeginWrite(_, key, size) => p.Unlocked? && Chargeable(key, size)
         case LoadLimit(_) => p.Writing?
         case LoadUsed(_) => p.Limited?
         case SwapReserve(_) => p.Loaded?
         case Commit(_) => p.Reserved?
         case BeginRemove(_, key) => p.Unlocked? && key in s.shards[e.i].entries
         case LoadForSub(_) => p.Removing? || p.Clearing?
         case SwapSub(_) => p.Subtracting? || p.ClearingFrom?
         case BeginClear(_) => p.Unlocked?
         case FinishClear(_) => p.Cleared?
  }

  function To(s: State, i: nat, p: Phase): State
    requires i < |s.shards|
  {
    s.(shards := s.shards[i := s.shards[i].(phase := p)])
  }

  /** What a reservation would make of the use it saw; the refund is clamped to it. */
  function Reservation(seen: nat, size: nat, credit: nat): nat {
    seen - (if credit > seen then seen else credit) + size
  }

  /** Subtraction from the use, clamped at zero. */
  function Reduced(seen: nat, bytes: int): nat {
    if bytes > seen then 0 else seen - bytes
  }

  function Next(s: State, e: Step): State
    requires Enabled(s, e)
  {
    if e.SetLimit? then s.(limit := e.limit)
    else
      var h := s.shards[e.i];
      var p := h.phase;
      match e
      case BeginWrite(i, key, size) => To(s, i, Writing(key, size, SizeAt(h.entries, key)))
      case LoadLimit(i) => To(s, i, Limited(p.key, p.size, p.credit, s.limit))
      case LoadUsed(i) => To(s, i, Loaded(p.key, p.size, p.credit, p.limit, s.used))
      case SwapReserve(i) =>
        var next := Reservation(p.seen, p.size, p.credit);
        if p.limit != 0 && next > p.limit then To(s, i, Unlocked)          // refused
        else if s.used == p.seen then To(s.(used := next), i, Reserved(p.key, p.size, p.credit))
        else To(s, i, Limited(p.key, p.size, p.credit, p.limit))           // lost the race: try again
      case Commit(i) =>
        s.(shards := s.shards[i := Shard(h.entries[p.key := p.size], h.memoryUsed - p.credit + p.size, Unlocked)])
      case BeginRemove(i, key) =>
        s.(shards := s.shards[i := Shard(h.entries - {key}, h.memoryUsed - h.entries[key], Removing(h.entries[key]))])
      case LoadForSub(i) => To(s, i, if p.Removing? then Subtracting(p.size, s.used) else ClearingFrom(s.used))
      case SwapSub(i) =>
        if s.used != p.seen then To(s, i, if p.Subtracting? then Removing(p.size) else Clearing)
        else if p.Subtracting? then To(s.(used := Reduced(p.seen, p.size)), i, Unlocked)
        else To(s.(used := Reduced(p.seen, h.memoryUsed)), i, Cleared)
      case BeginClear(i) => To(s, i, Clearing)
      case FinishClear(i) => s.(shards := s.shards[i := Shard(map[], 0, Unlocked)])
  }

  // ---- The books ----

  /** A shard's share of the use: its own counter, plus what its lock holder has already
      reserved, or not yet given back. */
  function Share(h: Shard): int {
    match h.phase
    case Reserved(_, size, credit) => h.memoryUsed + size - credit
    case Removing(size) => h.memoryUsed + size
    case Subtracting(size, _) => h.memoryUsed + size
    case Cleared => 0
    case _ => h.memoryUsed
  }

  function Id(n: nat): int {
    n
  }

  const LEAST: nat := Entries.ENTRY_OVERHEAD

  /** No write or removal under way is of less than any entry is charged. */
  predicate Sized(p: Phase) {
    match p
    case Writing(_, size, _) => size >= LEAST
    case Limited(_, size, _, _) => size >= LEAST
    case Loaded(_, size, _, _, _) => size >= LEAST
    case Reserved(_, size, _) => size >= LEAST
    case Removing(size) => size >= LEAST
    case Subtracting(size, _) => size >= LEAST
    case _ => true
  }

  ghost predicate ShardOk(h: Shard) {
    && h.memoryUsed == MapSum(h.entries, Id)
    && Sized(h.phase) && (forall k | k in h.entries :: h.entries[k] >= LEAST)
    && match h.phase {
         case Writing(key, _, credit) => credit == SizeAt(h.entries, key)
         case Limited(key, _, credit, _) => credit == SizeAt(h.entries, key)
         case Loaded(key, _, credit, _, seen) => credit == SizeAt(h.entries, key) && credit <= seen
         case Reserved(key, _, credit) => credit == SizeAt(h.entries, key)
         case Subtracting(size, seen) => size <= seen
         case ClearingFrom(seen) => h.memoryUsed <= seen
         case _ => true
       }
  }

  /** The use is the sum of the shards' counters plus what is in flight. */
  ghost predicate Inv(s: State) {
    && s.used == Sum(s.shards, Share)
    && forall i | 0 <= i < |s.shards| :: ShardOk(s.shards[i])
  }

  lemma ShareCovers(h: Shard)
    requires ShardOk(h)
    ensures Share(h) >= 0 && h.memoryUsed >= 0
    ensures forall key :: h.memoryUsed >= SizeAt(h.entries, key)
    ensures h.phase.Limited? || h.phase.Writing? || h.phase.Loaded? ==> Share(h) >= h.phase.credit
    ensures h.phase.Removing? || h.phase.Subtracting? ==> Share(h) >= h.phase.size
  {
    SumNatural(h.entries, Id);
    forall key
      ensures h.memoryUsed >= SizeAt(h.entries, key)
    {
      if key in h.entries {
        assert Id(h.entries[key]) <= MapSum(h.entries, Id);
      }
    }
  }

  /** The clamps never engage: whatever a lock holder gives back is part of the use. */
  lemma UseCovers(s: State, i: nat)
    requires Inv(s) && i < |s.shards|
    ensures s.used >= Share(s.shards[i]) >= 0
  {
    forall k | 0 <= k < |s.shards|
      ensures Share(s.shards[k]) >= 0
    {
      ShareCovers(s.shards[k]);
    }
    SumNonNegative(s.shards, Share);
  }

  // ---- Every step keeps the books ----

  lemma InitInv(limit: nat, n: nat)
    ensures Inv(State(limit, 0, seq(n, _ => Shard(map[], 0, Unlocked))))
  {
    var s := State(limit, 0, seq(n, _ => Shard(map[], 0, Unlocked)));
    SumZero(s.shards, Share);
  }

  lemma NothingResident()
    ensures MapSum<string, nat>(map[], Id) == 0
  {
  }

  /** The shard a step works on stays consistent. */
  lemma NextShardOk(s: State, e: Step)
    requires Inv(s) && Enabled(s, e) && !e.SetLimit?
    ensures ShardOk(Next(s, e).shards[e.i])
  {
    hide Sum;
    hide MapSum;
    NothingResident();
    var h := s.shards[e.i];
    UseCovers(s, e.i);
    ShareCovers(h);
    match e {
      case Commit(_) => SumWith(h.entries, h.phase.key, h.phase.size, Id);
      case BeginRemove(_, key) => SumWithout(h.entries, key, Id);
      case _ =>
    }
  }

  /** The use moves by exactly what the shard's share moves. */
  lemma NextShare(s: State, e: Step)
    requires Inv(s) && Enabled(s, e) && !e.SetLimit?
    ensures var r := Next(s, e);
            && r.shards == s.shards[e.i := r.shards[e.i]]
            && r.used - s.used == Share(r.shards[e.i]) - Share(s.shards[e.i])
  {
    hide Sum;
    hide MapSum;
    UseCovers(s, e.i);
    ShareCovers(s.shards[e.i]);
  }

  lemma NextInv(s: State, e: Step)
    requires Inv(s) && Enabled(s, e)
    ensures Inv(Next(s, e))
  {
    if !e.SetLimit? {
      NextShardOk(s, e);
      NextShare(s, e);
      var r := Next(s, e);
      hide Next;
      hide ShardOk;
      SumUpdate(s.shards, e.i, r.shards[e.i], Share);
    }
  }

  // ---- The limit ----

  predicate Within(used: int, limit: nat) {
    limit == 0 || used <= limit
  }

  /** Limit `a` allows something that limit `b` does not. */
  predicate Looser(a: nat, b: nat) {
    b != 0 && (a == 0 || a > b)
  }

  /** The step that takes the use over the limit: a limit set below the use, or a reservation
      that goes through on the limit it loaded earlier, and not on the present one. */
  predicate Breaks(s: State, e: Step)
    requires Enabled(s, e)
  {
    if e.SetLimit? then !Within(s.used, e.limit)
    else
      var p := s.shards[e.i].phase;
      && e.SwapReserve? && s.used == p.seen
      && var next := Reservation(p.seen, p.size, p.credit);
         Within(next, p.limit) && !Within(next, s.limit)
  }

  /** From within the limit, these are the only steps that exceed it. */
  lemma OnlyThese(s: State, e: Step)
    requires Inv(s) && Enabled(s, e) && Within(s.used, s.limit)
    ensures Within(Next(s, e).used, Next(s, e).limit) <==> !Breaks(s, e)
  {
    hide Sum;
    hide MapSum;
    if !e.SetLimit? {
      UseCovers(s, e.i);
      ShareCovers(s.shards[e.i]);
    }
  }

  // ---- When a change of limit is safe ----

  /** A reservation on this shard works from a limit it loaded earlier. */
  predicate Pending(h: Shard) {
    h.phase.Limited? || h.phase.Loaded?
  }

  /** The reservation under way on this shard can take the use over limit `m`: it grows the
      use, it loaded a looser limit, and that limit does not refuse it, neither for the use it
      has seen nor when everything else has gone.  It then exceeds `m` by itself; or there is
      another shard to fill up first, and at least one entry of the least size fits there,
      under `m` now and under the looser limit beside the reservation. */
  predicate Threatens(h: Shard, m: nat, alone: bool) {
    Pending(h)
    && var p := h.phase;
       var least := h.memoryUsed - p.credit + p.size;
       && Looser(p.limit, m)
       && p.size > p.credit
       && Within(least, p.limit)
       && (p.Loaded? ==> Within(Reservation(p.seen, p.size, p.credit), p.limit))
       && (least > m || (!alone && h.memoryUsed + LEAST <= m && Within(least + LEAST, p.limit)))
  }

  /** What a caller could check before setting the limit to `m`. */
  predicate Safe(s: State, m: nat) {
    Within(s.used, m) && forall i | 0 <= i < |s.shards| :: !Threatens(s.shards[i], m, |s.shards| == 1)
  }

  /** A continuation without a change of limit. */
  predicate Path(s: State, steps: seq<Step>)
    decreases |steps|
  {
    steps == [] || (!steps[0].SetLimit? && Enabled(s, steps[0]) && Path(Next(s, steps[0]), steps[1..]))
  }

  function End(s: State, steps: seq<Step>): State
    requires Path(s, steps)
    decreases |steps|
  {
    if steps == [] then s else End(Next(s, steps[0]), steps[1..])
  }

  /** The only shard there is holds all of the use. */
  lemma AloneUses(s: State)
    requires Inv(s) && |s.shards| == 1
    ensures s.used == Share(s.shards[0])
  {
    assert Sum(s.shards[..0], Share) == 0;
  }

  lemma ShareGap(h: Shard)
    requires ShardOk(h)
    ensures Share(h) == 0 || Share(h) >= LEAST
  {
    ShareCovers(h);
    NothingResident();
    SumNatural(h.entries, Id);
    hide MapSum;
    if h.entries != map[] {
      var k :| k in h.entries;
      assert Id(h.entries[k]) <= MapSum(h.entries, Id);
    }
  }

  lemma {:induction false} SumGap(hs: seq<Shard>)
    requires forall k | 0 <= k < |hs| :: ShardOk(hs[k])
    ensures Sum(hs, Share) == 0 || Sum(hs, Share) >= LEAST
  {
    if hs != [] {
      SumGap(hs[..|hs| - 1]);
      ShareGap(hs[|hs| - 1]);
    }
  }

  /** All the other shards together hold nothing, or at least one entry. */
  lemma OthersGap(s: State, i: nat)
    requires Inv(s) && i < |s.shards|
    ensures s.used == Share(s.shards[i]) || s.used >= Share(s.shards[i]) + LEAST
  {
    var others := s.shards[i := EMPTY];
    NothingResident();
    SumUpdate(s.shards, i, EMPTY, Share);
    SumGap(others);
  }

  lemma NextWithin(s: State, e: Step)
    requires Inv(s) && Enabled(s, e) && !e.SetLimit? && Safe(s, s.limit)
    ensures Within(Next(s, e).used, s.limit)
  {
    hide Sum;
    hide MapSum;
    OnlyThese(s, e);
    UseCovers(s, e.i);
    ShareCovers(s.shards[e.i]);
    if |s.shards| == 1 {
      AloneUses(s);
    }
    OthersGap(s, e.i);
    assert !Threatens(s.shards[e.i], s.limit, |s.shards| == 1);
  }

  lemma NextHarmless(s: State, e: Step)
    requires Inv(s) && Enabled(s, e) && !e.SetLimit?
    requires !Threatens(s.shards[e.i], s.limit, |s.shards| == 1)
    ensures !Threatens(Next(s, e).shards[e.i], s.limit, |s.shards| == 1)
  {
    hide Sum;
    hide MapSum;
    UseCovers(s, e.i);
    ShareCovers(s.shards[e.i]);
  }

  lemma NextSafe(s: State, e: Step)
    requires Inv(s) && Enabled(s, e) && !e.SetLimit? && Safe(s, s.limit)
    ensures Safe(Next(s, e), s.limit)
  {
    NextWithin(s, e);
    NextHarmless(s, e);
    NextShare(s, e);
    hide Next;
    hide Threatens;
  }

  lemma {:induction false} SafePath(s: State, steps: seq<Step>)
    requires Inv(s) && Safe(s, s.limit) && Path(s, steps)
    ensures Within(End(s, steps).used, s.limit)
    decreases |steps|
  {
    if steps != [] {
      NextInv(s, steps[0]);
      NextSafe(s, steps[0]);
      hide Inv;
      hide Safe;
      assert Next(s, steps[0]).limit == s.limit by { LimitStays(s, steps[0]); }
      hide Next;
      SafePath(Next(s, steps[0]), steps[1..]);
    }
  }

  lemma LimitStays(s: State, e: Step)
    requires Enabled(s, e) && !e.SetLimit?
    ensures Next(s, e).limit == s.limit
  {
  }

  // ---- An unsafe change has a continuation that exceeds the limit ----

  lemma PathCons(s: State, e: Step, rest: seq<Step>)
    requires Enabled(s, e) && !e.SetLimit? && Path(Next(s, e), rest)
    ensures Path(s, [e] + rest) && End(s, [e] + rest) == End(Next(s, e), rest)
  {
    assert ([e] + rest)[1..] == rest;
  }

  lemma {:induction false} PathJoin(s: State, a: seq<Step>, b: seq<Step>)
    requires Path(s, a) && Path(End(s, a), b)
    ensures Path(s, a + b) && End(s, a + b) == End(End(s, a), b)
    decreases |a|
  {
    hide Next;
    hide Enabled;
    if a == [] {
      assert a + b == b;
    } else {
      PathJoin(Next(s, a[0]), a[1..], b);
      PathCons(s, a[0], a[1..] + b);
      assert [a[0]] + (a[1..] + b) == a + b;
    }
  }

  /** What the lock holder of shard `k` does next. */
  function Action(s: State, k: nat): (e: Step)
    requires k < |s.shards| && !s.shards[k].phase.Unlocked?
    ensures !e.SetLimit? && e.i == k && Enabled(s, e)
  {
    match s.shards[k].phase
    case Writing(_, _, _) => LoadLimit(k)
    case Limited(_, _, _, _) => LoadUsed(k)
    case Loaded(_, _, _, _, _) => SwapReserve(k)
    case Reserved(_, _, _) => Commit(k)
    case Removing(_) => LoadForSub(k)
    case Subtracting(_, _) => SwapSub(k)
    case Clearing => LoadForSub(k)
    case ClearingFrom(_) => SwapSub(k)
    case Cleared => FinishClear(k)
    case Unlocked => LoadUsed(k)
  }

  /** How many steps that takes at most, when nobody else moves. */
  function StepsLeft(s: State, k: nat): nat
    requires k < |s.shards|
  {
    match s.shards[k].phase
    case Unlocked => 0
    case Writing(_, _, _) => 4
    case Limited(_, _, _, _) => 3
    case Loaded(_, _, _, _, seen) => if seen == s.used then 2 else 4
    case Reserved(_, _, _) => 1
    case Removing(_) => 3
    case Subtracting(_, seen) => if seen == s.used then 2 else 4
    case Clearing => 3
    case ClearingFrom(seen) => if seen == s.used then 2 else 4
    case Cleared => 1
  }

  lemma ActionAdvances(s: State, k: nat)
    requires k < |s.shards| && !s.shards[k].phase.Unlocked?
    ensures var r := Next(s, Action(s, k));
            && r.limit == s.limit && r.shards == s.shards[k := r.shards[k]]
            && StepsLeft(r, k) < StepsLeft(s, k)
  {
  }

  /** The use is over the limit, or else nothing but shard `k` has changed. */
  ghost predicate OverOrOnly(s: State, r: State, k: nat)
    requires k < |s.shards|
  {
    && Inv(r) && r.limit == s.limit && |r.shards| == |s.shards|
    && (!Within(r.used, r.limit) || r.shards == s.shards[k := r.shards[k]])
  }

  /** The lock holder of shard `k` can be run to the end. */
  lemma {:induction false} Unlock(s: State, k: nat) returns (steps: seq<Step>)
    requires Inv(s) && k < |s.shards|
    ensures Path(s, steps)
    ensures var r := End(s, steps); OverOrOnly(s, r, k) && (Within(r.used, r.limit) ==> r.shards[k].phase.Unlocked?)
    decreases StepsLeft(s, k)
  {
    if s.shards[k].phase.Unlocked? || !Within(s.used, s.limit) {
      steps := [];
      assert s.shards == s.shards[k := s.shards[k]];
    } else {
      var e := Action(s, k);
      ActionAdvances(s, k);
      NextInv(s, e);
      hide Inv;
      hide Next;
      hide Action;
      hide StepsLeft;
      var rest := Unlock(Next(s, e), k);
      PathCons(s, e, rest);
      steps := [e] + rest;
    }
  }

  /** An unlocked shard can be cleared. */
  lemma Empty(s: State, k: nat) returns (steps: seq<Step>)
    requires Inv(s) && k < |s.shards| && s.shards[k].phase.Unlocked?
    ensures Path(s, steps)
    ensures var r := End(s, steps);
            Inv(r) && r.limit == s.limit && r.shards == s.shards[k := EMPTY]
  {
    hide Inv;
    hide Path;
    hide End;
    var s1 := Next(s, BeginClear(k));
    NextInv(s, BeginClear(k));
    var s2 := Next(s1, LoadForSub(k));
    NextInv(s1, LoadForSub(k));
    assert s2.limit == s.limit && s2.shards == s.shards[k := s2.shards[k]];
    assert s2.shards[k].phase == ClearingFrom(s2.used);
    var rest := FinishEmpty(s2, k);
    hide Next;
    PathCons(s1, LoadForSub(k), rest);
    PathCons(s, BeginClear(k), [LoadForSub(k)] + rest);
    steps := [BeginClear(k)] + ([LoadForSub(k)] + rest);
  }

  lemma FinishEmpty(s: State, k: nat) returns (steps: seq<Step>)
    requires Inv(s) && k < |s.shards| && s.shards[k].phase == ClearingFrom(s.used)
    ensures Path(s, steps)
    ensures var r := End(s, steps);
            Inv(r) && r.limit == s.limit && r.shards == s.shards[k := EMPTY]
  {
    hide Inv;
    var s1 := Next(s, SwapSub(k));
    NextInv(s, SwapSub(k));
    var s2 := Next(s1, FinishClear(k));
    NextInv(s1, FinishClear(k));
    assert s2.limit == s.limit && s2.shards == s.shards[k := EMPTY];
    hide Next;
    PathCons(s1, FinishClear(k), []);
    PathCons(s, SwapSub(k), [FinishClear(k)] + []);
    steps := [SwapSub(k)] + ([FinishClear(k)] + []);
  }

  /** Every shard before `n` but shard `i` can be emptied, unless the limit is exceeded first. */
  lemma {:induction false} EmptyOthers(s: State, i: nat, n: nat) returns (steps: seq<Step>)
    requires Inv(s) && i < |s.shards| && n <= |s.shards|
    ensures Path(s, steps)
    ensures var r := End(s, steps);
            && Inv(r) && r.limit == s.limit && |r.shards| == |s.shards|
            && (Within(r.used, r.limit) ==>
                  && r.shards[i] == s.shards[i]
                  && forall k | 0 <= k < n && k != i :: r.shards[k] == EMPTY)
    decreases n
  {
    if n == 0 {
      steps := [];
    } else {
      hide Inv;
      hide Next;
      hide Path;
      hide End;
      steps := EmptyOthers(s, i, n - 1);
      var r := End(s, steps);
      var k := n - 1;
      if Within(r.used, r.limit) && k != i {
        var more := Unlock(r, k);
        PathJoin(s, steps, more);
        steps := steps + more;
        var u := End(r, more);
        if Within(u.used, u.limit) {
          var last := Empty(u, k);
          PathJoin(s, steps, last);
          steps := steps + last;
        }
      }
    }
  }

  lemma OnlyOneHolds(s: State, i: nat)
    requires Inv(s) && i < |s.shards| && forall k | 0 <= k < |s.shards| && k != i :: s.shards[k] == EMPTY
    ensures s.used == Share(s.shards[i])
  {
    SumUpdate(s.shards, i, EMPTY, Share);
    SumZero(s.shards[i := EMPTY], Share);
  }

  /** An entry under a fresh key can be written to shard `j`, if it fits. */
  lemma WriteOne(s: State, j: nat, key: string, size: nat) returns (steps: seq<Step>)
    requires j < |s.shards| && s.shards[j].phase.Unlocked? && key !in s.shards[j].entries
    requires Chargeable(key, size) && Within(s.used + size, s.limit)
    ensures Path(s, steps)
    ensures var h := s.shards[j];
            End(s, steps) ==
            s.(used := s.used + size, shards := s.shards[j := Shard(h.entries[key := size], h.memoryUsed + size, Unlocked)])
  {
    hide Path;
    hide End;
    hide Chargeable;
    var e := BeginWrite(j, key, size);
    var s1 := Next(s, e);
    var s2 := Next(s1, LoadLimit(j));
    var s3 := Next(s2, LoadUsed(j));
    assert s3 == s.(shards := s.shards[j := s.shards[j].(phase := Loaded(key, size, 0, s.limit, s.used))]);
    var rest := FinishWrite(s3, j);
    PathCons(s2, LoadUsed(j), rest);
    PathCons(s1, LoadLimit(j), [LoadUsed(j)] + rest);
    PathCons(s, e, [LoadLimit(j)] + ([LoadUsed(j)] + rest));
    steps := [e] + ([LoadLimit(j)] + ([LoadUsed(j)] + rest));
  }

  lemma FinishWrite(s: State, j: nat) returns (steps: seq<Step>)
    requires j < |s.shards| && s.shards[j].phase.Loaded?
    requires var p := s.shards[j].phase; p.seen == s.used && p.credit == 0 && Within(s.used + p.size, p.limit)
    ensures Path(s, steps)
    ensures var h := s.shards[j];
            var p := h.phase;
            End(s, steps) ==
            s.(used := s.used + p.size, shards := s.shards[j := Shard(h.entries[p.key := p.size], h.memoryUsed + p.size, Unlocked)])
  {
    var s1 := Next(s, SwapReserve(j));
    var s2 := Next(s1, Commit(j));
    PathCons(s1, Commit(j), []);
    PathCons(s, SwapReserve(j), [Commit(j)] + []);
    steps := [SwapReserve(j)] + ([Commit(j)] + []);
  }

  /** Writers can bring the use up by any amount that entries can make up, within the limit.
      Whatever one entry cannot take is written under a longer and longer key. */
  lemma {:induction false} Fill(s: State, j: nat, amount: nat) returns (steps: seq<Step>, longest: nat)
    requires j < |s.shards| && s.shards[j] == EMPTY && amount >= LEAST && Within(s.used + amount, s.limit)
    ensures Path(s, steps)
    ensures var r := End(s, steps);
            && r.used == s.used + amount && r.limit == s.limit
            && |r.shards| == |s.shards| && r.shards == s.shards[j := r.shards[j]] && r.shards[j].phase.Unlocked?
            && forall k | k in r.shards[j].entries :: |k| < longest
    ensures amount <= Entries.MAX_UINT32 ==> longest == 1
    decreases amount
  {
    hide Path;
    hide End;
    if amount <= Entries.MAX_UINT32 {
      steps := WriteOne(s, j, "", amount);
      longest := 1;
    } else {
      var take: nat := if amount - Entries.MAX_UINT32 >= LEAST then Entries.MAX_UINT32 else LEAST + 1;
      var n;
      steps, n := Fill(s, j, amount - take);
      var r := End(s, steps);
      var key := seq(n, _ => 'k');
      assert key !in r.shards[j].entries;
      var more := WriteOne(r, j, key, take);
      PathJoin(s, steps, more);
      steps, longest := steps + more, n + 1;
    }
  }

  /** The reservation goes through on the limit it loaded. */
  lemma Strike(s: State, i: nat) returns (steps: seq<Step>)
    requires i < |s.shards| && Pending(s.shards[i])
    requires var p := s.shards[i].phase;
             && p.credit <= s.used
             && Within(s.used - p.credit + p.size, p.limit) && !Within(s.used - p.credit + p.size, s.limit)
             && (p.Loaded? ==> Within(Reservation(p.seen, p.size, p.credit), p.limit))
    ensures Path(s, steps) && !Within(End(s, steps).used, s.limit)
  {
    var p := s.shards[i].phase;
    if p.Loaded? && p.seen == s.used {
      PathCons(s, SwapReserve(i), []);
      steps := [SwapReserve(i)] + [];
    } else if p.Loaded? {
      var s1 := Next(s, SwapReserve(i));
      var rest := Again(s1, i);
      PathCons(s, SwapReserve(i), rest);
      steps := [SwapReserve(i)] + rest;
    } else {
      steps := Again(s, i);
    }
  }

  lemma Again(s: State, i: nat) returns (steps: seq<Step>)
    requires i < |s.shards| && s.shards[i].phase.Limited?
    requires var p := s.shards[i].phase;
             && p.credit <= s.used
             && Within(s.used - p.credit + p.size, p.limit) && !Within(s.used - p.credit + p.size, s.limit)
    ensures Path(s, steps) && !Within(End(s, steps).used, s.limit)
  {
    var s1 := Next(s, LoadUsed(i));
    PathCons(s1, SwapReserve(i), []);
    PathCons(s, LoadUsed(i), [SwapReserve(i)] + []);
    steps := [LoadUsed(i)] + ([SwapReserve(i)] + []);
  }

  /** A shard other than `i`. */
  function Other(i: nat): nat {
    if i == 0 then 1 else 0
  }

  lemma {:induction false} ThreatCarriedOut(s: State, i: nat) returns (steps: seq<Step>)
    requires Inv(s) && i < |s.shards| && Threatens(s.shards[i], s.limit, |s.shards| == 1)
    ensures Path(s, steps) && !Within(End(s, steps).used, s.limit)
  {
    steps := EmptyOthers(s, i, |s.shards|);
    var r := End(s, steps);
    if Within(r.used, r.limit) {
      OnlyOneHolds(r, i);
      var more := FillAndStrike(r, i);
      hide Inv;
      PathJoin(s, steps, more);
      steps := steps + more;
    }
  }

  lemma FillAndStrike(s: State, i: nat) returns (steps: seq<Step>)
    requires Inv(s) && i < |s.shards| && Threatens(s.shards[i], s.limit, |s.shards| == 1)
    requires s.used == s.shards[i].memoryUsed && Within(s.used, s.limit)
    requires forall k | 0 <= k < |s.shards| && k != i :: s.shards[k] == EMPTY
    ensures Path(s, steps) && !Within(End(s, steps).used, s.limit)
  {
    hide Sum;
    hide MapSum;
    UseCovers(s, i);
    ShareCovers(s.shards[i]);
    var p := s.shards[i].phase;
    var least := s.used - p.credit + p.size;
    if least > s.limit {
      steps := Strike(s, i);
    } else {
      // just enough that the reservation no longer fits, and at least one entry
      var short := s.limit - least + 1;
      var fill, longest := Fill(s, Other(i), if short < LEAST then LEAST else short);
      var r := End(s, fill);
      var last := Strike(r, i);
      PathJoin(s, fill, last);
      steps := fill + last;
    }
  }

  /** The exact condition: setting the limit to `m` is safe if and only if the use fits under
      it and no reservation under way threatens it.  Then no continuation exceeds `m`, until
      the limit is changed again; and otherwise one does. */
  lemma SafeLimit(s: State, m: nat)
    requires Inv(s)
    ensures Safe(s, m) <==> forall steps | Path(Next(s, SetLimit(m)), steps) :: Within(End(Next(s, SetLimit(m)), steps).used, m)
  {
    var r := Next(s, SetLimit(m));
    assert Inv(r) by { NextInv(s, SetLimit(m)); }
    if Safe(s, m) {
      hide Safe;
      hide Inv;
      assert Safe(r, m) by { SameSafety(s, m); }
      forall steps | Path(r, steps)
        ensures Within(End(r, steps).used, m)
      {
        SafePath(r, steps);
      }
    } else {
      var steps := BeyondLimit(s, m);
      hide Inv;
      hide Safe;
      assert Path(r, steps) && !Within(End(r, steps).used, m);
    }
  }

  lemma BeyondLimit(s: State, m: nat) returns (steps: seq<Step>)
    requires Inv(s) && !Safe(s, m)
    ensures Path(Next(s, SetLimit(m)), steps) && !Within(End(Next(s, SetLimit(m)), steps).used, m)
  {
    var r := Next(s, SetLimit(m));
    if !Within(s.used, m) {
      steps := [];
    } else {
      assert Inv(r) by { NextInv(s, SetLimit(m)); }
      var i :| 0 <= i < |s.shards| && Threatens(s.shards[i], m, |s.shards| == 1);
      hide Inv;
      steps := ThreatCarriedOut(r, i);
    }
  }

  lemma SameSafety(s: State, m: nat)
    requires Safe(s, m)
    ensures Safe(Next(s, SetLimit(m)), m)
  {
  }

  /** The reservation under way on this shard is kept within limit `m` only by lack of room:
      no entry fits beside what the shard holds, though the looser limit would allow one. */
  predicate Squeezed(h: Shard, m: nat, alone: bool) {
    Pending(h)
    && var p := h.phase;
       && Looser(p.limit, m)
       && p.size > p.credit
       && Within(h.memoryUsed - p.credit + p.size + LEAST, p.limit)
       && (p.Loaded? ==> Within(Reservation(p.seen, p.size, p.credit), p.limit))
       && !alone && h.memoryUsed + LEAST > m
  }

  /** Even raising a safe limit need not be safe: it is, however far it is raised, exactly
      when no reservation is squeezed. */
  lemma RaisingIsSafe(s: State)
    requires Inv(s) && Safe(s, s.limit)
    ensures (forall m: nat | !Looser(s.limit, m) :: Safe(s, m))
            <==> forall i | 0 <= i < |s.shards| :: !Squeezed(s.shards[i], s.limit, |s.shards| == 1)
  {
    forall m: nat, i | !Looser(s.limit, m) && 0 <= i < |s.shards| && Threatens(s.shards[i], m, |s.shards| == 1)
      ensures Squeezed(s.shards[i], s.limit, |s.shards| == 1)
    {
      assert !Threatens(s.shards[i], s.limit, |s.shards| == 1);
    }
    forall i | 0 <= i < |s.shards| && Squeezed(s.shards[i], s.limit, |s.shards| == 1)
      ensures exists m: nat :: !Looser(s.limit, m) && !Safe(s, m)
    {
      Squeezes(s, i);
      var m: nat := s.shards[i].memoryUsed + LEAST;
      assert !Looser(s.limit, m) && !Safe(s, m);
    }
  }

  lemma Squeezes(s: State, i: nat)
    requires i < |s.shards| && Squeezed(s.shards[i], s.limit, |s.shards| == 1) && ShardOk(s.shards[i])
    ensures var m := s.shards[i].memoryUsed + LEAST; m >= 0 && !Looser(s.limit, m) && !Safe(s, m)
  {
    ShareCovers(s.shards[i]);
    assert Threatens(s.shards[i], s.shards[i].memoryUsed + LEAST, |s.shards| == 1);
  }

  // ---- Whole runs ----

  ghost predicate Run(states: seq<State>, steps: seq<Step>) {
    && |states| == |steps| + 1
    && states[0].used == 0
    && (forall i | 0 <= i < |states[0].shards| :: states[0].shards[i] == Shard(map[], 0, Unlocked))
    && forall k | 0 <= k < |steps| :: Enabled(states[k], steps[k]) && states[k + 1] == Next(states[k], steps[k])
  }

  lemma {:induction false} RunInv(states: seq<State>, steps: seq<Step>, k: nat)
    requires Run(states, steps) && k < |states|
    ensures Inv(states[k])
  {
    hide Next;
    if k == 0 {
      SumZero(states[0].shards, Share);
    } else {
      RunInv(states, steps, k - 1);
      NextInv(states[k - 1], steps[k - 1]);
    }
  }

  /** In every interleaving the use equals the shards' counters plus what is in flight, it
      covers whatever any lock holder is about to give back, and once nothing is in flight
      it is the total size of the resident entries. */
  lemma Accounted(states: seq<State>, steps: seq<Step>, k: nat)
    requires Run(states, steps) && k < |states|
    ensures var s := states[k];
            && s.used == Sum(s.shards, Share)
            && (forall i | 0 <= i < |s.shards| ::
                  && s.shards[i].memoryUsed == MapSum(s.shards[i].entries, Id) >= 0
                  && (s.shards[i].phase.Loaded? ==> s.shards[i].phase.credit <= s.shards[i].phase.seen)
                  && (s.shards[i].phase.Subtracting? ==> s.shards[i].phase.size <= s.shards[i].phase.seen)
                  && (s.shards[i].phase.ClearingFrom? ==> s.shards[i].memoryUsed <= s.shards[i].phase.seen))
            && ((forall i | 0 <= i < |s.shards| :: s.shards[i].phase.Unlocked?)
                ==> s.used == Sum(s.shards, Resident))
  {
    hide Sum;
    RunInv(states, steps, k);
    var s := states[k];
    forall i | 0 <= i < |s.shards|
      ensures s.shards[i].memoryUsed >= 0
    {
      ShareCovers(s.shards[i]);
    }
    if forall i | 0 <= i < |s.shards| :: s.shards[i].phase.Unlocked? {
      SumAtMost(s.shards, Share, Resident);
      SumAtMost(s.shards, Resident, Share);
    }
  }

  ghost function Resident(h: Shard): int {
    MapSum(h.entries, Id)
  }

  /** A run stays within its limits from beginning to end exactly when none of its steps is
      one of those that break them. */
  lemma {:induction false} WithinThroughout(states: seq<State>, steps: seq<Step>, k: nat)
    requires Run(states, steps) && k < |states|
    ensures (forall j | 0 <= j <= k :: Within(states[j].used, states[j].limit))
            <==> forall j | 0 <= j < k :: !Breaks(states[j], steps[j])
  {
    if k > 0 {
      WithinThroughout(states, steps, k - 1);
      RunInv(states, steps, k - 1);
      hide Inv;
      hide Next;
      hide Breaks;
      var s, e := states[k - 1], steps[k - 1];
      if Within(s.used, s.limit) {
        OnlyThese(s, e);
        assert Within(states[k].used, states[k].limit) <==> !Breaks(s, e);
      } else {
        assert !forall j | 0 <= j <= k - 1 :: Within(states[j].used, states[j].limit);
      }
    }
  }

  /** If every change of limit is safe when it is made, the limit is never exceeded, whatever
      the interleaving. */
  lemma {:induction false} NeverExceeded(states: seq<State>, steps: seq<Step>, k: nat)
    requires Run(states, steps) && k < |states|
    requires forall j | 0 <= j < k && steps[j].SetLimit? :: Safe(states[j], steps[j].limit)
    ensures Safe(states[k], states[k].limit)
  {
    if k > 0 {
      NeverExceeded(states, steps, k - 1);
      RunInv(states, steps, k - 1);
      hide Inv;
      var s, e := states[k - 1], steps[k - 1];
      if e.SetLimit? {
        SameSafety(s, e.limit);
      } else {
        NextSafe(s, e);
        LimitStays(s, e);
      }
    }
  }

  /** An example: entries of 950 bytes and a reservation of 970 for them on a looser limit.
      Under 1000 nothing else fits; under 1040 one more entry does, and then the reservation
      goes through. */
  lemma RaisedTooFar() returns (s: State)
    ensures Inv(s) && s.limit == 1000 && Safe(s, 1000) && !Safe(s, 1040)
  {
    var h := Shard(map["k" := 950], 950, Limited("k", 970, 950, 2000));
    s := State(1000, 950, [h, EMPTY]);
    NothingResident();
    var none: map<string, nat> := map[];
    SumWith(none, "k", 950, Id);
    assert h.entries == none["k" := 950];
    assert s.shards[..1] == [h] && s.shards[..1][..0] == [];
    assert Sum([h], Share) == Share(h) && Sum([], Share) == 0;
    assert Threatens(s.shards[0], 1040, false);
  }

  /** Keeping the limit above the use is not enough: a reservation that has already loaded
      the old limit is not stopped by the new one. */
  lemma StaleLimit() returns (states: seq<State>, steps: seq<Step>)
    ensures Run(states, steps)
    ensures forall j | 0 <= j < |steps| && steps[j].SetLimit? :: Within(states[j].used, steps[j].limit)
    ensures !Within(states[|steps|].used, states[|steps|].limit)
  {
    var s0 := State(100, 0, [Shard(map[], 0, Unlocked)]);
    steps := [BeginWrite(0, "k", 90), LoadLimit(0), SetLimit(50), LoadUsed(0), SwapReserve(0)];
    var s1 := Next(s0, steps[0]);
    var s2 := Next(s1, steps[1]);
    var s3 := Next(s2, steps[2]);
    var s4 := Next(s3, steps[3]);
    var s5 := Next(s4, steps[4]);
    states := [s0, s1, s2, s3, s4, s5];
  }
}
