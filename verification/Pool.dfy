/** The client's connection pool, as an interleaving of its callers.  Every step is one
    critical section, one channel operation, or one thing a caller does on its own. */
module Pool {
  import opened Arithmetic
  import opened SeqSums

  /** How far one caller has got.  A connection is named by a number. */
  datatype Caller =
    | Out                          // holds nothing
    | Slot                         // holds a slot, about to look for an idle connection
    | Probing(c: nat)              // took `c` from the idle list, checking that it is alive
    | Forgetting                   // closed a dead connection, still counted as live
    | Empty                        // saw no idle connection
    | Dialing                      // saw the pool open, opening a connection
    | Dialed(c: nat)               // opened `c`, not yet counted as live
    | Owner(c: nat)                // uses `c`
    | Discarding(c: nat)           // put `c` back broken or late, about to close it
    | Releasing                    // about to give the slot back

  datatype State = State(size: nat, free: nat, idle: seq<nat>, closed: bool, live: int,
                         closing: seq<nat>, broken: set<nat>, next: nat, callers: seq<Caller>)

  function Init(size: nat, callers: nat): State {
    State(size, size, [], false, 0, [], {}, 0, seq(callers, _ => Out))
  }

  datatype Step =
    | TakeSlot(i: nat)
    | TakeIdle(i: nat)
    | ProbeAlive(i: nat)
    | ProbeDead(i: nat)
    | Forget(i: nat)
    | CheckClosed(i: nat)
    | DialFails(i: nat)
    | DialSucceeds(i: nat)
    | CountLive(i: nat)
    | Fail(i: nat)
    | Put(i: nat)
    | Discard(i: nat)
    | ReleaseSlot(i: nat)
    | Close
    | CloseOne

  predicate Enabled(s: State, e: Step) {
    match e
    case Close => !s.closed
    case CloseOne => s.closing != []
    case TakeSlot(i) => i < |s.callers| && s.callers[i].Out? && s.free > 0
    case TakeIdle(i) => i < |s.callers| && s.callers[i].Slot?
    case ProbeAlive(i) => i < |s.callers| && s.callers[i].Probing?
    case ProbeDead(i) => i < |s.callers| && s.callers[i].Probing?
    case Forget(i) => i < |s.callers| && s.callers[i].Forgetting?
    case CheckClosed(i) => i < |s.callers| && s.callers[i].Empty?
    case DialFails(i) => i < |s.callers| && s.callers[i].Dialing?
    case DialSucceeds(i) => i < |s.callers| && s.callers[i].Dialing?
    case CountLive(i) => i < |s.callers| && s.callers[i].Dialed?
    case Fail(i) => i < |s.callers| && s.callers[i].Owner?
    case Put(i) => i < |s.callers| && s.callers[i].Owner?
    case Discard(i) => i < |s.callers| && s.callers[i].Discarding?
    case ReleaseSlot(i) => i < |s.callers| && s.callers[i].Releasing?
  }

  function At(s: State, i: nat, c: Caller): State
    requires i < |s.callers|
  {
    s.(callers := s.callers[i := c])
  }

  function Next(s: State, e: Step): State
    requires Enabled(s, e)
  {
    match e
    case TakeSlot(i) => At(s.(free := s.free - 1), i, Slot)
    case TakeIdle(i) =>
      if s.idle == [] then At(s, i, Empty)
      else
        var last := |s.idle| - 1;
        At(s.(idle := s.idle[..last]), i, Probing(s.idle[last]))
    case ProbeAlive(i) => At(s, i, Owner(s.callers[i].c))
    case ProbeDead(i) => At(s, i, Forgetting)
    case Forget(i) => At(s.(live := s.live - 1), i, Slot)
    case CheckClosed(i) => At(s, i, if s.closed then Releasing else Dialing)
    case DialFails(i) => At(s, i, Releasing)
    case DialSucceeds(i) => At(s.(next := s.next + 1), i, Dialed(s.next))
    case CountLive(i) => At(s.(live := s.live + 1), i, Owner(s.callers[i].c))
    case Fail(i) => s.(broken := s.broken + {s.callers[i].c})
    case Put(i) =>
      var c := s.callers[i].c;
      if s.closed || c in s.broken then At(s.(live := s.live - 1), i, Discarding(c))
      else At(s.(idle := s.idle + [c]), i, Releasing)
    case Discard(i) => At(s, i, Releasing)
    case ReleaseSlot(i) =>
      // sending on a full channel takes the default arm
      At(if s.free < s.size then s.(free := s.free + 1) else s, i, Out)
    case Close => s.(closed := true, closing := s.closing + s.idle, idle := [], live := s.live - |s.idle|)
    case CloseOne => s.(closing := s.closing[1..])
  }

  // ---- What is counted ----

  function HoldsSlot(c: Caller): int {
    if c.Out? then 0 else 1
  }

  /** The caller has a connection open, or is opening one. */
  function HasConn(c: Caller): int {
    if c.Probing? || c.Dialing? || c.Dialed? || c.Owner? || c.Discarding? then 1 else 0
  }

  /** The caller will dial, unless it finds the pool closed. */
  function WillDial(c: Caller): int {
    if c.Empty? then 1 else 0
  }

  /** The caller's share of the ceiling: a connection, or one that is still counted. */
  function Share(c: Caller): int {
    HasConn(c) + if c.Forgetting? then 1 else 0
  }

  function ShareOrWillDial(c: Caller): int {
    Share(c) + WillDial(c)
  }

  function CountedLive(c: Caller): int {
    if c.Probing? || c.Forgetting? || c.Owner? then 1 else 0
  }

  function Is(c: nat): nat -> int {
    (d: nat) => if d == c then 1 else 0
  }

  /** The caller has hold of connection `c`. */
  function Has(c: nat): Caller -> int {
    (k: Caller) => if (k.Probing? || k.Dialed? || k.Owner? || k.Discarding?) && k.c == c then 1 else 0
  }

  /** In how many places connection `c` is: the idle list, the list being closed, and the
      hands of the callers. */
  ghost function Places(s: State, c: nat): int {
    Sum(s.idle, Is(c)) + Sum(s.closing, Is(c)) + Sum(s.callers, Has(c))
  }

  // ---- The invariant ----

  /** Slots are conserved. */
  ghost predicate Slots(s: State) {
    s.free + Sum(s.callers, HoldsSlot) == s.size
  }

  /** The ceiling, strengthened: an idle connection holds no slot, so what bounds the
      connections is that a caller only dials after it has seen the idle list empty, and
      from then on no connection appears out of nothing. */
  ghost predicate Bounded(s: State) {
    |s.idle| + |s.closing| + Sum(s.callers, Share) + (if s.closed then 0 else Sum(s.callers, WillDial)) <= s.size
  }

  ghost predicate Counted(s: State) {
    s.live == |s.idle| + Sum(s.callers, CountedLive)
  }

  /** No connection is in two places, and none of the idle ones is broken. */
  ghost predicate Owned(s: State) {
    && (forall c: nat :: Places(s, c) <= if c < s.next then 1 else 0)
    && (forall c | c in s.broken :: c < s.next)
    && (forall c | c in s.idle :: c !in s.broken)
  }

  ghost predicate Inv(s: State) {
    && Slots(s) && Bounded(s) && Counted(s) && Owned(s)
    && (s.closed ==> s.idle == [])
    && (!s.closed ==> s.closing == [])
  }

  lemma InitInv(size: nat, callers: nat)
    ensures Inv(Init(size, callers))
  {
    var s := Init(size, callers);
    SumZero(s.callers, HoldsSlot);
    SumZero(s.callers, Share);
    SumZero(s.callers, WillDial);
    SumZero(s.callers, CountedLive);
    forall c: nat
      ensures Places(s, c) == 0
    {
      SumZero(s.callers, Has(c));
    }
  }

  /** Callers with a connection, or on the way to one, all hold a slot. */
  lemma ConnsWithinSlots(cs: seq<Caller>)
    ensures Sum(cs, Share) + Sum(cs, WillDial) <= Sum(cs, HoldsSlot)
    ensures Sum(cs, Share) >= 0 && Sum(cs, WillDial) >= 0
  {
    SumAtMost(cs, ShareOrWillDial, HoldsSlot);
    SumSplits(cs);
    SumNonNegative(cs, Share);
    SumNonNegative(cs, WillDial);
  }

  lemma {:induction false} SumSplits(cs: seq<Caller>)
    ensures Sum(cs, ShareOrWillDial) == Sum(cs, Share) + Sum(cs, WillDial)
  {
    if cs != [] {
      SumSplits(cs[..|cs| - 1]);
    }
  }

  // ---- Every step keeps it ----

  lemma NextSlots(s: State, e: Step)
    requires Inv(s) && Enabled(s, e)
    ensures Slots(Next(s, e))
  {
    hide Places;
    hide Sum;
    if !e.Close? && !e.CloseOne? && !e.Fail? {
      SumUpdate(s.callers, e.i, Next(s, e).callers[e.i], HoldsSlot);
      SumNonNegative(s.callers, HoldsSlot);
    }
  }

  lemma NextCounted(s: State, e: Step)
    requires Inv(s) && Enabled(s, e)
    ensures Counted(Next(s, e))
  {
    hide Places;
    hide Sum;
    if !e.Close? && !e.CloseOne? && !e.Fail? {
      SumUpdate(s.callers, e.i, Next(s, e).callers[e.i], CountedLive);
    }
  }

  lemma NextBounded(s: State, e: Step)
    requires Inv(s) && Enabled(s, e)
    ensures Bounded(Next(s, e))
  {
    hide Places;
    hide Sum;
    var r := Next(s, e);
    ConnsWithinSlots(r.callers);
    NextSlots(s, e);
    if !e.Close? && !e.CloseOne? && !e.Fail? {
      SumUpdate(s.callers, e.i, r.callers[e.i], Share);
      SumUpdate(s.callers, e.i, r.callers[e.i], WillDial);
    }
  }

  /** The connection that a step closes, if it closes one. */
  function ClosedBy(s: State, e: Step): set<nat>
    requires Enabled(s, e)
  {
    match e
    case ProbeDead(i) => {s.callers[i].c}
    case Discard(i) => {s.callers[i].c}
    case CloseOne => {s.closing[0]}
    case _ => {}
  }

  /** Connections are conserved: a dial that succeeds names a new one, a step that closes one
      takes that one out, and no other step brings in, doubles or loses any. */
  lemma NextPlaces(s: State, e: Step, c: nat)
    requires Inv(s) && Enabled(s, e)
    ensures Places(Next(s, e), c) == Places(s, c) + (if e.DialSucceeds? && c == s.next then 1 else 0)
                                     - if c in ClosedBy(s, e) then 1 else 0
  {
    hide Sum;
    hide Bounded;
    hide Slots;
    hide Counted;
    hide Owned;
    var r := Next(s, e);
    match e {
      case Close => assert s.closing + s.idle == s.idle; NoneIn(c);
      case CloseOne => SumPopFront(s.closing, Is(c));
      case Fail(_) =>
      case TakeIdle(i) =>
        SumUpdate(s.callers, i, r.callers[i], Has(c));
        if s.idle != [] {
          LastIn(s.idle, c);
        }
      case Put(i) =>
        SumUpdate(s.callers, i, r.callers[i], Has(c));
        SumPush(s.idle, s.callers[i].c, Is(c));
      case _ => SumUpdate(s.callers, e.i, r.callers[e.i], Has(c));
    }
  }

  lemma NoneIn(c: nat)
    ensures forall xs: seq<nat> | xs == [] :: Sum(xs, Is(c)) == 0
  {
  }

  lemma LastIn(xs: seq<nat>, c: nat)
    requires xs != []
    ensures Sum(xs, Is(c)) == Sum(xs[..|xs| - 1], Is(c)) + if xs[|xs| - 1] == c then 1 else 0
  {
  }

  /** A caller's own connection is nowhere else. */
  lemma CallerConn(s: State, i: nat)
    requires Owned(s) && i < |s.callers| && s.callers[i].Owner?
    ensures s.callers[i].c < s.next && s.callers[i].c !in s.idle
  {
    var c := s.callers[i].c;
    SumNonNegative(s.callers, Has(c));
    SumNonNegative(s.idle, Is(c));
    SumNonNegative(s.closing, Is(c));
    assert Places(s, c) <= 1;
  }

  lemma NextOwned(s: State, e: Step)
    requires Inv(s) && Enabled(s, e)
    ensures Owned(Next(s, e))
  {
    hide Places;
    hide Sum;
    var r := Next(s, e);
    forall c: nat
      ensures Places(r, c) <= if c < r.next then 1 else 0
    {
      NextPlaces(s, e, c);
      assert Places(s, c) <= if c < s.next then 1 else 0;
    }
    match e {
      case Fail(i) => CallerConn(s, i);
      case Put(i) => CallerConn(s, i);
      case TakeIdle(i) => assert forall c | c in r.idle :: c in s.idle;
      case _ =>
    }
  }

  lemma NextInv(s: State, e: Step)
    requires Inv(s) && Enabled(s, e)
    ensures Inv(Next(s, e))
  {
    hide Slots;
    hide Bounded;
    hide Counted;
    hide Owned;
    NextSlots(s, e);
    NextBounded(s, e);
    NextCounted(s, e);
    NextOwned(s, e);
  }

  // ---- Whole runs ----

  ghost predicate Run(size: nat, callers: nat, states: seq<State>, steps: seq<Step>) {
    && |states| == |steps| + 1
    && states[0] == Init(size, callers)
    && forall k | 0 <= k < |steps| :: Enabled(states[k], steps[k]) && states[k + 1] == Next(states[k], steps[k])
  }

  lemma {:induction false} RunInv(size: nat, callers: nat, states: seq<State>, steps: seq<Step>, k: nat)
    requires Run(size, callers, states, steps) && k < |states|
    ensures Inv(states[k]) && states[k].size == size
  {
    hide Inv;
    if k == 0 {
      InitInv(size, callers);
    } else {
      RunInv(size, callers, states, steps, k - 1);
      NextInv(states[k - 1], steps[k - 1]);
    }
  }

  /** Whatever the interleaving: at most `size` connections are idle, in use, being checked,
      being closed or being opened; the slots add up, so giving one back never finds the
      channel full; no connection has two owners or is idle while a caller has it; no broken
      connection is idle; and once closed, the pool keeps none. */
  lemma Ceiling(size: nat, callers: nat, states: seq<State>, steps: seq<Step>, k: nat)
    requires Run(size, callers, states, steps) && k < |states|
    ensures var s := states[k];
            && |s.idle| + |s.closing| + Sum(s.callers, HasConn) <= size
            && s.free + Sum(s.callers, HoldsSlot) == size
            && (forall i | 0 <= i < |s.callers| && s.callers[i].Releasing? :: s.free < size)
            && (forall c: nat :: Places(s, c) <= 1)
            && (forall c | c in s.idle :: c !in s.broken)
            && 0 <= s.live <= size
            && (s.closed ==> s.idle == [])
  {
    hide Sum;
    RunInv(size, callers, states, steps, k);
    var s := states[k];
    ConnsWithinSlots(s.callers);
    SumNonNegative(s.callers, HoldsSlot);
    SumNonNegative(s.callers, CountedLive);
    SumAtMost(s.callers, CountedLive, Share);
    SumAtMost(s.callers, HasConn, Share);
  }

  /** When nobody is using the pool every slot is back, and what is counted as live is what
      is idle: nothing leaks. */
  lemma Quiescent(size: nat, callers: nat, states: seq<State>, steps: seq<Step>, k: nat)
    requires Run(size, callers, states, steps) && k < |states|
    requires forall i | 0 <= i < |states[k].callers| :: states[k].callers[i].Out?
    ensures states[k].free == size && states[k].live == |states[k].idle|
  {
    RunInv(size, callers, states, steps, k);
    SumZero(states[k].callers, HoldsSlot);
    SumZero(states[k].callers, CountedLive);
  }

  /** No connection is lost: at any point of any run, every connection ever opened has been
      closed, or is in exactly one place. */
  lemma {:induction false} NoneLost(size: nat, callers: nat, states: seq<State>, steps: seq<Step>, k: nat, c: nat)
    requires Run(size, callers, states, steps) && k < |states|
    ensures c >= states[k].next ==> Places(states[k], c) == 0
    ensures c < states[k].next ==>
              Places(states[k], c) == if exists j | 0 <= j < k :: c in ClosedBy(states[j], steps[j]) then 0 else 1
    ensures c >= states[k].next ==> forall j | 0 <= j < k :: c !in ClosedBy(states[j], steps[j])
  {
    hide Places;
    hide Sum;
    RunInv(size, callers, states, steps, k);
    assert Places(states[k], c) <= if c < states[k].next then 1 else 0;
    if k == 0 {
      NothingOpen(size, callers, c);
    } else {
      NoneLost(size, callers, states, steps, k - 1, c);
      RunInv(size, callers, states, steps, k - 1);
      NextPlaces(states[k - 1], steps[k - 1], c);
      PlacesCount(states[k], c);
      NextNames(states[k - 1], steps[k - 1]);
      hide Inv;
      hide Next;
      hide ClosedBy;
    }
  }

  lemma NothingOpen(size: nat, callers: nat, c: nat)
    ensures Places(Init(size, callers), c) == 0
  {
    SumZero(Init(size, callers).callers, Has(c));
  }

  lemma PlacesCount(s: State, c: nat)
    ensures Places(s, c) >= 0
  {
    SumNonNegative(s.idle, Is(c));
    SumNonNegative(s.closing, Is(c));
    SumNonNegative(s.callers, Has(c));
  }

  // ---- What a caller gets ----

  /** The caller saw no idle connection, and is on its way to one of its own. */
  predicate OnItsWay(c: Caller) {
    c.Empty? || c.Dialing? || c.Dialed?
  }

  /** The caller is turned away: it finds the pool closed, or its dial fails. */
  predicate TurnsAway(s: State, e: Step, i: nat) {
    (e == CheckClosed(i) && s.closed) || e == DialFails(i)
  }

  lemma OnItsWayStep(s: State, e: Step, i: nat)
    requires Enabled(s, e) && i < |s.callers| && OnItsWay(s.callers[i])
    ensures var r := Next(s, e);
            && |r.callers| == |s.callers| && r.next >= s.next
            && (r.callers[i].Dialed? ==> r.callers[i] == (if s.callers[i].Dialed? then s.callers[i] else Dialed(s.next)))
            && (TurnsAway(s, e, i) ==> r.callers[i].Releasing?)
            && (!OnItsWay(r.callers[i]) && !TurnsAway(s, e, i) ==>
                  s.callers[i].Dialed? && r.callers[i] == Owner(s.callers[i].c))
  {
  }

  lemma {:induction false} StillOnItsWay(size: nat, callers: nat, states: seq<State>, steps: seq<Step>,
                                         from: nat, k: nat, i: nat)
    requires Run(size, callers, states, steps) && from <= k < |states| && i < |states[from].callers|
    requires states[from].callers[i].Empty?
    requires forall j | from <= j <= k :: i < |states[j].callers| && OnItsWay(states[j].callers[i])
    ensures states[k].next >= states[from].next
    ensures states[k].callers[i].Dialed? ==> states[k].callers[i].c >= states[from].next
    ensures forall j | from <= j < k :: !TurnsAway(states[j], steps[j], i)
    decreases k - from
  {
    hide Next;
    hide Enabled;
    if k > from {
      StillOnItsWay(size, callers, states, steps, from, k - 1, i);
      OnItsWayStep(states[k - 1], steps[k - 1], i);
    }
  }

  /** A caller that sees no idle connection goes back without one exactly if it finds the pool
      closed, or its dial fails.  Otherwise it comes to own a connection that nobody has ever
      had before. */
  lemma GetsItsOwn(size: nat, callers: nat, states: seq<State>, steps: seq<Step>, from: nat, to: nat, i: nat)
    requires Run(size, callers, states, steps) && from < to < |states|
    requires forall j | from <= j <= to :: i < |states[j].callers|
    requires states[from].callers[i].Empty? && !OnItsWay(states[to].callers[i])
    requires forall j | from <= j < to :: OnItsWay(states[j].callers[i])
    ensures states[to].callers[i].Owner? || states[to].callers[i].Releasing?
    ensures states[to].callers[i].Releasing? <==> exists j | from <= j < to :: TurnsAway(states[j], steps[j], i)
    ensures states[to].callers[i].Owner? ==>
              forall j | 0 <= j <= from :: Places(states[j], states[to].callers[i].c) == 0
  {
    hide Next;
    hide Enabled;
    hide Places;
    StillOnItsWay(size, callers, states, steps, from, to - 1, i);
    OnItsWayStep(states[to - 1], steps[to - 1], i);
    if states[to].callers[i].Owner? {
      assert !TurnsAway(states[to - 1], steps[to - 1], i);
      forall j | 0 <= j <= from
        ensures Places(states[j], states[to].callers[i].c) == 0
      {
        NamesGrow(size, callers, states, steps, j, from);
        NoneLost(size, callers, states, steps, j, states[to].callers[i].c);
      }
    } else {
      assert TurnsAway(states[to - 1], steps[to - 1], i);
    }
  }

  lemma NextNames(s: State, e: Step)
    requires Enabled(s, e)
    ensures Next(s, e).next == s.next + if e.DialSucceeds? then 1 else 0
  {
  }

  lemma {:induction false} NamesGrow(size: nat, callers: nat, states: seq<State>, steps: seq<Step>, j: nat, k: nat)
    requires Run(size, callers, states, steps) && j <= k < |states|
    ensures states[j].next <= states[k].next
    decreases k - j
  {
    if j < k {
      NamesGrow(size, callers, states, steps, j, k - 1);
      NextNames(states[k - 1], steps[k - 1]);
      hide Next;
      hide Enabled;
    }
  }

  /** A caller that sees no idle connection in an open pool can have one of its own, and one
      that holds a slot can always look. */
  lemma CanDial(s: State, i: nat)
    requires Inv(s) && i < |s.callers| && !s.closed && s.callers[i].Slot? && s.idle == []
    ensures Enabled(s, TakeIdle(i))
    ensures var s1 := Next(s, TakeIdle(i));
            Enabled(s1, CheckClosed(i))
            && var s2 := Next(s1, CheckClosed(i));
               Enabled(s2, DialSucceeds(i))
               && var s3 := Next(s2, DialSucceeds(i));
                  Enabled(s3, CountLive(i))
                  && var s4 := Next(s3, CountLive(i));
                     s4.callers[i] == Owner(s.next) && s4.live == s.live + 1
  {
  }

  /** What is put back is kept exactly when the pool is open and the connection is healthy;
      then it is the next one handed out. */
  lemma PutBack(s: State, i: nat)
    requires Inv(s) && i < |s.callers| && s.callers[i].Owner?
    ensures var c := s.callers[i].c;
            var r := Next(s, Put(i));
            && (c in r.idle <==> !s.closed && c !in s.broken)
            && (c in r.idle ==> r.callers[i].Releasing? && r.live == s.live)
            && (c !in r.idle ==> r.callers[i] == Discarding(c) && r.live == s.live - 1)
            && (forall j | 0 <= j < |s.callers| && c in r.idle && r.callers[j].Slot? ::
                  && Enabled(r, TakeIdle(j)) && Next(r, TakeIdle(j)).callers[j] == Probing(c)
                  && Enabled(Next(r, TakeIdle(j)), ProbeAlive(j))
                  && Next(Next(r, TakeIdle(j)), ProbeAlive(j)).callers[j] == Owner(c)
                  && Next(Next(r, TakeIdle(j)), ProbeAlive(j)).live == s.live)
  {
    CallerConn(s, i);
  }

  /** A connection that fails in its owner's hands is not kept, and no other is taken for it. */
  lemma FailedIsNotKept(s: State, i: nat)
    requires Inv(s) && i < |s.callers| && s.callers[i].Owner?
    ensures var c := s.callers[i].c;
            var r := Next(s, Fail(i));
            && r.callers == s.callers && r.idle == s.idle && r.live == s.live
            && Enabled(r, Put(i)) && c !in Next(r, Put(i)).idle
            && forall d | d != c :: d in r.broken <==> d in s.broken
  {
    CallerConn(s, i);
  }

  /** A connection found dead is closed, is no longer counted, and its finder looks again. */
  lemma DeadIsForgotten(s: State, i: nat)
    requires Inv(s) && i < |s.callers| && s.callers[i].Probing?
    ensures Enabled(s, ProbeDead(i)) && ClosedBy(s, ProbeDead(i)) == {s.callers[i].c}
    ensures var r := Next(s, ProbeDead(i));
            Enabled(r, Forget(i)) && Next(r, Forget(i)).callers[i].Slot? && Next(r, Forget(i)).live == s.live - 1
  {
  }

  /** What a caller can do next, and when. */
  lemma NextFor(s: State, i: nat)
    requires i < |s.callers|
    ensures var c := s.callers[i];
            && (Enabled(s, TakeSlot(i)) <==> c.Out? && s.free > 0)
            && (Enabled(s, TakeIdle(i)) <==> c.Slot?)
            && (Enabled(s, ProbeAlive(i)) <==> c.Probing?) && (Enabled(s, ProbeDead(i)) <==> c.Probing?)
            && (Enabled(s, Forget(i)) <==> c.Forgetting?)
            && (Enabled(s, CheckClosed(i)) <==> c.Empty?)
            && (Enabled(s, DialSucceeds(i)) <==> c.Dialing?) && (Enabled(s, DialFails(i)) <==> c.Dialing?)
            && (Enabled(s, CountLive(i)) <==> c.Dialed?)
            && (Enabled(s, Put(i)) <==> c.Owner?) && (Enabled(s, Fail(i)) <==> c.Owner?)
            && (Enabled(s, Discard(i)) <==> c.Discarding?)
            && (Enabled(s, ReleaseSlot(i)) <==> c.Releasing?)
  {
  }

  /** A slot that is given back is free again, and its holder is out. */
  lemma SlotComesBack(s: State, i: nat)
    requires Inv(s) && i < |s.callers| && s.callers[i].Releasing?
    ensures Next(s, ReleaseSlot(i)).free == s.free + 1 && Next(s, ReleaseSlot(i)).callers[i].Out?
  {
    hide Sum;
    SumNonNegative(s.callers, HoldsSlot);
  }

  // ---- The delay between connection attempts ----

  const INT64: int := 0x8000_0000_0000_0000

  /** Two's-complement doubling of a positive 64-bit number. */
  function Doubled(w: int): int {
    if 2 * w >= INT64 then 2 * w - 2 * INT64 else 2 * w
  }

  /** The window attempt number `attempt` draws its delay from: `base` doubled every time
      but never past `maximum`; without a maximum, nothing once doubling overflows. */
  function Window(base: int, maximum: int, attempt: nat): int
    requires base > 0
  {
    var w := base * Pow2(attempt);
    if maximum > 0 then (if w < maximum then w else maximum)
    else if w < INT64 then w else 0
  }

  lemma DoublePow(base: int, k: nat)
    requires base > 0
    ensures base * Pow2(k + 1) == 2 * (base * Pow2(k)) > base * Pow2(k) > 0
  {
  }

  lemma {:induction false} PowGrows(base: int, k: nat, n: nat)
    requires base > 0 && k <= n
    ensures base * Pow2(k) <= base * Pow2(n)
    decreases n - k
  {
    if k < n {
      DoublePow(base, k);
      PowGrows(base, k + 1, n);
    }
  }

  /** Full jitter: the delay is anything below the window, and 0 when there is none. */
  method BackoffDelay(base: int, maximum: int, attempt: nat, random: nat) returns (delay: int)
    requires base < INT64 && maximum < INT64
    ensures base <= 0 ==> delay == 0
    ensures base > 0 ==> delay == if Window(base, maximum, attempt) <= 0 then 0 else random % Window(base, maximum, attempt)
    ensures base > 0 && Window(base, maximum, attempt) > 0 ==> 0 <= delay < Window(base, maximum, attempt)
  {
    if base <= 0 {
      return 0;
    }
    hide Pow2;
    var window := base;
    assert base * Pow2(0) == base by { PowZero(base); }
    var k := 0;
    while k < attempt
      invariant k <= attempt
      invariant window == base * Pow2(k) && 0 < window < INT64
      invariant maximum > 0 && k > 0 ==> window < maximum
    {
      DoublePow(base, k);
      PowGrows(base, k + 1, attempt);
      window := Doubled(window);
      if maximum > 0 && window >= maximum {
        window := maximum;
        break;
      }
      if window <= 0 {
        window := maximum;
        break;
      }
      k := k + 1;
    }
    if maximum > 0 && window > maximum {
      window := maximum;
    }
    assert window == Window(base, maximum, attempt) || (window <= 0 && Window(base, maximum, attempt) <= 0);
    if window <= 0 {
      return 0;
    }
    delay := random % window;
  }

  lemma PowZero(base: int)
    ensures base * Pow2(0) == base
  {
  }
}
