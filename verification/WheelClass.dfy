/** The time wheel as the program keeps it: slots in arrays, updated in place. */
module TimeWheel {
  import opened WheelState

  class Wheel {
    var current: nat
    const levels: seq<array<seq<Hint>>>
    var overflow: seq<Hint>
    var pending: nat
    ghost const Repr: set<object>

    /** The arrays are there, distinct, and of the right lengths. */
    ghost predicate Wired()
      reads this, Repr
      ensures Wired() ==> this in Repr
    {
      && this in Repr
      && |levels| == LEVELS
      && (forall i | 0 <= i < LEVELS :: levels[i] in Repr && levels[i].Length == Slots(i))
      && (forall i, j | 0 <= i < j < LEVELS :: levels[i] != levels[j])
    }

    ghost function View(): (s: State)
      requires Wired()
      reads this, Repr
      ensures Shaped(s.levels)
    {
      State(current, [levels[0][..], levels[1][..], levels[2][..], levels[3][..]], overflow)
    }

    ghost function Held(): multiset<Hint>
      requires Wired()
      reads this, Repr
    {
      Hints(View())
    }

    ghost predicate Valid()
      reads this, Repr
      ensures Valid() ==> Wired() && pending == |Held()|
    {
      Wired() && Settled(View()) && pending == |Held()|
    }

    constructor ()
      ensures Valid() && fresh(Repr)
      ensures current == 0 && Held() == multiset{}
    {
      var l0 := new seq<Hint>[256](_ => []);
      var l1 := new seq<Hint>[64](_ => []);
      var l2 := new seq<Hint>[64](_ => []);
      var l3 := new seq<Hint>[32](_ => []);
      levels := [l0, l1, l2, l3];
      current, overflow, pending := 0, [], 0;
      Repr := {this, l0, l1, l2, l3};
      new;
      assert l0[..] == seq(256, _ => []) && l1[..] == seq(64, _ => []);
      assert l2[..] == seq(64, _ => []) && l3[..] == seq(32, _ => []);
      assert View() == Empty();
      hide Wired;
      hide View;
      hide Settled;
      EmptySettled();
    }

    method SetSlot(lv: nat, j: nat, v: seq<Hint>)
      requires Wired() && lv < LEVELS && j < Slots(lv)
      modifies levels[lv]
      ensures Wired()
      ensures View() == old(View()).(levels := old(View().levels)[lv := old(View().levels)[lv][j := v]])
    {
      levels[lv][j] := v;
      assert View().levels[lv] == old(View().levels)[lv][j := v];
      assert View().levels == old(View().levels)[lv := old(View().levels)[lv][j := v]];
    }

    /** Places a hint in the lowest level whose span covers its remaining time. */
    method Insert(h: Hint, earliest: nat)
      requires Wired() && current <= earliest
      modifies Repr
      ensures Wired() && pending == old(pending)
      ensures View() == WheelState.Insert(old(View()), h, earliest)
    {
      var h' := h;
      if h'.tick < earliest {
        h' := h'.(tick := earliest);
      }
      var delta := h'.tick - current;
      for i := 0 to LEVELS
        invariant Wired() && unchanged(Repr)
        invariant i > 0 ==> delta >= Width(i)
      {
        if delta < Width(i + 1) {
          assert LevelFor(delta) == i;
          var j := h'.tick / Width(i) % Slots(i);
          SetSlot(i, j, levels[i][j] + [h']);
          return;
        }
      }
      overflow := overflow + [h'];
    }

    method CascadeLevel(lv: nat) returns (idx: nat)
      requires Wired() && 0 < lv < LEVELS
      modifies Repr
      ensures Wired() && pending == old(pending)
      ensures idx == SlotOf(lv, current)
      ensures View() == Cascade(old(View()), lv)
    {
      idx := current / Width(lv) % Slots(lv);
      var slot := levels[lv][idx];
      if |slot| > 0 {
        for k := 0 to |slot|
          invariant Wired() && pending == old(pending)
          invariant View() == InsertAll(old(View()), slot[..k])
        {
          assert slot[..k + 1][..k] == slot[..k];
          Insert(slot[k], current);
        }
        assert slot[..|slot|] == slot;
        SetSlot(lv, idx, []);
      } else {
        assert View().levels[lv][idx := []] == View().levels[lv];
        assert View().levels[lv := View().levels[lv]] == View().levels;
      }
    }

    method Drain()
      requires Wired()
      modifies Repr
      ensures Wired() && pending == old(pending)
      ensures View() == DrainOverflow(old(View()))
    {
      if |overflow| == 0 {
        return;
      }
      var due := overflow;
      overflow := [];
      ghost var start := View();
      for k := 0 to |due|
        invariant Wired() && pending == old(pending)
        invariant View() == InsertAll(start, due[..k])
      {
        assert due[..k + 1][..k] == due[..k];
        Insert(due[k], current);
      }
      assert due[..|due|] == due;
    }

    method CascadeChain()
      requires Wired()
      modifies Repr
      ensures Wired() && pending == old(pending)
      ensures View() == CascadeFrom(old(View()), 1)
    {
      for lv := 1 to LEVELS
        invariant Wired() && pending == old(pending) && current == old(current)
        invariant CascadeFrom(View(), lv) == CascadeFrom(old(View()), 1)
      {
        var idx := CascadeLevel(lv);
        if idx != 0 {
          return;
        }
      }
      Drain();
    }

    /** Schedules a hint, for the next tick at the earliest. */
    method Add(h: Hint)
      requires Valid()
      modifies Repr
      ensures Valid() && current == old(current)
      ensures Held() == old(Held()) + multiset{Clamp(h, current + 1)}
    {
      hide WheelState.Settled;
      hide WheelState.Hints;
      hide WheelState.Insert;
      AddSettled(View(), h);
      Insert(h, current + 1);
      pending := pending + 1;
    }

    /** Schedules a hint again, for the next tick. */
    method Requeue(h: Hint)
      requires Valid()
      modifies Repr
      ensures Valid() && current == old(current)
      ensures Held() == old(Held()) + multiset{h.(tick := current + 1)}
    {
      Add(h.(tick := current + 1));
    }

    /** Moves on by one tick and appends to `dst` exactly the hints due at the new tick. */
    method Advance(dst: seq<Hint>) returns (r: seq<Hint>, ghost fired: seq<Hint>)
      requires Valid()
      modifies Repr
      ensures Valid() && current == old(current) + 1
      ensures r == dst + fired
      ensures old(Held()) == Held() + multiset(fired)
      ensures forall h | h in fired :: h.tick == current
      ensures forall h | h in Held() :: h.tick > current
    {
      ghost var s := View();
      TickFiresExactlyTheDue(s);
      FiredCount(s);
      var idx := StepAndCascade();
      var slot := levels[0][idx];
      fired := slot;
      assert View() == Cascaded(s);
      r := FireSlot(dst, idx);
    }

    method StepAndCascade() returns (idx: nat)
      requires Wired()
      modifies Repr
      ensures Wired() && pending == old(pending)
      ensures View() == Cascaded(old(View())) && idx == SlotOf(0, current)
    {
      ghost var s := View();
      current := current + 1;
      assert View() == s.(current := s.current + 1);
      idx := current % 256;
      if idx == 0 {
        CascadeChain();
      }
    }

    method FireSlot(dst: seq<Hint>, idx: nat) returns (r: seq<Hint>)
      requires Wired() && idx < Slots(0) && pending >= |levels[0][idx]|
      modifies Repr
      ensures Wired() && pending == old(pending) - |old(levels[0][idx])|
      ensures r == dst + old(levels[0][idx])
      ensures View() == old(View()).(levels := old(View().levels)[0 := old(View().levels)[0][idx := []]])
    {
      var slot := levels[0][idx];
      if |slot| == 0 {
        assert View().levels[0][idx := []] == View().levels[0];
        assert View().levels[0 := View().levels[0]] == View().levels;
        return dst;
      }
      r := dst + slot;
      pending := pending - |slot|;
      SetSlot(0, idx, []);
    }
  }

  lemma FiredCount(s: State)
    requires Settled(s)
    ensures |Hints(s)| == |Hints(Tick(s).0)| + |Tick(s).1|
  {
    TickFiresExactlyTheDue(s);
  }

  // ---- Whole runs ----

  datatype Op = Add(h: Hint) | Requeue(h: Hint) | Advance

  /** What the clock shows after a run. */
  function Clock(ops: seq<Op>): nat {
    if ops == [] then 0
    else Clock(ops[..|ops| - 1]) + if ops[|ops| - 1].Advance? then 1 else 0
  }

  /** Every hint ever scheduled in a run, at the tick it was scheduled for: the one it
      asked for, or the next tick if that one had already passed. */
  ghost function Scheduled(ops: seq<Op>): multiset<Hint> {
    if ops == [] then multiset{}
    else
      var before := ops[..|ops| - 1];
      Scheduled(before) + match ops[|ops| - 1] {
        case Add(h) => multiset{Clamp(h, Clock(before) + 1)}
        case Requeue(h) => multiset{h.(tick := Clock(before) + 1)}
        case Advance => multiset{}
      }
  }

  function Flatten(ss: seq<seq<Hint>>): seq<Hint> {
    if ss == [] then [] else Flatten(ss[..|ss| - 1]) + ss[|ss| - 1]
  }

  /** What a run must have fired and must still hold, given what it scheduled. */
  ghost predicate OnTime(fired: seq<seq<Hint>>, held: multiset<Hint>, scheduled: multiset<Hint>) {
    && (forall k, h | 0 <= k < |fired| ::
          multiset(fired[k])[h] == if h.tick == k + 1 then scheduled[h] else 0)
    && (forall h :: held[h] == if h.tick > |fired| then scheduled[h] else 0)
  }

  lemma OnTimeTick(fired: seq<seq<Hint>>, held: multiset<Hint>, scheduled: multiset<Hint>, f: seq<Hint>, held': multiset<Hint>)
    requires OnTime(fired, held, scheduled) && held == held' + multiset(f)
    requires forall h | h in f :: h.tick == |fired| + 1
    requires forall h | h in held' :: h.tick > |fired| + 1
    ensures OnTime(fired + [f], held', scheduled)
    ensures |held| == |held'| + |f|
  {
    forall h: Hint
      ensures multiset(f)[h] == if h.tick == |fired| + 1 then scheduled[h] else 0
      ensures held'[h] == if h.tick > |fired| + 1 then scheduled[h] else 0
    {
      assert held[h] == held'[h] + multiset(f)[h];
      assert multiset(f)[h] > 0 ==> h in f;
      assert held'[h] > 0 ==> h in held';
    }
  }

  lemma OnTimeAdd(fired: seq<seq<Hint>>, held: multiset<Hint>, scheduled: multiset<Hint>, h: Hint)
    requires OnTime(fired, held, scheduled) && h.tick > |fired|
    ensures OnTime(fired, held + multiset{h}, scheduled + multiset{h})
  {
  }

  /** `w` and `fired` are what the run `ops` leaves behind. */
  ghost predicate Ran(ops: seq<Op>, w: Wheel, fired: seq<seq<Hint>>)
    reads w, w.Repr
  {
    && w.Valid() && w.current == |fired| == Clock(ops)
    && OnTime(fired, w.Held(), Scheduled(ops))
    && w.pending + |Flatten(fired)| == |Scheduled(ops)|
  }

  method RunAdvance(w: Wheel, ghost ops: seq<Op>, fired: seq<seq<Hint>>) returns (fired': seq<seq<Hint>>)
    requires Ran(ops, w, fired)
    modifies w.Repr
    ensures Ran(ops + [Advance], w, fired')
  {
    hide WheelState.Settled;
    hide WheelState.Hints;
    hide OnTime;
    hide Wheel.Valid;
    hide Wheel.Held;
    assert (ops + [Advance])[..|ops|] == ops;
    ghost var held := w.Held();
    assert w.pending == |held|;
    var f, g := w.Advance([]);
    assert w.pending == |w.Held()|;
    assert f == g;
    OnTimeTick(fired, held, Scheduled(ops), f, w.Held());
    fired' := fired + [f];
    assert fired'[..|fired|] == fired;
    assert Flatten(fired') == Flatten(fired) + f;
    assert Scheduled(ops + [Advance]) == Scheduled(ops);
  }

  method RunSchedule(w: Wheel, ghost ops: seq<Op>, fired: seq<seq<Hint>>, op: Op)
    requires Ran(ops, w, fired) && !op.Advance?
    modifies w.Repr
    ensures Ran(ops + [op], w, fired)
  {
    hide WheelState.Settled;
    hide WheelState.Hints;
    hide OnTime;
    hide Wheel.Valid;
    hide Wheel.Held;
    assert (ops + [op])[..|ops|] == ops;
    ghost var h := if op.Add? then Clamp(op.h, w.current + 1) else op.h.(tick := w.current + 1);
    OnTimeAdd(fired, w.Held(), Scheduled(ops), h);
    assert Scheduled(ops + [op]) == Scheduled(ops) + multiset{h};
    if op.Add? {
      w.Add(op.h);
    } else {
      w.Requeue(op.h);
    }
  }

  /** Drives a new wheel through any run.  The tick that moves the clock to `k + 1` fires
      exactly the hints scheduled for `k + 1`, as often as each was scheduled, no matter
      which levels they went through; what has not fired is still pending. */
  method Drive(ops: seq<Op>) returns (fired: seq<seq<Hint>>, pending: nat)
    ensures |fired| == Clock(ops)
    ensures forall k, h | 0 <= k < |fired| ::
              multiset(fired[k])[h] == if h.tick == k + 1 then Scheduled(ops)[h] else 0
    ensures pending + |Flatten(fired)| == |Scheduled(ops)|
  {
    hide WheelState.Settled;
    hide WheelState.Hints;
    var w := new Wheel();
    fired := [];
    for i := 0 to |ops|
      invariant fresh(w.Repr) && Ran(ops[..i], w, fired)
    {
      assert ops[..i + 1] == ops[..i] + [ops[i]];
      if ops[i].Advance? {
        fired := RunAdvance(w, ops[..i], fired);
      } else {
        RunSchedule(w, ops[..i], fired, ops[i]);
      }
    }
    assert ops[..|ops|] == ops;
    pending := w.pending;
  }
}
