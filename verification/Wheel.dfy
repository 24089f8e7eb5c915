/** The geometry and the state of one hierarchical time wheel, as values.

    Ticks are natural numbers: a tick is 100ms, and the 64-bit counter of the
    program would take billions of years to wrap.  `(t >> shift) & mask` is written
    `t / Width(lv) % Slots(lv)`; `ShiftMask` shows the two agree on 64-bit words. */
module WheelState {
  import opened Arithmetic
  import opened SeqSums

  /** A scheduling hint: the key may be gone, or expire at another time, when it fires. */
  datatype Hint = Hint(key: string, tick: nat, shard: int)

  const LEVELS: nat := 4

  /** One past the overflow list: nothing is left to cascade. */
  const CASCADED: nat := 5

  function Slots(lv: nat): (n: nat)
    requires lv < LEVELS
    ensures n > 0
  {
    if lv == 0 then 256 else if lv < 3 then 64 else 32
  }

  /** Ticks covered by one slot of level `lv`; also the span of the level below.
      Level `LEVELS` stands for the overflow list. */
  function Width(lv: nat): (n: nat)
    requires lv <= LEVELS
    ensures n > 0
  {
    if lv == 0 then 1 else
    if lv == 1 then 256 else
    if lv == 2 then 16384 else
    if lv == 3 then 1048576 else 33554432
  }

  /** `t / Width(lv)`: the slot-sized step of level `lv` that tick `t` falls in. */
  function Step(lv: nat, t: nat): nat
    requires lv <= LEVELS
  {
    if lv == 0 then t else
    if lv == 1 then t / 256 else
    if lv == 2 then t / 16384 else
    if lv == 3 then t / 1048576 else t / 33554432
  }

  /** Tick `t` starts a new step of level `lv`. */
  predicate OnBoundary(lv: nat, t: nat)
    requires lv <= LEVELS
  {
    if lv == 0 then true else
    if lv == 1 then t % 256 == 0 else
    if lv == 2 then t % 16384 == 0 else
    if lv == 3 then t % 1048576 == 0 else t % 33554432 == 0
  }

  /** The slot of level `lv` that tick `t` belongs in. */
  function SlotOf(lv: nat, t: nat): (j: nat)
    requires lv < LEVELS
    ensures j < Slots(lv)
  {
    if lv == 0 then t % 256 else
    if lv == 1 then t / 256 % 64 else
    if lv == 2 then t / 16384 % 64 else t / 1048576 % 32
  }

  lemma StepIsQuotient(lv: nat, t: nat)
    requires lv <= LEVELS
    ensures Step(lv, t) == t / Width(lv)
    ensures OnBoundary(lv, t) <==> t % Width(lv) == 0
    ensures lv < LEVELS ==> SlotOf(lv, t) == t / Width(lv) % Slots(lv)
  {
  }

  lemma ShiftMask(t: bv64)
    ensures t & 255 == t % 256
    ensures (t >> 8) & 63 == t / 256 % 64
    ensures (t >> 14) & 63 == t / 16384 % 64
    ensures (t >> 20) & 31 == t / 1048576 % 32
  {
  }

  /** `levels[lv][j]` is slot `j` of level `lv`. */
  datatype State = State(current: nat, levels: seq<seq<seq<Hint>>>, overflow: seq<Hint>)

  ghost predicate Shaped(levels: seq<seq<seq<Hint>>>) {
    |levels| == LEVELS && forall lv | 0 <= lv < LEVELS :: |levels[lv]| == Slots(lv)
  }

  function Clamp(h: Hint, earliest: nat): (r: Hint)
    ensures r.key == h.key && r.shard == h.shard && r.tick >= earliest
    ensures h.tick >= earliest ==> r == h
  {
    if h.tick < earliest then h.(tick := earliest) else h
  }

  /** The lowest level whose span covers `delta`, or `LEVELS` when none does. */
  function LevelFor(delta: nat): (lv: nat)
    ensures lv <= LEVELS
    ensures lv < LEVELS ==> delta < Width(lv + 1)
    ensures lv > 0 ==> delta >= Width(lv)
  {
    if delta < 256 then 0 else
    if delta < 16384 then 1 else
    if delta < 1048576 then 2 else
    if delta < 33554432 then 3 else 4
  }

  function Insert(s: State, h: Hint, earliest: nat): (r: State)
    requires Shaped(s.levels) && s.current <= earliest
    ensures Shaped(r.levels) && r.current == s.current
  {
    var h := Clamp(h, earliest);
    var lv := LevelFor(h.tick - s.current);
    if lv < LEVELS then
      var j := SlotOf(lv, h.tick);
      s.(levels := s.levels[lv := s.levels[lv][j := s.levels[lv][j] + [h]]])
    else
      s.(overflow := s.overflow + [h])
  }

  /** Inserts the hints in order, letting each fall due on the current tick. */
  function InsertAll(s: State, hs: seq<Hint>): (r: State)
    requires Shaped(s.levels)
    ensures Shaped(r.levels) && r.current == s.current
  {
    if hs == [] then s
    else Insert(InsertAll(s, hs[..|hs| - 1]), hs[|hs| - 1], s.current)
  }

  function Cascade(s: State, lv: nat): (r: State)
    requires Shaped(s.levels) && 0 < lv < LEVELS
    ensures Shaped(r.levels) && r.current == s.current
  {
    var j := SlotOf(lv, s.current);
    var r := InsertAll(s, s.levels[lv][j]);
    r.(levels := r.levels[lv := r.levels[lv][j := []]])
  }

  function DrainOverflow(s: State): (r: State)
    requires Shaped(s.levels)
    ensures Shaped(r.levels) && r.current == s.current
  {
    InsertAll(s.(overflow := []), s.overflow)
  }

  /** Cascades level `lv` and, as long as the drained slot was slot 0, the levels above. */
  function CascadeFrom(s: State, lv: nat): (r: State)
    requires Shaped(s.levels) && 0 < lv <= LEVELS
    ensures Shaped(r.levels) && r.current == s.current
    decreases LEVELS - lv
  {
    if lv == LEVELS then DrainOverflow(s)
    else
      var r := Cascade(s, lv);
      if SlotOf(lv, s.current) != 0 then r else CascadeFrom(r, lv + 1)
  }

  /** The state when level 0 is about to fire. */
  function Cascaded(s: State): (r: State)
    requires Shaped(s.levels)
    ensures Shaped(r.levels) && r.current == s.current + 1
  {
    var s := s.(current := s.current + 1);
    if SlotOf(0, s.current) == 0 then CascadeFrom(s, 1) else s
  }

  function Tick(s: State): (r: (State, seq<Hint>))
    requires Shaped(s.levels)
    ensures Shaped(r.0.levels) && r.0.current == s.current + 1
  {
    var s := Cascaded(s);
    var j := SlotOf(0, s.current);
    (s.(levels := s.levels[0 := s.levels[0][j := []]]), s.levels[0][j])
  }

  // ---- The flat view: everything the wheel holds, as one multiset ----

  ghost function InSlots(slots: seq<seq<Hint>>): multiset<Hint> {
    if slots == [] then multiset{}
    else InSlots(slots[..|slots| - 1]) + multiset(slots[|slots| - 1])
  }

  ghost function InLevels(levels: seq<seq<seq<Hint>>>): multiset<Hint> {
    if levels == [] then multiset{}
    else InLevels(levels[..|levels| - 1]) + InSlots(levels[|levels| - 1])
  }

  ghost function Hints(s: State): multiset<Hint> {
    InLevels(s.levels) + multiset(s.overflow)
  }

  lemma {:induction false} InSlotsUpdate(slots: seq<seq<Hint>>, j: nat, v: seq<Hint>)
    requires j < |slots|
    ensures InSlots(slots[j := v]) + multiset(slots[j]) == InSlots(slots) + multiset(v)
  {
    var n := |slots| - 1;
    if j == n {
      assert slots[j := v][..n] == slots[..n];
    } else {
      assert slots[j := v][..n] == slots[..n][j := v];
      InSlotsUpdate(slots[..n], j, v);
      AddToBoth(InSlots(slots[..n][j := v]), InSlots(slots[..n]), multiset(slots[j]), multiset(v), multiset(slots[n]));
    }
  }

  lemma {:induction false} InLevelsUpdate(levels: seq<seq<seq<Hint>>>, lv: nat, v: seq<seq<Hint>>)
    requires lv < |levels|
    ensures InLevels(levels[lv := v]) + InSlots(levels[lv]) == InLevels(levels) + InSlots(v)
  {
    hide InSlots;
    var n := |levels| - 1;
    if lv == n {
      assert levels[lv := v][..n] == levels[..n];
    } else {
      assert levels[lv := v][..n] == levels[..n][lv := v];
      InLevelsUpdate(levels[..n], lv, v);
      AddToBoth(InLevels(levels[..n][lv := v]), InLevels(levels[..n]), InSlots(levels[lv]), InSlots(v), InSlots(levels[n]));
    }
  }

  lemma SlotUpdate(levels: seq<seq<seq<Hint>>>, lv: nat, j: nat, v: seq<Hint>)
    requires lv < |levels| && j < |levels[lv]|
    ensures InLevels(levels[lv := levels[lv][j := v]]) + multiset(levels[lv][j]) == InLevels(levels) + multiset(v)
  {
    InSlotsUpdate(levels[lv], j, v);
    InLevelsUpdate(levels, lv, levels[lv][j := v]);
    var a, b := InLevels(levels[lv := levels[lv][j := v]]), InLevels(levels);
    var p, q := InSlots(levels[lv]), InSlots(levels[lv][j := v]);
    forall h
      ensures (a + multiset(levels[lv][j]))[h] == (b + multiset(v))[h]
    {
      assert (a + p)[h] == (b + q)[h];
      assert (q + multiset(levels[lv][j]))[h] == (p + multiset(v))[h];
    }
  }

  lemma {:induction false} InSlotsMember(slots: seq<seq<Hint>>, h: Hint)
    ensures h in InSlots(slots) <==> exists j | 0 <= j < |slots| :: h in slots[j]
  {
    if slots != [] {
      var n := |slots| - 1;
      InSlotsMember(slots[..n], h);
      assert slots == slots[..n] + [slots[n]];
    }
  }

  lemma {:induction false} InLevelsMember(levels: seq<seq<seq<Hint>>>, h: Hint)
    ensures h in InLevels(levels) <==>
              exists lv, j | 0 <= lv < |levels| && 0 <= j < |levels[lv]| :: h in levels[lv][j]
  {
    if levels != [] {
      var n := |levels| - 1;
      InLevelsMember(levels[..n], h);
      InSlotsMember(levels[n], h);
      assert levels == levels[..n] + [levels[n]];
    }
  }

  // ---- Conservation: moving hints around neither loses nor duplicates one ----

  lemma AppendToSlot(levels: seq<seq<seq<Hint>>>, lv: nat, j: nat, h: Hint)
    requires lv < |levels| && j < |levels[lv]|
    ensures InLevels(levels[lv := levels[lv][j := levels[lv][j] + [h]]]) == InLevels(levels) + multiset{h}
  {
    hide InLevels;
    var slot := levels[lv][j];
    SlotUpdate(levels, lv, j, slot + [h]);
    var l := InLevels(levels[lv := levels[lv][j := slot + [h]]]);
    assert multiset(slot + [h]) == multiset(slot) + multiset{h};
    assert l == l + multiset(slot) - multiset(slot);
    assert InLevels(levels) + multiset{h} == InLevels(levels) + (multiset(slot) + multiset{h}) - multiset(slot);
  }

  lemma InsertAdds(s: State, h: Hint, earliest: nat)
    requires Shaped(s.levels) && s.current <= earliest
    ensures Hints(Insert(s, h, earliest)) == Hints(s) + multiset{Clamp(h, earliest)}
  {
    hide InLevels;
    var h' := Clamp(h, earliest);
    var lv := LevelFor(h'.tick - s.current);
    var r := Insert(s, h, earliest);
    if lv < LEVELS {
      AppendToSlot(s.levels, lv, SlotOf(lv, h'.tick), h');
      assert InLevels(r.levels) == InLevels(s.levels) + multiset{h'};
    } else {
      assert multiset(r.overflow) == multiset(s.overflow) + multiset{h'};
    }
  }

  // ---- The level invariant ----

  /** A hint due at `tick` may sit in slot `j` of level `lv` when the clock shows `now`.
      `lo` is 1 for a level that has nothing due, and 0 for a level whose slot for
      `now` has still to be cascaded or fired. */
  predicate Placed(lv: nat, j: nat, tick: nat, now: nat, lo: nat)
    requires lv < LEVELS
  {
    j == SlotOf(lv, tick) && lo <= Step(lv, tick) - Step(lv, now) < lo + Slots(lv)
  }

  ghost predicate LevelOk(s: State, lv: nat, lo: nat)
    requires Shaped(s.levels) && lv < LEVELS
  {
    forall j, h | 0 <= j < Slots(lv) && h in s.levels[lv][j] :: Placed(lv, j, h.tick, s.current, lo)
  }

  ghost predicate OverflowOk(s: State, lo: nat) {
    forall h | h in s.overflow :: Step(LEVELS, h.tick) - Step(LEVELS, s.current) >= lo
  }

  /** How far level `k` has got in the middle of a tick, when the levels strictly between
      0 and `lv` have been cascaded: 0 when the slot for `now` may still be occupied. */
  function Low(k: nat, lv: nat, now: nat): nat
    requires k <= LEVELS
  {
    if k == 0 || (k >= lv && OnBoundary(k, now)) then 0 else 1
  }

  ghost predicate LevelAt(s: State, k: nat, lv: nat)
    requires Shaped(s.levels) && k < LEVELS
  {
    LevelOk(s, k, Low(k, lv, s.current))
  }

  /** The state in the middle of a tick: levels strictly between 0 and `lv` have been
      cascaded, level 0 has not fired yet, and the levels from `lv` up are as they were. */
  ghost predicate Cascading(s: State, lv: nat)
  {
    && Shaped(s.levels)
    && (forall k | 0 <= k < LEVELS :: LevelAt(s, k, lv))
    && OverflowOk(s, Low(LEVELS, lv, s.current))
  }

  /** Between ticks: every level has only hints due after the current slot. */
  ghost predicate Settled(s: State) {
    Cascading(s, CASCADED) && LevelOk(s, 0, 1)
  }

  lemma PlacedFor(tick: nat, now: nat)
    requires now <= tick
    ensures var lv := LevelFor(tick - now);
            if lv == 0 then Placed(0, SlotOf(0, tick), tick, now, 0) && (now < tick ==> Placed(0, SlotOf(0, tick), tick, now, 1))
            else if lv < LEVELS then Placed(lv, SlotOf(lv, tick), tick, now, 1)
            else Step(lv, tick) - Step(lv, now) >= 1
  {
  }

  /** Inserting a hint that belongs below level `lv` keeps the half-cascaded state,
      and touches neither level `lv` nor anything above it. */
  lemma InsertBelow(s: State, h: Hint, lv: nat)
    requires 0 < lv <= CASCADED && Cascading(s, lv) && s.current <= h.tick
    requires LevelFor(h.tick - s.current) < lv
    ensures var r := Insert(s, h, s.current);
            && Cascading(r, lv)
            && (forall k | lv <= k < LEVELS :: r.levels[k] == s.levels[k])
            && (lv <= LEVELS ==> r.overflow == s.overflow)
  {
    PlacedFor(h.tick, s.current);
    var r := Insert(s, h, s.current);
    var to := LevelFor(h.tick - s.current);
    forall k | 0 <= k < LEVELS
      ensures LevelAt(r, k, lv)
    {
      assert LevelAt(s, k, lv);
      if k == to {
        LevelGrows(s, k, h, Low(k, lv, s.current), r);
      }
    }
  }

  lemma LevelGrows(s: State, k: nat, h: Hint, lo: nat, r: State)
    requires Shaped(s.levels) && Shaped(r.levels) && k < LEVELS && r.current == s.current
    requires LevelOk(s, k, lo) && Placed(k, SlotOf(k, h.tick), h.tick, s.current, lo)
    requires var j := SlotOf(k, h.tick); r.levels[k] == s.levels[k][j := s.levels[k][j] + [h]]
    ensures LevelOk(r, k, lo)
  {
    forall j, g | 0 <= j < Slots(k) && g in r.levels[k][j]
      ensures Placed(k, j, g.tick, r.current, lo)
    {
      if g != h || j != SlotOf(k, h.tick) {
        assert g in s.levels[k][j];
      }
    }
  }

  lemma LastApart(hs: seq<Hint>)
    requires hs != []
    ensures multiset(hs) == multiset(hs[..|hs| - 1]) + multiset{hs[|hs| - 1]}
  {
    assert hs == hs[..|hs| - 1] + [hs[|hs| - 1]];
  }

  lemma InsertAllStep(s: State, hs: seq<Hint>)
    requires Shaped(s.levels) && hs != []
    ensures InsertAll(s, hs) == Insert(InsertAll(s, hs[..|hs| - 1]), hs[|hs| - 1], s.current)
  {
    hide Insert;
    hide Shaped;
  }

  lemma {:induction false} InsertAllBelow(s: State, hs: seq<Hint>, lv: nat)
    requires 0 < lv <= CASCADED && Cascading(s, lv)
    requires forall h | h in hs :: s.current <= h.tick && LevelFor(h.tick - s.current) < lv
    ensures var r := InsertAll(s, hs);
            && Cascading(r, lv)
            && (forall k | lv <= k < LEVELS :: r.levels[k] == s.levels[k])
            && (lv <= LEVELS ==> r.overflow == s.overflow)
            && Hints(r) == Hints(s) + multiset(hs)
  {
    if hs == [] {
      assert multiset(hs) == multiset{};
    } else {
      assert Shaped(s.levels);
      hide Cascading;
      hide Insert;
      hide InsertAll;
      hide Hints;
      hide LevelFor;
      hide Clamp;
      var n := |hs| - 1;
      LastApart(hs);
      InsertAllStep(s, hs);
      InsertAllBelow(s, hs[..n], lv);
      InsertBelow(InsertAll(s, hs[..n]), hs[n], lv);
      InsertAdds(InsertAll(s, hs[..n]), hs[n], s.current);
    }
  }

  /** What is in the slot about to be cascaded is due within that slot, so all of it
      moves to a lower level. */
  lemma DueSlotMovesDown(lv: nat, tick: nat, now: nat)
    requires 0 < lv < LEVELS && OnBoundary(lv, now)
    requires Placed(lv, SlotOf(lv, tick), tick, now, 0)
    ensures SlotOf(lv, tick) == SlotOf(lv, now) ==> now <= tick && LevelFor(tick - now) < lv
    ensures SlotOf(lv, tick) != SlotOf(lv, now) ==> Placed(lv, SlotOf(lv, tick), tick, now, 1)
  {
    var q, p := Step(lv, tick), Step(lv, now);
    SameResidue(lv, q, p);
    if q == p {
      SameStep(lv, tick, now);
    }
  }

  lemma SameResidue(lv: nat, q: nat, p: nat)
    requires lv < LEVELS && p <= q < p + Slots(lv)
    ensures lv == 0 && q % 256 == p % 256 ==> q == p
    ensures (lv == 1 || lv == 2) && q % 64 == p % 64 ==> q == p
    ensures lv == 3 && q % 32 == p % 32 ==> q == p
  {
    if lv == 0 {
      assert q - p == 256 * (q / 256 - p / 256) + (q % 256 - p % 256);
    } else if lv < 3 {
      assert q - p == 64 * (q / 64 - p / 64) + (q % 64 - p % 64);
    } else {
      assert q - p == 32 * (q / 32 - p / 32) + (q % 32 - p % 32);
    }
  }

  lemma SameStep(lv: nat, tick: nat, now: nat)
    requires 0 < lv < LEVELS && OnBoundary(lv, now) && Step(lv, tick) == Step(lv, now)
    ensures now <= tick < now + Width(lv)
  {
  }

  lemma DueSlotBelow(s: State, lv: nat)
    requires 0 < lv < LEVELS && Cascading(s, lv) && OnBoundary(lv, s.current)
    ensures forall h | h in s.levels[lv][SlotOf(lv, s.current)] ::
              s.current <= h.tick && LevelFor(h.tick - s.current) < lv
  {
    var j := SlotOf(lv, s.current);
    assert LevelAt(s, lv, lv);
    forall h | h in s.levels[lv][j]
      ensures s.current <= h.tick && LevelFor(h.tick - s.current) < lv
    {
      DueSlotMovesDown(lv, h.tick, s.current);
    }
  }

  /** The slot being drained receives nothing while it is drained, so emptying it
      afterwards loses no hint. */
  lemma CascadeConserves(s: State, lv: nat)
    requires 0 < lv < LEVELS && Cascading(s, lv) && OnBoundary(lv, s.current)
    ensures Hints(Cascade(s, lv)) == Hints(s)
    ensures var j := SlotOf(lv, s.current);
            InsertAll(s, s.levels[lv][j]).levels[lv][j] == s.levels[lv][j]
  {
    var j := SlotOf(lv, s.current);
    var slot := s.levels[lv][j];
    DueSlotBelow(s, lv);
    InsertAllBelow(s, slot, lv);
    var r := InsertAll(s, slot);
    assert r.levels[lv] == s.levels[lv];
    SlotUpdate(r.levels, lv, j, []);
    Cancel(InLevels(Cascade(s, lv).levels), InLevels(r.levels), multiset(slot), multiset(r.overflow), Hints(s));
  }

  lemma Cancel(a: multiset<Hint>, b: multiset<Hint>, x: multiset<Hint>, o: multiset<Hint>, t: multiset<Hint>)
    requires a + x == b && b + o == t + x
    ensures a + o == t
  {
    assert a + o + x == t + x;
    assert a + o == a + o + x - x;
    assert t == t + x - x;
  }

  lemma CascadeKeeps(s: State, lv: nat)
    requires 0 < lv < LEVELS && Cascading(s, lv) && OnBoundary(lv, s.current)
    ensures Cascading(Cascade(s, lv), lv + 1)
  {
    var j := SlotOf(lv, s.current);
    var up := lv + 1;
    DueSlotBelow(s, lv);
    InsertAllBelow(s, s.levels[lv][j], lv);
    var r := InsertAll(s, s.levels[lv][j]);
    var r' := Cascade(s, lv);
    assert LevelAt(s, lv, lv);
    CascadedLevel(s, lv, r');
    forall k | 0 <= k < LEVELS
      ensures LevelAt(r', k, up)
    {
      assert LevelAt(r, k, lv);
      if k != lv {
        assert r'.levels[k] == r.levels[k];
      }
    }
  }

  lemma CascadedLevel(s: State, lv: nat, r: State)
    requires 0 < lv < LEVELS && OnBoundary(lv, s.current) && r.current == s.current
    requires Shaped(s.levels) && Shaped(r.levels) && LevelOk(s, lv, 0)
    requires r.levels[lv] == s.levels[lv][SlotOf(lv, s.current) := []]
    ensures LevelOk(r, lv, 1)
  {
    forall j, h | 0 <= j < Slots(lv) && h in r.levels[lv][j]
      ensures Placed(lv, j, h.tick, r.current, 1)
    {
      assert j != SlotOf(lv, s.current);
      assert h in s.levels[lv][j];
      assert Placed(lv, j, h.tick, s.current, 0);
      DueSlotMovesDown(lv, h.tick, s.current);
    }
  }

  lemma NotBeforeBoundary(tick: nat, now: nat)
    requires OnBoundary(LEVELS, now) && Step(LEVELS, tick) >= Step(LEVELS, now)
    ensures now <= tick
  {
  }

  lemma DrainKeeps(s: State)
    requires Cascading(s, LEVELS) && OnBoundary(LEVELS, s.current)
    ensures Cascading(DrainOverflow(s), CASCADED)
    ensures Hints(DrainOverflow(s)) == Hints(s)
  {
    var s' := s.(overflow := []);
    forall k | 0 <= k < LEVELS
      ensures LevelAt(s', k, CASCADED)
    {
      assert LevelAt(s, k, LEVELS);
    }
    forall h | h in s.overflow
      ensures s.current <= h.tick
    {
      NotBeforeBoundary(h.tick, s.current);
    }
    InsertAllBelow(s', s.overflow, CASCADED);
  }

  /** A level wraps exactly when the slot boundary of the level above is crossed. */
  lemma WrapsWithNext(lv: nat, now: nat)
    requires lv < LEVELS && OnBoundary(lv, now)
    ensures SlotOf(lv, now) == 0 <==> OnBoundary(lv + 1, now)
  {
    if lv == 1 {
      WrapsTogether(now, 256, 64);
    } else if lv == 2 {
      WrapsTogether(now, 16384, 64);
    } else if lv == 3 {
      WrapsTogether(now, 1048576, 32);
    }
  }

  /** A boundary of level `lv + 1` is a boundary of level `lv`. */
  lemma BoundariesNest(lv: nat, now: nat)
    requires lv < LEVELS && OnBoundary(lv + 1, now)
    ensures OnBoundary(lv, now)
  {
    if lv == 1 {
      MultiplesNest(now, 256, 64);
    } else if lv == 2 {
      MultiplesNest(now, 16384, 64);
    } else if lv == 3 {
      MultiplesNest(now, 1048576, 32);
    }
  }

  lemma {:induction false} CascadeFromKeeps(s: State, lv: nat)
    requires 0 < lv <= LEVELS && Cascading(s, lv) && OnBoundary(lv, s.current)
    ensures Cascading(CascadeFrom(s, lv), CASCADED)
    ensures Hints(CascadeFrom(s, lv)) == Hints(s)
    decreases LEVELS - lv
  {
    if lv == LEVELS {
      DrainKeeps(s);
    } else {
      CascadeKeeps(s, lv);
      CascadeConserves(s, lv);
      WrapsWithNext(lv, s.current);
      var r := Cascade(s, lv);
      if SlotOf(lv, s.current) == 0 {
        CascadeFromKeeps(r, lv + 1);
      } else {
        NothingLeftToCascade(r, lv + 1);
      }
    }
  }

  lemma NothingLeftToCascade(s: State, lv: nat)
    requires 0 < lv <= LEVELS && Cascading(s, lv)
    requires !OnBoundary(lv, s.current)
    ensures Cascading(s, CASCADED)
  {
    NotAligned(lv, s.current);
    forall k | 0 <= k < LEVELS
      ensures LevelAt(s, k, CASCADED)
    {
      assert LevelAt(s, k, lv);
    }
  }

  lemma {:induction false} NotAligned(lv: nat, now: nat)
    requires lv <= LEVELS && !OnBoundary(lv, now)
    ensures forall k | lv <= k <= LEVELS :: !OnBoundary(k, now)
    decreases LEVELS - lv
  {
    if lv < LEVELS {
      if OnBoundary(lv + 1, now) {
        BoundariesNest(lv, now);
      }
      NotAligned(lv + 1, now);
    }
  }

  /** Moving the clock on by one tick. */
  lemma StepClock(s: State)
    requires Settled(s)
    ensures Cascading(s.(current := s.current + 1), 1)
  {
    var s' := s.(current := s.current + 1);
    forall k | 0 <= k < LEVELS
      ensures LevelAt(s', k, 1)
    {
      assert LevelAt(s, k, CASCADED);
      assert LevelOk(s, k, 1);
      forall j, h | 0 <= j < Slots(k) && h in s'.levels[k][j]
        ensures Placed(k, j, h.tick, s'.current, Low(k, 1, s'.current))
      {
        assert Placed(k, j, h.tick, s.current, 1);
        StepQuotient(k, s.current);
      }
    }
    StepQuotient(LEVELS, s.current);
  }

  lemma StepQuotient(lv: nat, now: nat)
    requires lv <= LEVELS
    ensures Step(lv, now + 1) == Step(lv, now) + if lv == 0 || OnBoundary(lv, now + 1) then 1 else 0
  {
  }

  lemma CascadedKeeps(s: State)
    requires Settled(s)
    ensures Cascading(Cascaded(s), CASCADED) && Hints(Cascaded(s)) == Hints(s)
  {
    StepClock(s);
    var s1 := s.(current := s.current + 1);
    WrapsWithNext(0, s1.current);
    if SlotOf(0, s1.current) == 0 {
      CascadeFromKeeps(s1, 1);
    } else {
      NothingLeftToCascade(s1, 1);
    }
  }

  lemma FireKeeps(s: State)
    requires Cascading(s, CASCADED)
    ensures var j := SlotOf(0, s.current);
            var r := s.(levels := s.levels[0 := s.levels[0][j := []]]);
            && Settled(r)
            && Hints(s) == Hints(r) + multiset(s.levels[0][j])
            && forall h | h in s.levels[0][j] :: h.tick == s.current
  {
    var j := SlotOf(0, s.current);
    var r := s.(levels := s.levels[0 := s.levels[0][j := []]]);
    FireConserves(s, j);
    hide Hints;
    assert LevelAt(s, 0, CASCADED);
    forall h | h in s.levels[0][j]
      ensures h.tick == s.current
    {
      assert Placed(0, j, h.tick, s.current, 0);
    }
    FiredLevel(s, r);
    forall k | 0 <= k < LEVELS
      ensures LevelAt(r, k, CASCADED)
    {
      assert LevelAt(s, k, CASCADED);
    }
  }

  /** Emptying slot `j` of level 0 takes exactly what is in it. */
  lemma FireConserves(s: State, j: nat)
    requires Shaped(s.levels) && j < Slots(0)
    ensures Hints(s) == Hints(s.(levels := s.levels[0 := s.levels[0][j := []]])) + multiset(s.levels[0][j])
  {
    hide InLevels;
    SlotUpdate(s.levels, 0, j, []);
    var r := s.(levels := s.levels[0 := s.levels[0][j := []]]);
    assert Hints(r) + multiset(s.levels[0][j]) == InLevels(s.levels) + multiset{} + multiset(s.overflow);
  }

  /** The refinement of one tick: exactly the hints due now leave, each exactly as
      often as it was held, and everything else stays. */
  lemma TickFiresExactlyTheDue(s: State)
    requires Settled(s)
    ensures var (r, fired) := Tick(s);
            && Settled(r)
            && Hints(s) == Hints(r) + multiset(fired)
            && (forall h | h in fired :: h.tick == r.current)
            && (forall h | h in Hints(r) :: h.tick > r.current)
  {
    CascadedKeeps(s);
    FireKeeps(Cascaded(s));
    SettledIsFuture(Tick(s).0);
  }

  lemma FiredLevel(s: State, r: State)
    requires Shaped(s.levels) && LevelOk(s, 0, 0)
    requires r == s.(levels := s.levels[0 := s.levels[0][SlotOf(0, s.current) := []]])
    ensures LevelOk(r, 0, 1)
  {
    forall j, h | 0 <= j < Slots(0) && h in r.levels[0][j]
      ensures Placed(0, j, h.tick, r.current, 1)
    {
      assert h in s.levels[0][j];
      assert Placed(0, j, h.tick, s.current, 0);
    }
  }

  lemma SettledIsFuture(s: State)
    requires Settled(s)
    ensures forall h | h in Hints(s) :: h.tick > s.current
  {
    forall h | h in Hints(s)
      ensures h.tick > s.current
    {
      if h !in s.overflow {
        InLevelsMember(s.levels, h);
        var lv, j :| 0 <= lv < |s.levels| && 0 <= j < |s.levels[lv]| && h in s.levels[lv][j];
        assert LevelAt(s, lv, CASCADED);
        assert Placed(lv, j, h.tick, s.current, 1);
        QuotientOrder(h.tick, s.current, lv);
      } else {
        QuotientOrder(h.tick, s.current, LEVELS);
      }
    }
  }

  lemma QuotientOrder(a: nat, b: nat, lv: nat)
    requires lv <= LEVELS && Step(lv, a) > Step(lv, b)
    ensures a > b
  {
  }

  /** An addition between ticks: the hint is held, due at the next tick at the earliest. */
  lemma AddSettled(s: State, h: Hint)
    requires Settled(s)
    ensures Settled(Insert(s, h, s.current + 1))
    ensures Hints(Insert(s, h, s.current + 1)) == Hints(s) + multiset{Clamp(h, s.current + 1)}
  {
    InsertAdds(s, h, s.current + 1);
    ClampedSettled(s, Clamp(h, s.current + 1));
  }

  lemma ClampedSettled(s: State, h: Hint)
    requires Settled(s) && s.current < h.tick
    ensures Settled(Insert(s, h, s.current))
  {
    InsertBelow(s, h, CASCADED);
    PlacedFor(h.tick, s.current);
    if LevelFor(h.tick - s.current) == 0 {
      LevelGrows(s, 0, h, 1, Insert(s, h, s.current));
    }
  }

  function Empty(): (s: State)
    ensures Shaped(s.levels)
  {
    State(0, [seq(256, _ => []), seq(64, _ => []), seq(64, _ => []), seq(32, _ => [])], [])
  }

  lemma EmptySettled()
    ensures Settled(Empty()) && Hints(Empty()) == multiset{}
  {
    var s := Empty();
    assert forall k | 0 <= k < LEVELS :: LevelAt(s, k, CASCADED);
    forall h
      ensures h !in Hints(s)
    {
      InLevelsMember(s.levels, h);
    }
  }
}
