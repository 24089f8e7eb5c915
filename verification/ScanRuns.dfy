/** What one scan sees of a keyspace that changes under it, and the guarantee: every key
    present throughout is returned exactly once. */
module ScanRuns {
  import Glob

  /** Where keys live: a key's shard is fixed by its hash. */
  datatype Layout = Layout(shards: nat, hash: string -> nat)

  function HomeOf(l: Layout, key: string): (i: nat)
    requires l.shards > 0
    ensures i < l.shards
  {
    l.hash(key) % l.shards
  }

  /** One look of a scan at the keyspace, with the keys that are live at that instant:
      taking the key list of the next shard, in some order, or judging the next `take`
      keys of the list taken last. */
  datatype Step =
    | Snapshot(order: seq<string>, live: set<string>)
    | Batch(take: nat, live: set<string>, match': string)

  /** How far the scan has got; `shard` is -1 before the first snapshot. */
  datatype Walk = Walk(shard: int, keys: seq<string>, pos: nat, returned: seq<string>)

  const START: Walk := Walk(-1, [], 0, [])

  /** The filter of a page; an empty pattern keeps everything. */
  ghost predicate Keeps(match': string, key: string) {
    match' == "" || (Glob.Matches(Glob.Tokens(match'), key) && key != "")
  }

  ghost function Living(candidates: seq<string>, live: set<string>, match': string): seq<string> {
    if candidates == [] then []
    else
      var n := |candidates| - 1;
      Living(candidates[..n], live, match')
      + if candidates[n] in live && Keeps(match', candidates[n]) then [candidates[n]] else []
  }

  ghost predicate Distinct(s: seq<string>) {
    forall i, j | 0 <= i < j < |s| :: s[i] != s[j]
  }

  /** `order` lists the keys live in one shard, each once. */
  ghost predicate Lists(l: Layout, order: seq<string>, live: set<string>, shard: nat)
    requires l.shards > 0
  {
    Distinct(order) && forall k :: k in order <==> k in live && HomeOf(l, k) == shard
  }

  ghost predicate Legal(l: Layout, w: Walk, s: Step)
    requires l.shards > 0
  {
    match s
    case Snapshot(order, live) =>
      w.pos >= |w.keys| && -1 <= w.shard && w.shard + 1 < l.shards && Lists(l, order, live, w.shard + 1)
    case Batch(take, _, _) => w.pos + take <= |w.keys|
  }

  ghost function After(w: Walk, s: Step): Walk {
    match s
    case Snapshot(order, _) => Walk(w.shard + 1, order, 0, w.returned)
    case Batch(take, live, match') =>
      if w.pos + take > |w.keys| then w
      else w.(pos := w.pos + take, returned := w.returned + Living(w.keys[w.pos..w.pos + take], live, match'))
  }

  ghost function Replay(steps: seq<Step>): Walk {
    if steps == [] then START else After(Replay(steps[..|steps| - 1]), steps[|steps| - 1])
  }

  ghost predicate LegalRun(l: Layout, steps: seq<Step>)
    requires l.shards > 0
  {
    forall i | 0 <= i < |steps| :: Legal(l, Replay(steps[..i]), steps[i])
  }

  ghost predicate Finished(l: Layout, w: Walk) {
    w.shard + 1 >= l.shards && w.pos >= |w.keys|
  }

  /** The key is live, and passes the filter, whenever the scan looks. */
  ghost predicate Throughout(steps: seq<Step>, key: string) {
    forall i | 0 <= i < |steps| :: key in steps[i].live && (steps[i].Batch? ==> Keeps(steps[i].match', key))
  }

  // ---- The invariant of one scan ----

  /** What has been returned comes from shards already walked, or from the part of the
      current list already judged, and nothing is repeated. */
  ghost predicate Orderly(l: Layout, w: Walk)
    requires l.shards > 0
  {
    && -1 <= w.shard < l.shards && w.pos <= |w.keys|
    && Distinct(w.keys) && (forall k | k in w.keys :: HomeOf(l, k) == w.shard)
    && Distinct(w.returned)
    && (forall k | k in w.returned :: HomeOf(l, k) < w.shard || k in w.keys[..w.pos])
  }

  ghost predicate Covers(l: Layout, w: Walk, key: string)
    requires l.shards > 0 && w.pos <= |w.keys|
  {
    && (HomeOf(l, key) < w.shard ==> key in w.returned)
    && (HomeOf(l, key) == w.shard ==> key in w.keys && (key in w.keys[..w.pos] ==> key in w.returned))
  }

  lemma {:induction false} LivingMember(cs: seq<string>, live: set<string>, m: string, key: string)
    ensures key in Living(cs, live, m) <==> key in cs && key in live && Keeps(m, key)
  {
    hide Keeps;
    if cs != [] {
      var n := |cs| - 1;
      LivingMember(cs[..n], live, m, key);
      assert cs == cs[..n] + [cs[n]];
    }
  }

  lemma {:induction false} LivingDistinct(cs: seq<string>, live: set<string>, m: string)
    requires Distinct(cs)
    ensures Distinct(Living(cs, live, m))
  {
    hide Keeps;
    if cs != [] {
      var n := |cs| - 1;
      LivingDistinct(cs[..n], live, m);
      LivingMember(cs[..n], live, m, cs[n]);
      assert forall i | 0 <= i < n :: cs[i] == cs[..n][i];
    }
  }

  lemma DistinctConcat(a: seq<string>, b: seq<string>)
    requires Distinct(a) && Distinct(b) && forall k | k in a :: k !in b
    ensures Distinct(a + b)
  {
    forall i, j | 0 <= i < j < |a + b|
      ensures (a + b)[i] != (a + b)[j]
    {
      if i < |a| <= j {
        assert a[i] in a && b[j - |a|] in b;
      }
    }
  }

  /** Judging a batch returns only keys of that batch, each once, and none returned before. */
  lemma BatchNew(l: Layout, w: Walk, take: nat, live: set<string>, m: string)
    requires l.shards > 0 && Orderly(l, w) && w.pos + take <= |w.keys|
    ensures var more := Living(w.keys[w.pos..w.pos + take], live, m);
            && Distinct(more)
            && forall k | k in more :: k in w.keys[..w.pos + take] && k !in w.returned
  {
    hide Keeps;
    hide Living;
    var batch := w.keys[w.pos..w.pos + take];
    var more := Living(batch, live, m);
    LivingDistinct(batch, live, m);
    forall k | k in more
      ensures k in w.keys[..w.pos + take] && k !in w.returned
    {
      LivingMember(batch, live, m, k);
      var i :| 0 <= i < |batch| && batch[i] == k;
      assert w.keys[..w.pos + take][w.pos + i] == k;
      assert w.keys[w.pos + i] in w.keys;
    }
  }

  lemma BatchOrderly(l: Layout, w: Walk, take: nat, live: set<string>, m: string)
    requires l.shards > 0 && Orderly(l, w) && w.pos + take <= |w.keys|
    ensures Orderly(l, After(w, Batch(take, live, m)))
  {
    hide Keeps;
    hide Living;
    BatchNew(l, w, take, live, m);
    DistinctConcat(w.returned, Living(w.keys[w.pos..w.pos + take], live, m));
    assert forall k | k in w.keys[..w.pos] :: k in w.keys[..w.pos + take];
  }

  lemma StepOrderly(l: Layout, w: Walk, s: Step)
    requires l.shards > 0 && Orderly(l, w) && Legal(l, w, s)
    ensures Orderly(l, After(w, s))
  {
    match s {
      case Snapshot(order, live) =>
        forall k | k in w.returned
          ensures HomeOf(l, k) < w.shard + 1
        {
          if k in w.keys[..w.pos] {
            assert k in w.keys;
          }
        }
      case Batch(take, live, m) => BatchOrderly(l, w, take, live, m);
    }
  }

  lemma SnapshotCovers(l: Layout, w: Walk, order: seq<string>, live: set<string>, key: string)
    requires l.shards > 0 && Orderly(l, w) && Legal(l, w, Snapshot(order, live)) && Covers(l, w, key) && key in live
    ensures Covers(l, After(w, Snapshot(order, live)), key)
  {
    hide Distinct;
    if HomeOf(l, key) == w.shard {
      assert w.keys[..w.pos] == w.keys;
    }
    assert order[..0] == [];
  }

  lemma BatchCovers(l: Layout, w: Walk, take: nat, live: set<string>, m: string, key: string)
    requires l.shards > 0 && Orderly(l, w) && w.pos + take <= |w.keys| && Covers(l, w, key)
    requires key in live && Keeps(m, key)
    ensures Covers(l, After(w, Batch(take, live, m)), key)
  {
    hide Keeps;
    hide Living;
    hide Orderly;
    var batch := w.keys[w.pos..w.pos + take];
    LivingMember(batch, live, m, key);
    assert w.keys[..w.pos + take] == w.keys[..w.pos] + batch;
  }

  lemma StepCovers(l: Layout, w: Walk, s: Step, key: string)
    requires l.shards > 0 && Orderly(l, w) && Legal(l, w, s) && Covers(l, w, key)
    requires key in s.live && (s.Batch? ==> Keeps(s.match', key))
    ensures Covers(l, After(w, s), key)
  {
    match s {
      case Snapshot(order, live) =>
        hide Orderly;
        hide Covers;
        SnapshotCovers(l, w, order, live, key);
      case Batch(take, live, m) =>
        hide Orderly;
        hide Covers;
        BatchCovers(l, w, take, live, m, key);
    }
  }

  lemma {:induction false} RunOrderly(l: Layout, steps: seq<Step>)
    requires l.shards > 0 && LegalRun(l, steps)
    ensures Orderly(l, Replay(steps))
  {
    hide Legal;
    hide After;
    hide Orderly;
    if steps == [] {
      StartOrderly(l);
    } else {
      var n := |steps| - 1;
      assert forall i | 0 <= i < n :: steps[..n][..i] == steps[..i];
      RunOrderly(l, steps[..n]);
      StepOrderly(l, Replay(steps[..n]), steps[n]);
    }
  }

  lemma StartOrderly(l: Layout)
    requires l.shards > 0
    ensures Orderly(l, START) && forall key :: Covers(l, START, key)
  {
  }

  lemma {:induction false} RunCovers(l: Layout, steps: seq<Step>, key: string)
    requires l.shards > 0 && LegalRun(l, steps) && Throughout(steps, key)
    ensures Covers(l, Replay(steps), key)
  {
    hide Legal;
    hide After;
    hide Orderly;
    hide Covers;
    hide Keeps;
    if steps == [] {
      StartOrderly(l);
    } else {
      var n := |steps| - 1;
      assert forall i | 0 <= i < n :: steps[..n][..i] == steps[..i] && steps[..n][i] == steps[i];
      RunOrderly(l, steps[..n]);
      RunCovers(l, steps[..n], key);
      StepCovers(l, Replay(steps[..n]), steps[n], key);
    }
  }

  /** The guarantee.  However the keyspace changes while the scan is under way: no key is
      returned twice, and once the scan has finished every key that was live and passed
      the filter whenever the scan looked has been returned. */
  lemma ExactlyOnce(l: Layout, steps: seq<Step>)
    requires l.shards > 0 && LegalRun(l, steps)
    ensures Distinct(Replay(steps).returned)
    ensures Finished(l, Replay(steps)) ==> forall key | Throughout(steps, key) :: key in Replay(steps).returned
  {
    hide Legal;
    hide Keeps;
    RunOrderly(l, steps);
    var w := Replay(steps);
    if Finished(l, w) {
      forall key | Throughout(steps, key)
        ensures key in w.returned
      {
        RunCovers(l, steps, key);
        assert w.keys[..w.pos] == w.keys;
      }
    }
  }

  /** The look that adds the key to what has been returned finds it live and wanted. */
  ghost predicate ReturnedAt(steps: seq<Step>, i: nat, key: string)
    requires i < |steps|
  {
    && key !in Replay(steps[..i]).returned && key in Replay(steps[..i + 1]).returned
    && steps[i].Batch? && key in steps[i].live && Keeps(steps[i].match', key)
  }

  lemma ReturnedLater(steps: seq<Step>, n: nat, i: nat, key: string)
    requires i < n <= |steps| && ReturnedAt(steps[..n], i, key)
    ensures ReturnedAt(steps, i, key)
  {
    hide Keeps;
    hide Replay;
    assert steps[..n][..i] == steps[..i] && steps[..n][..i + 1] == steps[..i + 1];
  }

  lemma AddedLive(w: Walk, s: Step, key: string)
    requires key in After(w, s).returned && key !in w.returned
    ensures s.Batch? && key in s.live && Keeps(s.match', key)
  {
    hide Keeps;
    if s.Batch? && w.pos + s.take <= |w.keys| {
      LivingMember(w.keys[w.pos..w.pos + s.take], s.live, s.match', key);
    }
  }

  lemma ReturnedLast(steps: seq<Step>, key: string)
    requires steps != [] && key in Replay(steps).returned && key !in Replay(steps[..|steps| - 1]).returned
    ensures ReturnedAt(steps, |steps| - 1, key)
  {
    hide Keeps;
    hide After;
    var n := |steps| - 1;
    AddedLive(Replay(steps[..n]), steps[n], key);
    assert steps[..n + 1] == steps;
  }

  /** Nothing dead or unwanted is returned: a returned key was live, and passed the filter,
      at the very look that returned it. */
  lemma {:induction false} OnlyLive(steps: seq<Step>, key: string)
    requires key in Replay(steps).returned
    ensures exists i | 0 <= i < |steps| :: ReturnedAt(steps, i, key)
  {
    hide ReturnedAt;
    hide After;
    var n := |steps| - 1;
    if key in Replay(steps[..n]).returned {
      OnlyLive(steps[..n], key);
      var i :| 0 <= i < n && ReturnedAt(steps[..n], i, key);
      ReturnedLater(steps, n, i, key);
    } else {
      ReturnedLast(steps, key);
    }
  }
}
