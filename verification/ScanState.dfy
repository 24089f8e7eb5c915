/** The registry of scan cursors, as a value: the cursors, how many each connection has
    open, the order of last use, and the bytes accounted. */
module ScanState {
  import opened MapSums
  import opened ScanRuns

  /** One scan under way: the key list of one shard, and how much of it has been judged. */
  datatype Cursor = Cursor(owner: nat, shard: int, keys: seq<string>, pos: nat, bytes: nat, lastUsed: int)

  /** `lru` names the cursors, most recently used first. */
  datatype Registry = Registry(cursors: map<string, Cursor>, perConn: map<nat, nat>, lru: seq<string>, bytes: int)

  const CURSOR_OVERHEAD: nat := 128
  const KEY_OVERHEAD: nat := 16

  function KeyBytes(keys: seq<string>): nat {
    if keys == [] then 0 else KeyBytes(keys[..|keys| - 1]) + |keys[|keys| - 1]|
  }

  function SnapshotBytes(keys: seq<string>): nat {
    |keys| * KEY_OVERHEAD + KeyBytes(keys)
  }

  function Held(perConn: map<nat, nat>, owner: nat): nat {
    if owner in perConn then perConn[owner] else 0
  }

  function Without(ids: seq<string>, id: string): seq<string> {
    if ids == [] then [] else if ids[0] == id then ids[1..] else [ids[0]] + Without(ids[1..], id)
  }

  // ---- The operations ----

  function Drop(r: Registry, id: string): Registry
    requires id in r.cursors
  {
    var c := r.cursors[id];
    var held := Held(r.perConn, c.owner);
    Registry(r.cursors - {id},
             if held > 1 then r.perConn[c.owner := held - 1] else r.perConn - {c.owner},
             Without(r.lru, id),
             r.bytes - c.bytes)
  }

  function Open(r: Registry, owner: nat, id: string, now: int): Registry {
    Registry(r.cursors[id := Cursor(owner, -1, [], 0, CURSOR_OVERHEAD, now)],
             r.perConn[owner := Held(r.perConn, owner) + 1],
             [id] + r.lru,
             r.bytes + CURSOR_OVERHEAD)
  }

  function Touch(r: Registry, id: string, now: int): Registry
    requires id in r.cursors
  {
    r.(cursors := r.cursors[id := r.cursors[id].(lastUsed := now)], lru := [id] + Without(r.lru, id))
  }

  function Forward(r: Registry, id: string, take: nat): Registry
    requires id in r.cursors
  {
    r.(cursors := r.cursors[id := r.cursors[id].(pos := r.cursors[id].pos + take)])
  }

  // ---- The invariant ----

  function BytesOf(c: Cursor): int {
    c.bytes
  }

  function OwnedBy(owner: nat): Cursor -> int {
    (c: Cursor) => if c.owner == owner then 1 else 0
  }

  /** The books: bytes and counts are those of the live cursors. */
  ghost predicate Booked(r: Registry) {
    && r.bytes == MapSum(r.cursors, BytesOf)
    && (forall o :: Held(r.perConn, o) == MapSum(r.cursors, OwnedBy(o)))
    && (forall o | o in r.perConn :: r.perConn[o] > 0)
  }

  /** The list names every cursor once, ordered by last use. */
  ghost predicate Listed(r: Registry) {
    && Distinct(r.lru)
    && (forall id :: id in r.lru <==> id in r.cursors)
    && (forall i, j | 0 <= i < j < |r.lru| :: r.cursors[r.lru[i]].lastUsed >= r.cursors[r.lru[j]].lastUsed)
  }

  ghost predicate Ok(r: Registry) {
    Booked(r) && Listed(r)
  }

  lemma {:induction false} WithoutMembers(ids: seq<string>, id: string)
    requires Distinct(ids)
    ensures forall k :: k in Without(ids, id) <==> k in ids && k != id
    ensures Distinct(Without(ids, id))
  {
    if ids != [] {
      assert Distinct(ids[1..]);
      WithoutMembers(ids[1..], id);
      assert ids == [ids[0]] + ids[1..];
      assert ids[0] !in ids[1..];
    }
  }

  /** `u` is listed before `v`. */
  ghost predicate Before(ids: seq<string>, u: string, v: string) {
    exists i, j | 0 <= i < j < |ids| :: ids[i] == u && ids[j] == v
  }

  ghost predicate SortedBy(ids: seq<string>, cursors: map<string, Cursor>)
    requires forall id | id in ids :: id in cursors
  {
    forall i, j | 0 <= i < j < |ids| :: cursors[ids[i]].lastUsed >= cursors[ids[j]].lastUsed
  }

  lemma {:induction false} WithoutSorted(ids: seq<string>, id: string, cursors: map<string, Cursor>)
    requires Distinct(ids) && (forall k | k in ids :: k in cursors) && SortedBy(ids, cursors)
    ensures (forall k | k in Without(ids, id) :: k in cursors) && SortedBy(Without(ids, id), cursors)
  {
    WithoutMembers(ids, id);
    if ids != [] && ids[0] != id {
      var tail := ids[1..];
      assert forall k | k in tail :: k in ids;
      assert forall i | 0 <= i < |tail| :: tail[i] == ids[i + 1];
      WithoutMembers(tail, id);
      WithoutSorted(tail, id, cursors);
      FirstIsLast(ids, tail, cursors);
      SortedCons(ids[0], Without(tail, id), cursors);
    }
  }

  lemma FirstIsLast(ids: seq<string>, tail: seq<string>, cursors: map<string, Cursor>)
    requires ids != [] && tail == ids[1..] && (forall k | k in ids :: k in cursors) && SortedBy(ids, cursors)
    ensures forall k | k in tail :: cursors[ids[0]].lastUsed >= cursors[k].lastUsed
  {
    forall k | k in tail
      ensures cursors[ids[0]].lastUsed >= cursors[k].lastUsed
    {
      var i :| 0 <= i < |tail| && tail[i] == k;
      assert ids[i + 1] == k;
    }
  }

  lemma SortedCons(id: string, rest: seq<string>, cursors: map<string, Cursor>)
    requires id in cursors && (forall k | k in rest :: k in cursors && cursors[id].lastUsed >= cursors[k].lastUsed)
    requires SortedBy(rest, cursors)
    ensures (forall k | k in [id] + rest :: k in cursors) && SortedBy([id] + rest, cursors)
  {
    var ids := [id] + rest;
    forall i, j | 0 <= i < j < |ids|
      ensures cursors[ids[i]].lastUsed >= cursors[ids[j]].lastUsed
    {
      assert ids[j] == rest[j - 1] && rest[j - 1] in rest;
    }
  }

  lemma DropBooked(r: Registry, id: string)
    requires Booked(r) && id in r.cursors
    ensures Booked(Drop(r, id))
  {
    var c := r.cursors[id];
    var d := Drop(r, id);
    SumWithout(r.cursors, id, BytesOf);
    forall o
      ensures Held(d.perConn, o) == MapSum(d.cursors, OwnedBy(o))
    {
      SumWithout(r.cursors, id, OwnedBy(o));
      SumNatural(d.cursors, OwnedBy(o));
    }
  }

  lemma DropListed(r: Registry, id: string)
    requires Listed(r) && id in r.cursors
    ensures Listed(Drop(r, id))
  {
    hide Without;
    WithoutMembers(r.lru, id);
    WithoutSorted(r.lru, id, r.cursors);
    var d := Drop(r, id);
    SortedElsewhere(d.lru, r.cursors, d.cursors);
  }

  /** Putting a cursor in front, used no earlier than any other. */
  lemma FrontListed(rest: seq<string>, id: string, cursors: map<string, Cursor>)
    requires Distinct(rest) && id !in rest && id in cursors
    requires forall k :: k in rest <==> k in cursors && k != id
    requires SortedBy(rest, cursors)
    requires forall k | k in cursors :: cursors[k].lastUsed <= cursors[id].lastUsed
    ensures Listed(Registry(cursors, map[], [id] + rest, 0))
  {
    var ids := [id] + rest;
    forall i, j | 0 <= i < j < |ids|
      ensures ids[i] != ids[j] && ids[i] in cursors && ids[j] in cursors
      ensures cursors[ids[i]].lastUsed >= cursors[ids[j]].lastUsed
    {
      assert ids[j] == rest[j - 1] && rest[j - 1] in rest;
      if i > 0 {
        assert ids[i] == rest[i - 1] && rest[i - 1] in rest;
      }
    }
  }

  lemma SortedElsewhere(ids: seq<string>, a: map<string, Cursor>, b: map<string, Cursor>)
    requires forall k | k in ids :: k in a && k in b && a[k] == b[k]
    requires SortedBy(ids, a)
    ensures SortedBy(ids, b)
  {
    forall i, j | 0 <= i < j < |ids|
      ensures b[ids[i]].lastUsed >= b[ids[j]].lastUsed
    {
      assert ids[i] in ids && ids[j] in ids;
    }
  }

  lemma OpenOk(r: Registry, owner: nat, id: string, now: int)
    requires Ok(r) && id !in r.cursors
    requires forall k | k in r.cursors :: r.cursors[k].lastUsed <= now
    ensures Ok(Open(r, owner, id, now))
  {
    hide Booked;
    OpenBooked(r, owner, id, now);
    var n := Open(r, owner, id, now);
    assert id !in r.lru;
    SortedElsewhere(r.lru, r.cursors, n.cursors);
    FrontListed(r.lru, id, n.cursors);
  }

  /** Both caps hold, and nothing was used after `clock`. */
  ghost predicate WithinCaps(r: Registry, maxBytes: int, maxPerOwner: nat, clock: int) {
    && r.bytes <= maxBytes
    && (forall o | o in r.perConn :: r.perConn[o] <= maxPerOwner)
    && (forall id | id in r.cursors :: r.cursors[id].lastUsed <= clock)
  }

  lemma OpenWithinCaps(r: Registry, owner: nat, id: string, now: int, maxBytes: int, maxPerOwner: nat, clock: int)
    requires WithinCaps(r, maxBytes, maxPerOwner, clock) && clock <= now
    requires Held(r.perConn, owner) < maxPerOwner && r.bytes + CURSOR_OVERHEAD <= maxBytes
    ensures WithinCaps(Open(r, owner, id, now), maxBytes, maxPerOwner, now)
  {
  }

  lemma OpenBooked(r: Registry, owner: nat, id: string, now: int)
    requires Booked(r) && id !in r.cursors
    ensures Booked(Open(r, owner, id, now))
  {
    var n := Open(r, owner, id, now);
    var c := n.cursors[id];
    SumWith(r.cursors, id, c, BytesOf);
    forall o: nat
      ensures Held(n.perConn, o) == MapSum(n.cursors, OwnedBy(o))
    {
      SumWith(r.cursors, id, c, OwnedBy(o));
    }
  }

  lemma TouchOk(r: Registry, id: string, now: int)
    requires Ok(r) && id in r.cursors
    requires forall k | k in r.cursors :: r.cursors[k].lastUsed <= now
    ensures Ok(Touch(r, id, now))
  {
    hide Booked;
    hide Listed;
    TouchBooked(r, id, now);
    TouchListed(r, id, now);
  }

  lemma TouchListed(r: Registry, id: string, now: int)
    requires Listed(r) && id in r.cursors
    requires forall k | k in r.cursors :: r.cursors[k].lastUsed <= now
    ensures Listed(Touch(r, id, now))
  {
    hide Without;
    var n := Touch(r, id, now);
    var rest := Without(r.lru, id);
    WithoutMembers(r.lru, id);
    WithoutSorted(r.lru, id, r.cursors);
    SortedElsewhere(rest, r.cursors, n.cursors);
    FrontListed(rest, id, n.cursors);
  }

  lemma TouchBooked(r: Registry, id: string, now: int)
    requires Booked(r) && id in r.cursors
    ensures Booked(Touch(r, id, now))
  {
    var n := Touch(r, id, now);
    SumWith(r.cursors, id, n.cursors[id], BytesOf);
    forall o: nat
      ensures Held(n.perConn, o) == MapSum(n.cursors, OwnedBy(o))
    {
      SumWith(r.cursors, id, n.cursors[id], OwnedBy(o));
    }
  }

  /** Anything that leaves owner and last use alone keeps the order and the counts. */
  lemma UpdateOk(r: Registry, id: string, c: Cursor, bytes: int)
    requires Ok(r) && id in r.cursors
    requires c.owner == r.cursors[id].owner && c.lastUsed == r.cursors[id].lastUsed
    requires bytes == r.bytes - r.cursors[id].bytes + c.bytes
    ensures Ok(r.(cursors := r.cursors[id := c], bytes := bytes))
  {
    hide Booked;
    hide Listed;
    UpdateBooked(r, id, c, bytes);
    UpdateListed(r, id, c, bytes);
  }

  lemma UpdateListed(r: Registry, id: string, c: Cursor, bytes: int)
    requires Listed(r) && id in r.cursors && c.lastUsed == r.cursors[id].lastUsed
    ensures Listed(r.(cursors := r.cursors[id := c], bytes := bytes))
  {
    var n := r.(cursors := r.cursors[id := c], bytes := bytes);
    forall i, j | 0 <= i < j < |r.lru|
      ensures r.lru[i] in n.cursors && r.lru[j] in n.cursors
      ensures n.cursors[r.lru[i]].lastUsed >= n.cursors[r.lru[j]].lastUsed
    {
      assert r.lru[i] in r.lru && r.lru[j] in r.lru;
    }
  }

  lemma UpdateBooked(r: Registry, id: string, c: Cursor, bytes: int)
    requires Booked(r) && id in r.cursors && c.owner == r.cursors[id].owner
    requires bytes == r.bytes - r.cursors[id].bytes + c.bytes
    ensures Booked(r.(cursors := r.cursors[id := c], bytes := bytes))
  {
    SumWith(r.cursors, id, c, BytesOf);
    forall o: nat
      ensures MapSum(r.cursors[id := c], OwnedBy(o)) == MapSum(r.cursors, OwnedBy(o))
    {
      SumWith(r.cursors, id, c, OwnedBy(o));
    }
  }

  // ---- Sweeping and making room ----

  /** Drops from the back of the list as long as the last cursor is idle. */
  ghost function SweepBack(r: Registry, deadline: int): Registry
    requires Listed(r)
    decreases |r.lru|
  {
    if r.lru == [] || r.cursors[r.lru[|r.lru| - 1]].lastUsed > deadline then r
    else
      var last := r.lru[|r.lru| - 1];
      assert last in r.lru;
      DropListed(r, last);
      WithoutLast(r.lru);
      SweepBack(Drop(r, last), deadline)
  }

  lemma {:induction false} WithoutLast(ids: seq<string>)
    requires Distinct(ids) && ids != []
    ensures Without(ids, ids[|ids| - 1]) == ids[..|ids| - 1]
  {
    var n := |ids| - 1;
    if n > 0 {
      assert ids[1..][n - 1] == ids[n];
      WithoutLast(ids[1..]);
      assert [ids[0]] + ids[1..][..n - 1] == ids[..n];
    }
  }

  /** The sweep drops exactly the cursors that have been idle past the deadline. */
  lemma {:induction false} SweepExact(r: Registry, deadline: int)
    requires Ok(r)
    ensures Ok(SweepBack(r, deadline))
    ensures forall id :: id in SweepBack(r, deadline).cursors <==> id in r.cursors && r.cursors[id].lastUsed > deadline
    ensures forall id | id in SweepBack(r, deadline).cursors :: SweepBack(r, deadline).cursors[id] == r.cursors[id]
    decreases |r.lru|
  {
    hide Booked;
    hide Listed;
    hide Drop;
    hide SweepBack;
    if r.lru == [] {
      NothingToSweep(r, deadline);
    } else {
      var last := r.lru[|r.lru| - 1];
      LastIsOldest(r);
      if r.cursors[last].lastUsed <= deadline {
        SweepOne(r, deadline);
        DropKeeps(r, last);
        SweepExact(Drop(r, last), deadline);
      } else {
        NothingToSweep(r, deadline);
      }
    }
  }

  /** With nothing idle at the back, the sweep leaves everything. */
  lemma NothingToSweep(r: Registry, deadline: int)
    requires Listed(r)
    requires r.lru == [] || (r.lru[|r.lru| - 1] in r.cursors && r.cursors[r.lru[|r.lru| - 1]].lastUsed > deadline)
    ensures SweepBack(r, deadline) == r
    ensures forall id | id in r.cursors :: r.cursors[id].lastUsed > deadline
  {
    if r.lru != [] {
      LastIsOldest(r);
    }
    forall id | id in r.cursors
      ensures r.cursors[id].lastUsed > deadline
    {
      assert id in r.lru;
    }
  }

  lemma DropKeeps(r: Registry, id: string)
    requires id in r.cursors
    ensures forall k :: k in Drop(r, id).cursors <==> k in r.cursors && k != id
    ensures forall k | k in Drop(r, id).cursors :: Drop(r, id).cursors[k] == r.cursors[k]
    ensures forall o :: Held(Drop(r, id).perConn, o) <= Held(r.perConn, o)
  {
  }

  lemma SweepOne(r: Registry, deadline: int)
    requires Ok(r) && r.lru != [] && r.lru[|r.lru| - 1] in r.cursors && r.cursors[r.lru[|r.lru| - 1]].lastUsed <= deadline
    ensures var d := Drop(r, r.lru[|r.lru| - 1]);
            Ok(d) && SweepBack(r, deadline) == SweepBack(d, deadline) && |d.lru| < |r.lru|
  {
    hide Booked;
    var last := r.lru[|r.lru| - 1];
    DropBooked(r, last);
    DropListed(r, last);
    WithoutLast(r.lru);
  }

  lemma LastIsOldest(r: Registry)
    requires Listed(r) && r.lru != []
    ensures var last := r.lru[|r.lru| - 1];
            last in r.cursors && forall id | id in r.cursors :: r.cursors[id].lastUsed >= r.cursors[last].lastUsed
  {
    var n := |r.lru| - 1;
    assert r.lru[n] in r.lru;
    forall id | id in r.cursors
      ensures r.cursors[id].lastUsed >= r.cursors[r.lru[n]].lastUsed
    {
      assert id in r.lru;
      var i :| 0 <= i < |r.lru| && r.lru[i] == id;
    }
  }

  /** The cursor that must survive, if any. */
  datatype Keep = Nobody | Only(id: string)

  lemma {:induction false} WithoutOrder(ids: seq<string>, id: string, u: string, v: string)
    requires Before(Without(ids, id), u, v)
    ensures Before(ids, u, v)
  {
    var rest := Without(ids, id);
    var i, j :| 0 <= i < j < |rest| && rest[i] == u && rest[j] == v;
    if ids[0] == id {
      assert ids[i + 1] == u && ids[j + 1] == v;
    } else if i > 0 {
      assert rest[1..][i - 1] == u && rest[1..][j - 1] == v;
      WithoutOrder(ids[1..], id, u, v);
      var a, b :| 0 <= a < b < |ids[1..]| && ids[1..][a] == u && ids[1..][b] == v;
      assert ids[a + 1] == u && ids[b + 1] == v;
    } else {
      WithoutWithin(ids[1..], id, v, j - 1);
      var b :| 0 <= b < |ids[1..]| && ids[1..][b] == v;
      assert ids[0] == u && ids[b + 1] == v;
    }
  }

  lemma {:induction false} WithoutWithin(ids: seq<string>, id: string, v: string, j: nat)
    requires j < |Without(ids, id)| && Without(ids, id)[j] == v
    ensures v in ids
  {
    if ids[0] == id {
      assert ids[j + 1] == v;
    } else if j > 0 {
      WithoutWithin(ids[1..], id, v, j - 1);
    }
  }

  /** Evicting `v`, the last entry that is not kept, respects the order of last use: every
      survivor that is not kept comes before every victim. */
  ghost predicate LeastRecent(before: Registry, after: Registry, keep: Keep) {
    && (forall u, v | Before(after.lru, u, v) :: Before(before.lru, u, v))
    && (forall u, v | u in after.lru && v in before.lru && v !in after.lru && keep != Only(u) :: Before(before.lru, u, v))
  }

  lemma EvictLeastRecent(before: Registry, r: Registry, v: string, k: nat, keep: Keep)
    requires Listed(before) && Listed(r) && LeastRecent(before, r, keep)
    requires k < |r.lru| && r.lru[k] == v && v in r.cursors && forall i | k < i < |r.lru| :: keep == Only(r.lru[i])
    ensures LeastRecent(before, Drop(r, v), keep)
  {
    var d := Drop(r, v);
    WithoutMembers(r.lru, v);
    forall a, b | Before(d.lru, a, b)
      ensures Before(before.lru, a, b)
    {
      WithoutOrder(r.lru, v, a, b);
    }
    forall a, b | a in d.lru && b in before.lru && b !in d.lru && keep != Only(a)
      ensures Before(before.lru, a, b)
    {
      assert a in r.lru;
      if b == v {
        var i :| 0 <= i < |r.lru| && r.lru[i] == a;
        assert i < k;
        assert Before(r.lru, a, v);
      }
    }
  }
}
