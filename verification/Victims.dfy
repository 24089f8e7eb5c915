/** Choosing what to evict: a sample of a shard's entries, ranked by the active policy. */
module Victims {
  import opened Arithmetic
  import opened Entries

  datatype Policy = Lru | Lfu | Fifo | NoEviction

  const DEFAULT_SAMPLE_SIZE: nat := 5
  const MAX_SAMPLE_SIZE: nat := 100
  const DEFAULT_HALF_LIFE: nat := 60_000_000_000

  /** What a configured sample size comes to. */
  function SampleSize(n: int): (size: nat)
    ensures 0 < size <= MAX_SAMPLE_SIZE
  {
    if n <= 0 then DEFAULT_SAMPLE_SIZE else if n > MAX_SAMPLE_SIZE then MAX_SAMPLE_SIZE else n
  }

  /** What a configured half-life comes to, in nanoseconds. */
  function HalfLife(n: int): (length: nat)
    ensures length > 0
  {
    if n <= 0 then DEFAULT_HALF_LIFE else n
  }

  /** One sampled entry, reduced to what ranking needs. */
  datatype Candidate = Candidate(key: string, size: nat, score: int)

  const MAX_HALVINGS: nat := 62

  /** The access count, halved once for every half-life without an access. */
  function LfuScore(halfLife: nat, e: Entry, now: int): int
    requires halfLife > 0
  {
    var idle := now - e.lastAccess;
    if idle <= 0 then e.accessCount
    else if idle / halfLife > MAX_HALVINGS then 0
    else e.accessCount / Pow2(idle / halfLife)
  }

  /** The entry with the lowest score goes first. */
  function Score(p: Policy, halfLife: nat, e: Entry, now: int): int
    requires halfLife > 0
  {
    match p
    case Lru => e.lastAccess
    case Fifo => e.createdAt
    case Lfu => LfuScore(halfLife, e, now)
    case NoEviction => 0
  }

  lemma Pow2Of8()
    ensures Pow2(8) == 256
  {
    assert Pow2(4) == 16;
    Pow2Add(4, 4);
  }

  lemma Pow2Of32()
    ensures Pow2(32) == MAX_UINT32 + 1
  {
    Pow2Of8();
    Pow2Add(8, 8);
    Pow2Add(16, 16);
    hide Pow2;
  }

  lemma NothingLeft(count: nat, d: nat)
    requires count < d
    ensures count / d == 0
  {
  }

  /** The cut-off is not observable: for a 32-bit counter the discount has already reached
      nothing there, so the score is the count divided by two for every half-life. */
  lemma LfuIsHalving(halfLife: nat, e: Entry, now: int)
    requires halfLife > 0 && e.accessCount <= MAX_UINT32 && now >= e.lastAccess
    ensures LfuScore(halfLife, e, now) == e.accessCount / Pow2((now - e.lastAccess) / halfLife)
  {
    var halvings := (now - e.lastAccess) / halfLife;
    hide Pow2;
    if halvings > MAX_HALVINGS {
      Pow2Of32();
      Pow2Grows(32, halvings);
      NothingLeft(e.accessCount, Pow2(halvings));
    }
  }

  /** One more half-life without an access halves the score. */
  lemma LfuHalves(halfLife: nat, e: Entry, now: int)
    requires halfLife > 0 && e.accessCount <= MAX_UINT32 && now >= e.lastAccess
    ensures LfuScore(halfLife, e, now + halfLife) == LfuScore(halfLife, e, now) / 2
  {
    LfuIsHalving(halfLife, e, now);
    LfuIsHalving(halfLife, e, now + halfLife);
    var h := (now - e.lastAccess) / halfLife;
    OneMore(now - e.lastAccess, halfLife);
    hide LfuScore;
    DivideTwice(e.accessCount, Pow2(h), 2);
  }

  // ---- Ranking ----

  function Reduced(p: Policy, halfLife: nat, e: Entry, now: int): Candidate
    requires halfLife > 0
  {
    Candidate(e.key, e.size, Score(p, halfLife, e, now))
  }

  function Candidates(p: Policy, halfLife: nat, samples: seq<Entry>, now: int): seq<Candidate>
    requires halfLife > 0
  {
    seq(|samples|, i requires 0 <= i < |samples| => Reduced(p, halfLife, samples[i], now))
  }

  predicate Ascending(s: seq<Candidate>) {
    forall i, j | 0 <= i < j < |s| :: s[i].score <= s[j].score
  }

  function Insert(s: seq<Candidate>, c: Candidate): (r: seq<Candidate>)
    ensures |r| == |s| + 1
  {
    if s == [] then [c] else if c.score < s[0].score then [c] + s else [s[0]] + Insert(s[1..], c)
  }

  function Sorted(s: seq<Candidate>): (r: seq<Candidate>)
    ensures |r| == |s|
  {
    if s == [] then [] else Insert(Sorted(s[..|s| - 1]), s[|s| - 1])
  }

  lemma AscendingFrom(c: Candidate, rest: seq<Candidate>)
    requires Ascending(rest) && forall x | x in rest :: c.score <= x.score
    ensures Ascending([c] + rest)
  {
    forall i, j | 0 <= i < j < |[c] + rest|
      ensures ([c] + rest)[i].score <= ([c] + rest)[j].score
    {
      assert rest[j - 1] in rest;
    }
  }

  lemma {:induction false} InsertAdds(s: seq<Candidate>, c: Candidate)
    ensures multiset(Insert(s, c)) == multiset(s) + multiset{c}
  {
    if s != [] && c.score >= s[0].score {
      var rest := s[1..];
      InsertAdds(rest, c);
      assert Insert(s, c) == [s[0]] + Insert(rest, c);
      assert s == [s[0]] + rest;
      hide Insert;
    }
  }

  lemma {:induction false} InsertKeeps(s: seq<Candidate>, c: Candidate)
    requires Ascending(s)
    ensures Ascending(Insert(s, c))
  {
    if s == [] {
    } else if c.score < s[0].score {
      AscendingFrom(c, s);
    } else {
      var rest := s[1..];
      InsertKeeps(rest, c);
      InsertAdds(rest, c);
      forall x | x in Insert(rest, c)
        ensures s[0].score <= x.score
      {
        assert x in multiset(Insert(rest, c));
        assert x in rest || x == c;
      }
      hide Ascending;
      AscendingFrom(s[0], Insert(rest, c));
    }
  }

  lemma NothingAscends()
    ensures Ascending([])
  {
  }

  lemma {:induction false} SortedSorts(s: seq<Candidate>)
    ensures Ascending(Sorted(s)) && multiset(Sorted(s)) == multiset(s)
  {
    hide Ascending;
    hide Insert;
    if s == [] {
      NothingAscends();
    } else {
      var n := |s| - 1;
      SortedSorts(s[..n]);
      InsertKeeps(Sorted(s[..n]), s[n]);
      InsertAdds(Sorted(s[..n]), s[n]);
      assert s == s[..n] + [s[n]];
    }
  }

  function Freed(s: seq<Candidate>): nat {
    if s == [] then 0 else Freed(s[..|s| - 1]) + s[|s| - 1].size
  }

  predicate DistinctKeys(samples: seq<Entry>) {
    forall i, j | 0 <= i < j < |samples| :: samples[i].key != samples[j].key
  }

  predicate Names(victims: seq<string>, ranked: seq<Candidate>) {
    |victims| <= |ranked| && forall i | 0 <= i < |victims| :: victims[i] == ranked[i].key
  }

  /** The victims are the shortest run of the lowest-ranked candidates that frees enough, or
      all of them when even that does not. */
  method SelectVictims(p: Policy, halfLife: nat, samples: seq<Entry>, needed: nat, now: int)
    returns (victims: seq<string>, ghost ranked: seq<Candidate>)
    requires halfLife > 0
    ensures multiset(ranked) == multiset(Candidates(p, halfLife, samples, now)) && Ascending(ranked)
    ensures Names(victims, ranked)
    ensures victims == [] <==> needed == 0 || p == NoEviction || samples == []
    ensures victims != [] ==> Freed(ranked[..|victims| - 1]) < needed
    ensures victims != [] ==> Freed(ranked[..|victims|]) >= needed || |victims| == |ranked|
  {
    hide Ascending;
    victims := [];
    ranked := Ranked(p, halfLife, samples, now);
    if needed == 0 || p == NoEviction || samples == [] {
      return;
    }
    var order := Rank(p, halfLife, samples, now);
    victims := Cover(order, needed);
  }

  ghost function Ranked(p: Policy, halfLife: nat, samples: seq<Entry>, now: int): (r: seq<Candidate>)
    requires halfLife > 0
    ensures multiset(r) == multiset(Candidates(p, halfLife, samples, now)) && Ascending(r) && |r| == |samples|
  {
    SortedSorts(Candidates(p, halfLife, samples, now));
    Sorted(Candidates(p, halfLife, samples, now))
  }

  method Rank(p: Policy, halfLife: nat, samples: seq<Entry>, now: int) returns (ranked: seq<Candidate>)
    requires halfLife > 0
    ensures ranked == Ranked(p, halfLife, samples, now)
  {
    hide Sorted;
    hide Reduced;
    var reduced := [];
    for i := 0 to |samples|
      invariant reduced == Candidates(p, halfLife, samples[..i], now)
    {
      assert samples[..i + 1][..i] == samples[..i];
      reduced := reduced + [Reduced(p, halfLife, samples[i], now)];
    }
    assert samples[..|samples|] == samples;
    ranked := Sorted(reduced);
  }

  method Cover(order: seq<Candidate>, needed: nat) returns (victims: seq<string>)
    requires needed > 0 && order != []
    ensures Names(victims, order) && victims != []
    ensures Freed(order[..|victims| - 1]) < needed
    ensures Freed(order[..|victims|]) >= needed || |victims| == |order|
  {
    victims := [];
    var freed: nat := 0;
    for i := 0 to |order|
      invariant |victims| == i && Names(victims, order)
      invariant freed == Freed(order[..i]) && freed < needed
      invariant i > 0 ==> Freed(order[..i - 1]) < needed
    {
      assert order[..i + 1][..i] == order[..i];
      victims := victims + [order[i].key];
      freed := freed + order[i].size;
      if freed >= needed {
        break;
      }
    }
  }

  lemma FromSample(p: Policy, halfLife: nat, samples: seq<Entry>, now: int, ranked: seq<Candidate>, i: nat)
    returns (j: nat)
    requires halfLife > 0 && multiset(ranked) == multiset(Candidates(p, halfLife, samples, now)) && i < |ranked|
    ensures j < |samples| && ranked[i] == Reduced(p, halfLife, samples[j], now)
  {
    var cs := Candidates(p, halfLife, samples, now);
    assert ranked[i] in multiset(ranked);
    assert ranked[i] in cs;
    j :| 0 <= j < |cs| && cs[j] == ranked[i];
  }

  lemma {:induction false} KeysDistinct(p: Policy, halfLife: nat, samples: seq<Entry>, now: int, ranked: seq<Candidate>)
    requires halfLife > 0 && multiset(ranked) == multiset(Candidates(p, halfLife, samples, now)) && DistinctKeys(samples)
    ensures forall i, j | 0 <= i < j < |ranked| :: ranked[i].key != ranked[j].key
  {
    var cs := Candidates(p, halfLife, samples, now);
    forall i, j | 0 <= i < j < |ranked|
      ensures ranked[i].key != ranked[j].key
    {
      var a := FromSample(p, halfLife, samples, now, ranked, i);
      var b := FromSample(p, halfLife, samples, now, ranked, j);
      if ranked[i].key == ranked[j].key {
        assert a == b;
        TwiceInSequence(ranked, i, j);
        OnceInSequence(cs, a);
        assert false;
      }
    }
  }

  lemma TwiceInSequence(s: seq<Candidate>, i: nat, j: nat)
    requires i < j < |s| && s[i] == s[j]
    ensures multiset(s)[s[i]] >= 2
  {
    assert s == s[..i] + [s[i]] + s[i + 1..j] + [s[j]] + s[j + 1..];
  }

  lemma OnceInSequence(s: seq<Candidate>, i: nat)
    requires i < |s| && forall k | 0 <= k < |s| && k != i :: s[k] != s[i]
    ensures multiset(s)[s[i]] == 1
  {
    assert s == s[..i] + [s[i]] + s[i + 1..];
  }

  /** The victims are distinct sampled keys, and nothing that was sampled and spared ranks
      below a victim. */
  lemma VictimsAreLowest(p: Policy, halfLife: nat, samples: seq<Entry>, now: int,
                         ranked: seq<Candidate>, victims: seq<string>)
    requires halfLife > 0 && multiset(ranked) == multiset(Candidates(p, halfLife, samples, now))
    requires Ascending(ranked) && Names(victims, ranked) && DistinctKeys(samples)
    ensures forall i, j | 0 <= i < j < |victims| :: victims[i] != victims[j]
    ensures forall v | v in victims :: exists e | e in samples :: e.key == v
    ensures forall e, f | e in samples && f in samples && e.key in victims && f.key !in victims ::
              Score(p, halfLife, e, now) <= Score(p, halfLife, f, now)
  {
    hide Score;
    KeysDistinct(p, halfLife, samples, now, ranked);
    forall v | v in victims
      ensures exists e | e in samples :: e.key == v
    {
      var i :| 0 <= i < |victims| && victims[i] == v;
      var j := FromSample(p, halfLife, samples, now, ranked, i);
      assert samples[j] in samples;
    }
    forall e, f | e in samples && f in samples && e.key in victims && f.key !in victims
      ensures Score(p, halfLife, e, now) <= Score(p, halfLife, f, now)
    {
      var i := RankOf(p, halfLife, samples, now, ranked, e);
      var j := RankOf(p, halfLife, samples, now, ranked, f);
      var k :| 0 <= k < |victims| && victims[k] == e.key;
      assert k == i;
      assert j >= |victims|;
    }
  }

  lemma RankOf(p: Policy, halfLife: nat, samples: seq<Entry>, now: int, ranked: seq<Candidate>, e: Entry)
    returns (i: nat)
    requires halfLife > 0 && multiset(ranked) == multiset(Candidates(p, halfLife, samples, now)) && e in samples
    ensures i < |ranked| && ranked[i] == Reduced(p, halfLife, e, now)
  {
    var cs := Candidates(p, halfLife, samples, now);
    var j :| 0 <= j < |samples| && samples[j] == e;
    assert cs[j] in multiset(cs);
    assert cs[j] in ranked;
    i :| 0 <= i < |ranked| && ranked[i] == cs[j];
  }

  lemma SameNumber(p: Policy, halfLife: nat, samples: seq<Entry>, now: int, ranked: seq<Candidate>)
    requires halfLife > 0 && multiset(ranked) == multiset(Candidates(p, halfLife, samples, now))
    ensures |ranked| == |samples|
  {
    assert |multiset(ranked)| == |ranked|;
    assert |multiset(Candidates(p, halfLife, samples, now))| == |samples|;
  }

  /** The bytes that the named entries take up. */
  function Sizes(data: map<string, Entry>, names: seq<string>): nat {
    if names == [] then 0
    else
      var name := names[|names| - 1];
      Sizes(data, names[..|names| - 1]) + if name in data then data[name].size else 0
  }

  lemma {:induction false} SizesGrow(data: map<string, Entry>, names: seq<string>, j: nat, k: nat)
    requires j <= k <= |names|
    ensures Sizes(data, names[..j]) <= Sizes(data, names[..k])
    decreases k - j
  {
    if j < k {
      SizesGrow(data, names, j, k - 1);
      assert names[..k][..k - 1] == names[..k - 1];
    }
  }

  /** What the victims free is what their entries take up. */
  lemma {:induction false} FreedIsSizes(p: Policy, halfLife: nat, samples: seq<Entry>, now: int, ranked: seq<Candidate>,
                                        victims: seq<string>, data: map<string, Entry>, k: nat)
    requires halfLife > 0 && multiset(ranked) == multiset(Candidates(p, halfLife, samples, now))
    requires Names(victims, ranked) && k <= |victims|
    requires forall e | e in samples :: e.key in data && data[e.key] == e
    ensures Freed(ranked[..k]) == Sizes(data, victims[..k])
  {
    if k > 0 {
      FreedIsSizes(p, halfLife, samples, now, ranked, victims, data, k - 1);
      var j := FromSample(p, halfLife, samples, now, ranked, k - 1);
      assert samples[j] in samples;
      assert ranked[..k][..k - 1] == ranked[..k - 1] && victims[..k][..k - 1] == victims[..k - 1];
    }
  }

  /** Evicting `e` and sparing `f` is what the policy says. */
  ghost predicate Rightly(p: Policy, halfLife: nat, e: Entry, f: Entry, now: int)
    requires halfLife > 0
  {
    && (p == Lru ==> e.lastAccess <= f.lastAccess)
    && (p == Fifo ==> e.createdAt <= f.createdAt)
    && (p == Lfu && e.accessCount <= MAX_UINT32 && f.accessCount <= MAX_UINT32
        && e.lastAccess <= now && f.lastAccess <= now ==>
          e.accessCount / Pow2((now - e.lastAccess) / halfLife) <= f.accessCount / Pow2((now - f.lastAccess) / halfLife))
  }

  /** Nothing that was sampled and spared should, by the policy, have gone before a victim. */
  ghost predicate ByPolicy(p: Policy, halfLife: nat, samples: seq<Entry>, victims: seq<string>, now: int)
    requires halfLife > 0
  {
    forall e, f | e in samples && f in samples && e.key in victims && f.key !in victims ::
      Rightly(p, halfLife, e, f, now)
  }

  lemma AllByPolicy(p: Policy, halfLife: nat, samples: seq<Entry>, now: int, ranked: seq<Candidate>, victims: seq<string>)
    requires halfLife > 0 && multiset(ranked) == multiset(Candidates(p, halfLife, samples, now))
    requires Ascending(ranked) && Names(victims, ranked) && DistinctKeys(samples)
    ensures ByPolicy(p, halfLife, samples, victims, now)
  {
    hide Ascending;
    hide Rightly;
    forall e, f | e in samples && f in samples && e.key in victims && f.key !in victims
      ensures Rightly(p, halfLife, e, f, now)
    {
      EvictsByPolicy(p, halfLife, samples, now, ranked, victims, e, f);
    }
  }

  /** What each policy means: whatever is evicted was not used more recently (LRU), not
      stored later (FIFO), or not used more often, each half-life of idleness counting a use
      as half (LFU), than anything that was sampled and spared. */
  lemma EvictsByPolicy(p: Policy, halfLife: nat, samples: seq<Entry>, now: int, ranked: seq<Candidate>,
                       victims: seq<string>, e: Entry, f: Entry)
    requires halfLife > 0 && multiset(ranked) == multiset(Candidates(p, halfLife, samples, now))
    requires Ascending(ranked) && Names(victims, ranked) && DistinctKeys(samples)
    requires e in samples && f in samples && e.key in victims && f.key !in victims
    ensures Rightly(p, halfLife, e, f, now)
    ensures p == Lru ==> e.lastAccess <= f.lastAccess
    ensures p == Fifo ==> e.createdAt <= f.createdAt
    ensures p == Lfu && e.accessCount <= MAX_UINT32 && f.accessCount <= MAX_UINT32
            && e.lastAccess <= now && f.lastAccess <= now ==>
              e.accessCount / Pow2((now - e.lastAccess) / halfLife) <= f.accessCount / Pow2((now - f.lastAccess) / halfLife)
  {
    VictimsAreLowest(p, halfLife, samples, now, ranked, victims);
    assert Score(p, halfLife, e, now) <= Score(p, halfLife, f, now);
    if p == Lfu && e.accessCount <= MAX_UINT32 && f.accessCount <= MAX_UINT32 && e.lastAccess <= now && f.lastAccess <= now {
      LfuIsHalving(halfLife, e, now);
      LfuIsHalving(halfLife, f, now);
    }
    hide Pow2;
    hide Ascending;
    hide LfuScore;
  }
}
