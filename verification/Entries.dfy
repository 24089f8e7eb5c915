/** A stored key-value pair: what it is charged, when it expires, how it is used. */
module Entries {

  const MAX_UINT32: nat := 0xFFFF_FFFF
  const ENTRY_OVERHEAD: nat := 80

  /** Times are Unix nanoseconds; an `expireAt` of 0 means the entry never expires. */
  datatype Entry = Entry(key: string, value: string, expireAt: int, lastAccess: int, accessCount: nat,
                         createdAt: int, size: nat)
  {
    predicate HasTtl() {
      expireAt != 0
    }

    predicate IsExpired(now: int) {
      expireAt != 0 && now > expireAt
    }

    /** What is left to live: -1 for ever, 0 once the deadline has been reached. */
    function Ttl(now: int): int {
      if expireAt == 0 then -1 else if expireAt - now <= 0 then 0 else expireAt - now
    }

    function Accessed(now: int): Entry {
      this.(lastAccess := now, accessCount := (accessCount + 1) % (MAX_UINT32 + 1))
    }

    function Retimed(ttl: int, now: int): Entry {
      this.(expireAt := if ttl <= 0 then 0 else now + ttl)
    }
  }

  /** Saturates rather than wrapping around. */
  function SizeOf(key: string, value: string): nat {
    var total := |key| + |value| + ENTRY_OVERHEAD;
    if total > MAX_UINT32 then MAX_UINT32 else total
  }

  function MakeEntry(key: string, value: string, ttl: int, now: int): Entry {
    Entry(key, value, if ttl > 0 then now + ttl else 0, now, 1, now, SizeOf(key, value))
  }

  /** A bigger pair is never charged less, so nothing large passes for something small. */
  lemma SizeMonotone(k: string, v: string, k': string, v': string)
    requires |k| + |v| <= |k'| + |v'|
    ensures SizeOf(k, v) <= SizeOf(k', v')
    ensures SizeOf(k, v) >= ENTRY_OVERHEAD
    ensures SizeOf(k, v) == |k| + |v| + ENTRY_OVERHEAD <==> |k| + |v| + ENTRY_OVERHEAD <= MAX_UINT32
  {
  }

  /** An expired entry has nothing left to live; the reverse holds except at the deadline
      itself, when a reader is told 0 of an entry that is still served. */
  lemma TtlAgrees(e: Entry, now: int)
    ensures e.IsExpired(now) ==> e.Ttl(now) == 0
    ensures e.Ttl(now) == 0 <==> e.IsExpired(now) || (e.HasTtl() && now == e.expireAt)
  {
  }
}
