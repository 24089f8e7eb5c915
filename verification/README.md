# Verified model of the cache

A Dafny model of the parts of this repository where a mistake would be hardest to see:
the expiry scheduler, the sharded storage engine, key scans, the glob matcher, the request
and reply protocol with its pipelining loop, and the client's connection pool. Each part is
modelled in the form the program has (objects with updated fields as classes, loops as
loops, calls and case analyses as functions), proved against a specification, and the
specification is proved to mean what the program's documentation says.

`dafny verify dfyconfig.toml` checks everything.

| part | modules | main results |
|---|---|---|
| time wheel | `WheelState`, `TimeWheel` | over any run of additions and ticks, the hierarchical wheel fires exactly what a flat multiset of (tick, hint) pairs would (`Drive`) |
| expiry manager | `Expiry`, `TtlManager`, `NoLeak` | never early, no hint lost or counted twice, nothing with an expiry is stranded, and what has expired is gone after its tick |
| both together | `WholeCache`, `Handover` | any run of operations and passes on one engine and its manager (`Drive`); and with their steps interleaved, no expiry is lost between a writer and the wheels, and what has expired is gone after its tick (`NeverStranded`, `ExpiredGoes`) |
| scans | `ScanRuns`, `ScanState`, `ScanCursors` | exactly-once over whole scans while everything else changes; the registry's books, caps and order of last use |
| storage engine | `Entries`, `ShardStore`, `Victims`, `EngineCore`, `Sharding`, `MemoryProtocol` | exact memory and expiry counts, the memory limit in every interleaving, bounded admission that touches one shard, minimal victim selection |
| glob | `Glob`, `GlobPatterns` | the backtracking matcher with its shared cut-off flag decides a declarative meaning, in a linear number of trials, and patterns mean what is written |
| protocol | `RespText`, `BufferedReader`, `Framing`, `RequestDecoder`, `FramingSound`, `RequestCodec`, `InlineRequests`, `RequestReader`, `ReplyCodec`, `ReplyRoundTrip`, `ReplyFrames`, `ReplyStreams`, `Pipeline` | scanner soundness with its exact exceptions, both round trips, the pipelining loop end to end |
| client pool | `Pool` | the connection ceiling, conservation of slots and connections and single ownership in every interleaving; who gets a connection, and which |

`Arithmetic`, `SeqSums` and `MapSums` hold the arithmetic the proofs share, `Options` the
optional value.

Conventions: a byte is a `char` and a byte string a `string`; times are Unix nanoseconds;
the hash, the clock, the random generator, the map's iteration order and the sampling of a
shard are arbitrary values. A lock is an atomic step. `shared` on a class says that other
goroutines act between the steps of its operations; where a contract says `!shared`, it
describes what an operation does when nothing else interferes.

## Where the code and its description part ways

- **Lowering the memory limit.** `Reserve` loads the limit once, before its
  compare-and-swap loop. A limit lowered after that load, though not below the memory in
  use, can still be exceeded by that reservation (`StaleLimit`). `WithinThroughout` says
  exactly which steps break a limit. `SafeLimit` gives the exact condition on a change of
  limit under which no continuation exceeds it: the use fits, and no reservation under way
  `Threatens` it, that is, grows the use, loaded a looser limit, will not be refused by that
  one, and exceeds the new one either by itself or beside an entry of the least size, 80
  bytes, that still fits elsewhere. `ThreatCarriedOut` constructs the continuation for every
  reservation that does, out of entries of sizes the program charges (`Fill`). Raising a
  limit that was safe is safe too, except exactly for a reservation that only lack of room
  has kept within it (`RaisingIsSafe`, `RaisedTooFar`).
- **Framing.** The scanner's promise that the decoder will not block fails exactly for
  inputs that `Diverges` describes: a count or length with a plus sign or padded with zeros
  beyond 18 digits, which `Atoi` accepts and `scanInt` takes for malformed, and a multibulk
  request whose first element is empty, which `Decode` skips. `ScannerSound` is an
  if-and-only-if; `NamelessStalls`, `AmbiguousStalls` and `AmbiguousExamples` show each
  family. No request that a client encodes with a non-empty name is affected
  (`SendableNeverDiverges`), so a server never holds replies back while it waits for such a
  client (`RequestsAreSteady`, `Handle`).
- **Rounding the shard count.** `nextPowerOfTwo` spreads bits over 32 positions only, in
  signed 64-bit arithmetic. The result is the least power of two that is not below the
  request exactly when the request is at most 2^62 and, reduced by one, has no 32 zero bits
  in a row below its highest one (`RoundedExactly`); for any other request it is no positive
  power of two at all. 2^32 + 1 is the first of these (`BeyondThirtyTwoBits`), and a dense
  request beyond 2^62 overflows to -2^63 (`BeyondTwoToTheSixtyTwo`). A configuration may ask
  for 4096 at most, so both are out of reach.
- **Remaining time to live.** At the very instant of its deadline an entry reports a
  remaining time of 0 and is still served (`TtlAgrees`).
- **An empty key and a star.** As in Redis, the matcher lets only the empty pattern match
  the empty key (`MatchGlob`), so a filter of stars misses that key unless it is the bare
  `*` that callers answer themselves.

## Model

| member | source | states |
|---|---|---|
| `WheelState.StepIsQuotient` | `internal/ttl/wheel.go:19-61` | the literal slot arithmetic of every level is the quotient and remainder of the tick by the level's width |
| `WheelState.ShiftMask` | `internal/ttl/wheel.go:111-125` | on 64-bit ticks the shifts and masks of the code are those divisions and remainders |
| `WheelState.PlacedFor` | `internal/ttl/wheel.go:111-125` | the level chosen for a remaining time places the hint 1 to `slots` steps ahead of the clock at that level |
| `WheelState.DueSlotMovesDown` | `internal/ttl/wheel.go:168-182` | every hint in the slot being cascaded is due within that slot's span, so it goes to a strictly lower level; no other slot holds a due hint |
| `WheelState.CascadeConserves` | `internal/ttl/wheel.go:168-182` | a cascade re-inserts nothing into the slot it drains, so truncating that slot afterwards loses no hint |
| `WheelState.DrainKeeps` | `internal/ttl/wheel.go:184-198` | draining the overflow list conserves hints and leaves every hint where its distance puts it |
| `WheelState.WrapsWithNext` | `internal/ttl/wheel.go:151-166` | a level wraps to slot 0 exactly when the level above crosses a slot boundary, which is when the chain goes on |
| `WheelState.CascadeFromKeeps` | `internal/ttl/wheel.go:151-166` | the cascade chain conserves hints and re-establishes the level invariant |
| `WheelState.TickFiresExactlyTheDue` | `internal/ttl/wheel.go:127-149` | one tick: exactly the hints due now leave, with their multiplicities, and everything left is due later |
| `WheelState.AddSettled` | `internal/ttl/wheel.go:81-91` | an addition holds the hint at its tick, clamped to the next one, and keeps the level invariant |
| `TimeWheel.Wheel.constructor` | `internal/ttl/wheel.go:63-79` | a new wheel is well formed and holds nothing |
| `TimeWheel.Wheel.Insert` | `internal/ttl/wheel.go:103-125` | the in-place insertion is the insertion of the value model |
| `TimeWheel.Wheel.CascadeLevel` | `internal/ttl/wheel.go:168-182` | cascading a level in place, its slot truncated at the end, is the value model's cascade; the drained index is returned |
| `TimeWheel.Wheel.Drain` | `internal/ttl/wheel.go:184-198` | draining the overflow list in place is the value model's drain |
| `TimeWheel.Wheel.CascadeChain` | `internal/ttl/wheel.go:151-166` | the loop over levels that stops at the first non-zero index is the value model's chain |
| `TimeWheel.Wheel.Add` | `internal/ttl/wheel.go:81-91` | the held multiset grows by the hint, due at the next tick at the earliest |
| `TimeWheel.Wheel.Requeue` | `internal/ttl/wheel.go:93-101` | the held multiset grows by the hint, due at the next tick |
| `TimeWheel.Wheel.Advance` | `internal/ttl/wheel.go:127-149` | what is appended is exactly the held hints due at the new tick; the rest stays, all of it due later; the pending count follows |
| `TimeWheel.Drive` | `internal/ttl/wheel.go:81-198` | for every run: the tick that moves the clock to k+1 fires each hint scheduled for k+1 exactly as often as it was scheduled and nothing else, and pending plus fired is everything scheduled |
| `Expiry.NeverEarly` | `internal/ttl/manager.go:86-106` | the deadline of an expiry's tick is at or after the expiry, and the tick before is strictly earlier |
| `Expiry.TickForIsLeast` | `internal/ttl/manager.go:86-106` | a tick's deadline covers the expiry if and only if it is at or past the expiry's tick |
| `Expiry.DueByQuotient` | `internal/ttl/manager.go:219-246` | a tick is due if and only if it is at most the elapsed time divided by the tick length |
| `Expiry.SettleAllConserves` | `internal/ttl/manager.go:267-304` | whatever the keyspace answers, settling the hints in hand balances the counters |
| `Expiry.ProcessConserves` | `internal/ttl/manager.go:267-304` | with any batch limit, after a tick added = pending + expired + dropped and fired = expired + dropped + reinserted |
| `TtlManager.Keyspace.Judge` | `internal/ttl/manager.go:280-303` | one hint's verdict; undisturbed it is that of the keys as they were, and whoever interferes, what is removed had expired when it was looked at again, and what is kept for later had not expired when it was looked up |
| `TtlManager.Manager.constructor` | `internal/ttl/manager.go:56-78` | ticks, stripes and the batch limit as configured, with the defaults, rounding and clamps of the program; every stripe's clock is the manager's, and the books balance |
| `TtlManager.RoundUpPow2` | `internal/ttl/ttl.go:191-204` | the least power of two that is not below the request, between 1 and the most stripes there can be |
| `TtlManager.Manager.Add` | `internal/ttl/manager.go:108-123` | an expiry is counted and held by the stripe of its shard, clamped to the next tick; one that is not positive is only counted as ignored; a stopped manager takes none |
| `TtlManager.Manager.Validate` | `internal/ttl/manager.go:280-303` | acting on one hint is one settlement of the value model, undisturbed exactly the keyspace's answer; the expired count is the number of removals, none of them early |
| `TtlManager.Manager.ValidateAll` | `internal/ttl/manager.go:280-303` | the loop settles the hints in order, each against the keys its predecessors left |
| `TtlManager.Manager.Process` | `internal/ttl/manager.go:267-304` | the hints past the batch limit are put back for the next tick and counted as deferred, the others are validated |
| `TtlManager.Manager.AdvanceStripes` | `internal/ttl/manager.go:256-265` | all stripes move on by one tick together, and what is collected is exactly what is due across all of them |
| `TtlManager.Manager.AdvanceOne` | `internal/ttl/manager.go:256-265` | one tick keeps every stripe in step and the books balanced, and undisturbed it is one step of the cache |
| `TtlManager.Manager.CatchUp` | `internal/ttl/manager.go:217-246` | uninterrupted it ends at the larger of the clock and the last due tick, skipping none, with every tick of the pass beyond the first counted late; every removal is counted and none is early, whoever interferes; over an idle keyspace coverage is kept and, with no batch limit, everything expired whose tick has come is gone |
| `NoLeak.NextCovers` | `internal/ttl/manager.go:256-304` | every step of the cache keeps a pending hint for each entry with an expiry, due no later than its own tick or the next, whatever the batch limit defers |
| `NoLeak.RunCovered` | `internal/ttl/manager.go:256-304` | so in every run from an empty cache no entry with an expiry is ever stranded |
| `NoLeak.TickRemovesExpired` | `internal/ttl/manager.go:256-304` | with no batch limit, a tick at or past an entry's own, at an instant past its expiry, removes it |
| `NoLeak.TickReclaims` | `internal/ttl/manager.go:256-304` | after such a tick nothing is left that has expired and whose tick has come |
| `NoLeak.ExpiredAreGone` | `internal/ttl/manager.go:256-304` | the same at any point of any run from an empty cache |
| `NoLeak.OnlyExpiredGo` | `internal/ttl/manager.go:280-303` | a tick removes no entry whose expiry has not passed, and changes none |
| `Entries.SizeMonotone` | `internal/storage/entry.go:107-119` | the charged size never shrinks with the data and saturates instead of wrapping |
| `Entries.TtlAgrees` | `internal/storage/entry.go:60-86` | the remaining time is 0 for an expired entry, and otherwise only at the instant of the deadline |
| `ShardStore.MemoryTracker.Reserve` | `internal/storage/memory.go:42-74` | granted exactly when use minus credit plus size is within the limit, and then charged exactly; the clamp changes nothing when the credit is part of the use |
| `ShardStore.CountedPut` | `internal/storage/shard.go:172-194` | replacing an entry moves the byte and expiry counts by exactly the difference |
| `ShardStore.CountedRemove` | `internal/storage/shard.go:196-203` | removing an entry moves both counts by exactly what it held |
| `ShardStore.Shard.RemoveLocked` | `internal/storage/shard.go:196-203` | the shard's and the engine's counters drop by the same amount, so what other shards hold is untouched and the clamp never engages |
| `ShardStore.Shard.Write` | `internal/storage/shard.go:137-170` | blocked exactly by a live entry when conditional; out of memory exactly when the difference does not fit; otherwise stored, with exactly the difference charged; and nothing changes when it does not store |
| `ShardStore.Shard.Look` | `internal/storage/shard.go:83-114` | the first look of a read: a hit exactly for a live entry, which has then been used once more, now, and is otherwise as it was; nothing else changes |
| `ShardStore.Shard.Miss` | `internal/storage/shard.go:83-114` | the second half of a miss: an entry that was expired is reclaimed, unless lazy expiration is off, only if it is expired at the second look, and counted |
| `ShardStore.Shard.SetTtl` | `internal/storage/shard.go:205-230` | applies exactly to a live entry and changes nothing of it but the expiry, counted from now; the expiry count follows every transition |
| `ShardStore.Shard.Delete` | `internal/storage/shard.go:232-245` | removes the entry, expired or not, and settles both counters |
| `ShardStore.Shard.Expire` | `internal/storage/shard.go:247-272` | removes the entry if and only if it is expired at this look |
| `ShardStore.Shard.Evict` | `internal/storage/shard.go:274-290` | removes the entry if it is there, gives back exactly its size, and counts an eviction |
| `ShardStore.Shard.Sample` | `internal/storage/shard.go:431-447` | distinct live entries, as many as asked for, but never none when there is one, or else all of them |
| `ShardStore.Shard.Clear` | `internal/storage/shard.go:483-492` | empties the shard and gives back exactly its own bytes |
| `Victims.LfuIsHalving` | `internal/eviction/eviction.go:242-263` | the cut-off is not observable: the score is the count divided by two per half-life of idleness |
| `Victims.LfuHalves` | `internal/eviction/eviction.go:242-263` | one more idle half-life halves the score |
| `Victims.SelectVictims` | `internal/eviction/eviction.go:192-230` | the victims are the shortest run of the ascending ranking that frees enough, or the whole sample; none exactly when nothing is needed, the policy evicts nothing, or nothing was sampled |
| `Victims.VictimsAreLowest` | `internal/eviction/eviction.go:192-230` | the victims are distinct sampled keys, and nothing sampled and spared scores below a victim |
| `Victims.EvictsByPolicy` | `internal/eviction/eviction.go:192-263` | in the entries' own terms: no victim was used more recently (LRU), stored later (FIFO), or used more often with each idle half-life counting uses as half (LFU), than anything sampled and spared |
| `Sharding.RoundsUp` | `internal/storage/engine.go:277-290` | up to 2^32 the shard count is the least power of two that is not below the request |
| `Sharding.RoundedExactly` | `internal/storage/engine.go:277-290` | for every positive request the result is the least power of two that is not below it if and only if the request is at most 2^62 and, minus one, has no 32 zero bits in a row; for any other request it is no positive power of two |
| `Sharding.BeyondThirtyTwoBits` | `internal/storage/engine.go:277-290` | the first request that is not rounded to a power of two, out of reach of any configuration |
| `Sharding.BeyondTwoToTheSixtyTwo` | `internal/storage/engine.go:277-290` | a request without gaps whose rounding overflows to -2^63 |
| `Sharding.ShardCountIs` | `internal/storage/engine.go:210-220` | a count that is not positive means 64 shards; up to 2^32 the number of shards is the rounded request, a power of two |
| `Sharding.MaskIsRemainder` | `internal/storage/engine.go:292-297` | masking the hash is taking its remainder by the shard count, for every power of two |
| `Sharding.MaskInRange` | `internal/storage/engine.go:292-297` | a masked hash is always the index of a shard |
| `EngineCore.Engine.constructor` | `internal/storage/engine.go:210-235` | whatever is configured, all shards share one counter, which is the sum of theirs; there are as many as the rounded request; the sample size and the half-life have their defaults and clamps |
| `EngineCore.Engine.WriteAt` | `internal/storage/shard.go:137-170` | a store in one shard keeps the engine's counter the sum of the shards' and the limit, and reports blocked or out of memory exactly |
| `EngineCore.Engine.EvictAt` | `internal/storage/shard.go:274-290` | an eviction in one shard keeps the sum, and gives back exactly what the entry was charged |
| `EngineCore.Engine.PickVictims` | `internal/eviction/eviction.go:192-230` | distinct live keys of the target shard, lowest by the policy among as many live entries as are sampled, or among all there are; the fewest that free enough, or all of the sample; none exactly when the policy evicts nothing or the shard has nothing live |
| `EngineCore.Engine.EvictSome` | `internal/storage/engine.go:400-409` | the victims leave one at a time, and an attempt counts whether or not its key was still there |
| `EngineCore.Engine.Admit` | `internal/storage/engine.go:353-411` | at most 64 attempts; success means the next store fits, even if the written key was a victim; alone, only live keys of the target shard go, one per attempt, none when the entry already fits, and never one more than was needed; refusal only for the documented reasons |
| `EngineCore.Engine.Attempt` | `internal/storage/engine.go:419-432` | one attempt is blocked or refused exactly by a live key or the limit, and otherwise stored; when refused, room is made and the next one fits, or the reason is one of the documented ones |
| `EngineCore.Engine.AdmitAndStore` | `internal/storage/engine.go:413-432` | at most 256 attempts whatever others do; alone at most 64, a blocked write evicts nothing, an entry that fits evicts nothing, no more goes than is needed, the victims and then the entry are all that changes, and a rejection is counted once |
| `EngineCore.Engine.Put` | `internal/storage/engine.go:434-471` | closed, value too large and negative time to live are refused in this order; alone, what is stored is exactly what was sent, stamped now and expiring after the time asked for, nothing else changes but live victims of its shard, and the scheduler hears of that expiry; what fits is never refused, evicts nothing, and a conditional write fails exactly for a live key; memory is refused only for the documented reasons, and counted; whoever interferes, the scheduler hears of the written key only, and only when something was stored |
| `EngineCore.Engine.SetTtl` | `internal/storage/engine.go:510-529` | applied exactly to a live entry, of which only the expiry changes, counted from now; what the scheduler hears is what the entry says when it is told; alone, one step of the cache and no other entry changes |
| `EngineCore.Engine.Get` | `internal/storage/engine.go:315-330` | exactly a live entry's value, and the time left to its deadline; whatever others do between its two looks, a read takes at most its own key, expired at both looks; alone it takes an expired entry at once, unless lazy expiration is off, and changes no other entry |
| `EngineCore.PutThenGet` | `internal/storage/engine.go:434-450` | what was written is read back with what is left of the time asked for, up to the deadline, and not a moment longer |
| `EngineCore.Engine.Delete` | `internal/storage/engine.go:473-483` | a delete removes exactly its key, and changes no other entry |
| `EngineCore.Engine.ExpiryOf` | `internal/storage/engine.go:724-740` | what the manager asks: presence and expiry, expired entries included, foreign indexes refused |
| `EngineCore.Engine.Expire` | `internal/storage/engine.go:742-756` | what the manager does: exactly the keyspace step of its own model |
| `EngineCore.Engine.Close` | `internal/storage/engine.go:764-778` | every shard returns its own bytes and none are left |
| `EngineCore.EngineNeverLeaks` | `internal/storage/engine.go:266-275` | an engine operation and the scheduling it causes are together one step of the cache, so coverage of every expiry is kept |
| `WholeCache.Start` | `internal/storage/engine.go:248-256` | an engine and a manager newly wired together satisfy the invariant of the whole cache |
| `WholeCache.Operate` | `internal/storage/engine.go:434-529` | an operation and the notice it gives the scheduler keep that invariant: nothing stranded, nothing removed early, the limit kept; and the operation does to the resident keys what it says, a write where memory does not stand in its way |
| `WholeCache.Pass` | `internal/ttl/manager.go:217-304` | a pass of the manager over the real engine keeps that invariant; uninterrupted it catches up, and otherwise it has at least moved on |
| `WholeCache.Drive` | `internal/storage/engine.go:248-275` | any run of writes, reads, deletes, evictions and manager passes on one engine wired to one manager: no entry with an expiry is stranded, none is removed early by the manager, the memory limit holds, and with no batch limit, once the clock has caught up nothing is left that expired a tick ago |
| `Handover.NextInv` | `internal/ttl/manager.go:256-304` | with every critical section of writers, readers and the tick loop a step of its own, each step keeps this: an entry that expires has an early enough hint on its wheel, or the tick loop has it in hand, or an operation under way has still to tell the scheduler |
| `Handover.StrikeCovers` | `internal/storage/shard.go:247-272` | an entry that is still as it was when it was condemned does not survive the second look; one that has changed is seen to by whoever changed it, although its hint is dropped |
| `Handover.TellCovers` | `internal/ttl/manager.go:108-123` | handing over an expiry that was read before another operation changed it again does no harm |
| `Handover.NeverStranded` | `internal/storage/engine.go:266-275` | in every interleaving from an empty cache, whenever the tick loop rests and no operation on a key is under way, an entry under it that expires has a hint on its wheel, no later than its own tick or the next |
| `Handover.ExpiredGoes` | `internal/ttl/manager.go:256-304` | with no batch limit, and whatever else goes on during the tick: an entry past its expiry whose tick has come is gone when the tick is over, unless an operation gave its key a new entry or expiry meanwhile |
| `Handover.KeysAfter` | `internal/storage/engine.go:434-529` | what each step does to the resident keys: operations what they say, the tick loop at its second look only, and only to an entry that has expired by then, and no other step anything |
| `Handover.HintsAfter` | `internal/ttl/manager.go:108-123` | what each step does to the hints on the wheels, one by one |
| `Handover.TickEnds` | `internal/ttl/manager.go:256-304` | the tick loop never gets stuck: a tick that nobody disturbs comes to its end |
| `Handover.OperationsGoOn` | `internal/storage/engine.go:434-529` | an operation can always begin, and go on until the scheduler has been told |
| `MemoryProtocol.Accounted` | `internal/storage/memory.go:42-91` | in every interleaving of reservations, commits and removals the use is the shards' counters plus what is in flight, the credits and removals are covered by the use that was read, so the clamps never engage, and at rest it is the size of what is resident |
| `MemoryProtocol.OnlyThese` | `internal/storage/memory.go:22-91` | from within the limit, a step exceeds it if and only if it sets the limit below the use, or lets a reservation through on a limit it loaded earlier and not on the present one |
| `MemoryProtocol.WithinThroughout` | `internal/storage/memory.go:22-91` | a run stays within its limits throughout if and only if none of its steps sets the limit below the use or lets a reservation through on a limit it loaded earlier and not on the present one |
| `MemoryProtocol.SafeLimit` | `internal/storage/memory.go:22-74` | no continuation exceeds a new limit, until the next change, if and only if the use fits under it and no reservation under way threatens it, in terms of what each has loaded and what its shard holds |
| `MemoryProtocol.RaisingIsSafe` | `internal/storage/memory.go:22-25` | raising a safe limit, however far, or removing it, is safe if and only if no reservation is held within it by lack of room alone |
| `MemoryProtocol.RaisedTooFar` | `internal/storage/memory.go:22-25` | a state in which a limit is safe and a higher one is not |
| `MemoryProtocol.ThreatCarriedOut` | `internal/storage/memory.go:53-74` | a reservation that threatens the limit can be let through: the others are emptied, what is left is filled up, and the reservation exceeds it |
| `MemoryProtocol.Fill` | `internal/storage/entry.go:107-119` | entries of sizes the program charges can make up any amount from the least size on |
| `MemoryProtocol.Chargeables` | `internal/storage/entry.go:107-119` | the sizes a write may have are exactly those an entry under its key can be charged |
| `MemoryProtocol.OthersGap` | `internal/storage/entry.go:103-119` | the other shards, with all that is in flight there, account for nothing or for at least one entry |
| `MemoryProtocol.NeverExceeded` | `internal/storage/memory.go:42-74` | in every interleaving whose changes of limit are safe when they are made, the limit is never exceeded |
| `MemoryProtocol.StaleLimit` | `internal/storage/memory.go:53-74` | a run in which a limit never lowered below the use is exceeded |
| `ScanRuns.ExactlyOnce` | `internal/storage/scan.go:24-48` | however the keyspace changes under a scan, no key is returned twice, and a finished scan has returned every key that was live and passed the filter whenever it looked |
| `ScanRuns.OnlyLive` | `internal/storage/shard.go:385-417` | a returned key was live, and passed the filter, at the very look that returned it |
| `ScanState.DropBooked` | `internal/storage/scan.go:485-499` | dropping a cursor keeps the byte total and every owner's count exact |
| `ScanState.DropListed` | `internal/storage/scan.go:485-499` | dropping a cursor keeps the list a bijection with the cursors, in order of last use |
| `ScanState.OpenOk` | `internal/storage/scan.go:351-378` | opening a cursor keeps books and order |
| `ScanState.TouchOk` | `internal/storage/scan.go:478-483` | using a cursor moves it to the front and keeps books and order |
| `ScanState.SweepExact` | `internal/storage/scan.go:462-476` | sweeping from the back until the first cursor in time drops exactly the idle cursors |
| `ScanState.EvictLeastRecent` | `internal/storage/scan.go:437-460` | evicting the last cursor that is not kept respects the order of last use |
| `ScanCursors.SnapshotSize` | `internal/storage/scan.go:427-435` | a snapshot is charged a header and the bytes of every key |
| `ScanCursors.Shards.Keys` | `internal/storage/shard.go:371-383` | a shard's live keys, each once |
| `ScanCursors.Shards.LiveKeys` | `internal/storage/shard.go:385-417` | keeps exactly the candidates that are live and pass the filter, in order |
| `ScanCursors.Registry.DropCursor` | `internal/storage/scan.go:485-499` | forgets the cursor and gives back everything it was accounted at |
| `ScanCursors.Registry.Sweep` | `internal/storage/scan.go:462-476` | drops exactly the cursors idle past the timeout |
| `ScanCursors.Registry.Oldest` | `internal/storage/scan.go:451-460` | the least recently used cursor other than the kept one |
| `ScanCursors.Registry.MakeRoom` | `internal/storage/scan.go:437-449` | succeeds exactly when the bytes then fit, fails only with every other cursor gone, evicts in order of last use and not one more than needed |
| `ScanCursors.Registry.FreshId` | `internal/storage/scan.go:380-392` | the first unused id among the first four generated; it fails exactly when none of those is unused |
| `ScanCursors.Registry.OpenCursor` | `internal/storage/scan.go:351-378` | opens a cursor with an empty history; refused exactly by the cap per connection, checked first, or when the first four identifiers generated are taken, or when not even an empty cursor fits the memory |
| `ScanCursors.Registry.Resolve` | `internal/storage/scan.go:334-349` | another connection's cursor is answered exactly as an unknown one; a new scan is refused for the reasons a cursor is |
| `ScanCursors.Registry.Admit` | `internal/storage/scan.go:404-424` | the old list is released before the new one is charged; refused, and the cursor dropped, exactly when the new list does not fit on its own |
| `ScanCursors.Registry.Advance` | `internal/storage/scan.go:394-425` | the next shard's keys as they are now, or the end of the scan exactly after the last shard |
| `ScanCursors.Registry.Take` | `internal/storage/scan.go:318-328` | judges the next keys of the list against one view of the shard and moves past them |
| `ScanCursors.Registry.Look` | `internal/storage/scan.go:302-329` | one turn of a page gets further in the scan, or ends it; it runs out of memory only over the key list of a shard that is too large by itself |
| `ScanCursors.Registry.Fill` | `internal/storage/scan.go:302-331` | at most `count` keys examined; what is returned continues what was returned before, and a finished scan is forgotten |
| `ScanCursors.Registry.NextPage` | `internal/storage/scan.go:283-332` | a page continues its scan, keeps every invariant and every other scan; unknown exactly for a cursor that is not live, not the caller's, or idle; refused otherwise only at the cap, without a free identifier, or for a key list that is too large by itself; the looks it took are states the keyspace has been in |
| `ScanCursors.Registry.Release` | `internal/storage/scan.go:501-514` | drops exactly that connection's cursors and leaves its count at zero |
| `ScanCursors.Registry.CloseAll` | `internal/storage/scan.go:516-524` | leaves no cursor, no count and no byte on the books |
| `ScanCursors.FollowScan` | `internal/storage/scan.go:24-48` | page after page, with other connections scanning and the keyspace changing at will: an unrefused scan ends, repeats nothing, returns every key that was live all along and matches the pattern, and nothing that never was live or does not match; without a pattern, all keys; memory is refused only over a key list, or a cursor, that is too large by itself |
| `Glob.StarMonotone` | `internal/storage/glob.go:107-139` | what a star pattern matches from a later start it matches from an earlier one |
| `Glob.NoLaterStart` | `internal/storage/glob.go:50-57` | why the cut-off is sound: a star that fails after a fixed prefix rules out every later start |
| `Glob.MatchClass` | `internal/storage/glob.go:141-195` | a bracket expression read in place has its declared members, negated or not, closed or not, inverted ranges included |
| `Glob.MatchOne` | `internal/storage/glob.go:58-105` | one token against one byte |
| `Glob.GlobMatch` | `internal/storage/glob.go:50-105` | decides the meaning; a flag raised by a failure means that no later start can match |
| `Glob.MatchStar` | `internal/storage/glob.go:107-139` | decides the meaning, raises the flag exactly on failure, and tries at most one suffix per byte, nested stars included |
| `Glob.MatchGlob` | `internal/storage/glob.go:27-42` | decides the meaning, except that only the empty pattern matches the empty key; at most one suffix trial per byte of the key in all |
| `GlobPatterns.WrittenAsMeant` | `internal/storage/glob.go:11-42` | a pattern written as text, single and any bytes, and bracketed members, ranges and their negations matches exactly the strings that fall apart into those pieces |
| `GlobPatterns.PatternRead` | `internal/storage/glob.go:58-195` | every such pattern is read back piece by piece, escapes included |
| `GlobPatterns.Ranges` | `internal/storage/glob.go:141-195` | a bracketed range stands for exactly one byte between its ends, in either order, and with a caret for one that is not |
| `RespText.ParseDecimal` | `pkg/client/resp.go:327-333` | printing a number and parsing it gives it back exactly if it fits in 64 bits, and is refused otherwise |
| `RespText.ParsePadded` | `pkg/client/resp.go:327-333` | a plus sign and leading zeros change no number |
| `RespText.ParseOnly` | `pkg/client/resp.go:327-333` | a number is digits, at least one, behind at most a sign |
| `Framing.ScanLine` | `internal/server/framing.go:133-149` | finds the first complete line, with or without a carriage return |
| `Framing.CertainlyCommand` | `internal/server/framing.go:151-176` | the line holds a plain ASCII byte that is not white space |
| `Framing.ReadInt` | `internal/server/framing.go:178-210` | a plain decimal of at most 18 digits, with an optional minus sign |
| `Framing.MeasureElements` | `internal/server/framing.go:102-131` | where the elements end, or 0 when they are not all there |
| `Framing.ScanRequest` | `internal/server/framing.go:52-100` | where the first request ends, or 0 |
| `RequestDecoder.DecodeExtends` | `internal/protocol/resp.go:153-188` | a decision taken on part of the input is the decision on all of it |
| `RequestDecoder.LeftOver` | `internal/protocol/resp.go:307-326` | a line left over at the end of the stream is refused exactly when it is over the limit |
| `RequestDecoder.DecodeAtEnd` | `internal/protocol/resp.go:294-326` | the end of the stream brings no command, and changes no decision |
| `FramingSound.AmbiguousText` | `internal/server/framing.go:178-210` | the lengths read differently by scanner and decoder are those with a plus sign or more than 18 digits |
| `FramingSound.SameNumber` | `internal/server/framing.go:178-210` | where the scanner reads a number, the decoder reads the same one |
| `FramingSound.ElementsSound` | `internal/server/framing.go:102-131` | on measured elements the decoder needs more exactly for an ambiguous length, and otherwise stays within the measure |
| `FramingSound.ScannerSound` | `internal/server/framing.go:52-100` | on a request reported complete the decoder blocks if and only if the input diverges; otherwise it takes exactly those bytes, or refuses within them, whatever follows |
| `RequestReader.ReadALine` | `internal/protocol/resp.go:294-351` | reading chunk by chunk, with the limit checked before each is kept, is the line of the specification, also for what is left at the end of the stream |
| `RequestReader.DecodeBulk` | `internal/protocol/resp.go:241-271` | the consuming reader follows the specification of one bulk string |
| `RequestReader.DecodeBulks` | `internal/protocol/resp.go:209-239` | and of all elements of a request |
| `RequestReader.DecodeNext` | `internal/protocol/resp.go:153-188` | and of a request, skipping empty ones; at the end of the stream only an over-long line turns waiting into a refusal |
| `RequestCodec.AppendCommand` | `pkg/client/resp.go:60-80` | appends the command as an array of bulk strings |
| `RequestCodec.RoundTrip` | `internal/protocol/resp.go:153-287` | any encoded command within the limits is decoded, wherever it stands, taking exactly its bytes: the arguments byte for byte, and the name with every lower-case letter 32 lower and every other byte as sent |
| `RequestCodec.PipelineRoundTrip` | `internal/protocol/resp.go:153-287` | any pipeline of commands is decoded to those commands in order, names and arguments as for one, taking exactly the bytes sent |
| `RequestCodec.NameAsSent` | `internal/protocol/resp.go:287-292` | a name without lower-case letters comes back byte for byte |
| `RequestCodec.CaseIsNothing` | `internal/protocol/resp.go:287-292` | two requests that differ only in the case of the name are the same command |
| `RequestCodec.RefusedBeyond` | `internal/protocol/resp.go:209-271` | the limits are exact: a named command that is over any of them is refused |
| `RequestDecoder.NamesAreUpper` | `internal/protocol/resp.go:153-188` | no decoded name, inline or not, is empty or has a lower-case letter in it |
| `InlineRequests.InlineRead` | `internal/protocol/resp.go:273-292` | however words are laid out on an inline line, with any white space before, between and after them, they are read in order and byte for byte, the first as the name |
| `InlineRequests.BlankLineSkipped` | `internal/protocol/resp.go:159-188` | a line of white space is skipped |
| `RequestCodec.ScanExact` | `internal/server/framing.go:52-131` | the scanner measures an encoded command exactly |
| `RequestCodec.SendableNeverDiverges` | `internal/server/framing.go:52-131` | no encoded command with a name makes the scanner's promise fail |
| `RequestCodec.NamelessStalls` | `internal/protocol/resp.go:180-187` | a request with an empty first element is reported complete and then skipped by a decoder that waits |
| `RequestCodec.AmbiguousStalls` | `internal/server/framing.go:178-210` | so is a count with a plus sign or too many digits |
| `RequestCodec.AmbiguousExamples` | `internal/server/framing.go:178-210` | both families have members |
| `ReplyRoundTrip.RoundTrip` | `internal/protocol/encode_resp2.go:15-159` | for every reply the server can encode, in any stream: the client decodes its RESP2 normal form and is left at the first byte after it if and only if the reply is within the client's bounds, and otherwise reports a broken stream |
| `ReplyRoundTrip.StatusReceived` | `internal/protocol/encode_resp2.go:154-159` | a status is received with every byte as sent, a line break as a space, exactly up to 16382 bytes and 32 levels |
| `ReplyRoundTrip.StatusUnchanged` | `internal/protocol/encode_resp2.go:154-159` | a status without line breaks is received unchanged |
| `ReplyRoundTrip.ErrorReceived` | `pkg/client/resp.go:298-310` | an error is received as its kind and message on one line, and its kind is what comes before the first space |
| `ReplyRoundTrip.ErrorUnchanged` | `pkg/client/resp.go:298-310` | a plain kind and a message without line breaks are received unchanged |
| `ReplyRoundTrip.BulkRead` | `pkg/client/resp.go:175-207` | a bulk string of any bytes comes back intact up to the client's limit |
| `ReplyRoundTrip.ErrorRead` | `pkg/client/resp.go:298-310` | an error line comes back with its text folded and its kind split off |
| `ReplyRoundTrip.ArrayRead` | `pkg/client/resp.go:209-228` | an array comes back element by element, within depth and length bounds |
| `ReplyRoundTrip.MapRead` | `internal/protocol/encode_resp2.go:120-134` | a map comes back as an array of keys and values in turn |
| `ReplyFrames.FrameRead` | `pkg/client/resp.go:82-273` | every reply of version 3 of the protocol within the client's bounds, of every type and nested at will, is read as what it is, and the client is left at the first byte after it |
| `ReplyFrames.Broken` | `pkg/client/resp.go:125-173` | an unknown type, a null with data, a truth value other than t and f, and a number that is none break the stream |
| `ReplyStreams.AppendReply` | `internal/protocol/encode_resp2.go:15-48` | appending a reply appends its encoding, or reports that it has none |
| `ReplyStreams.AppendScalar` | `internal/protocol/encode_resp2.go:50-106` | the same for the replies without parts |
| `ReplyStreams.AppendItems` | `internal/protocol/encode_resp2.go:108-118` | the loop over items appends the header and the encodings in order |
| `ReplyStreams.AppendPairs` | `internal/protocol/encode_resp2.go:120-134` | the loop over pairs appends the header and the encodings in order |
| `ReplyStreams.ReadReply` | `pkg/client/resp.go:82-123` | the consuming decoder follows the specification and stops where it says |
| `ReplyStreams.ReadBulk` | `pkg/client/resp.go:175-207` | the same for length-prefixed strings |
| `ReplyStreams.ReadAggregate` | `pkg/client/resp.go:209-250` | the same for arrays, sets, pushes and maps |
| `ReplyStreams.ReadItems` | `pkg/client/resp.go:252-273` | the same for a run of replies |
| `ReplyStreams.ReadALine` | `pkg/client/resp.go:275-296` | a line that ends in CRLF and fits the buffer |
| `Pipeline.OutputBuffer.Flush` | `internal/server/server.go:399-412` | hands the batch over and empties it |
| `Pipeline.RequestBuffered` | `internal/server/framing.go:28-50` | yes exactly when the scanner finds a complete request in what the read buffer holds; then, on steady input, it can be decided from what has arrived |
| `Pipeline.OwedForRequests` | `internal/server/server.go:202-264` | a client that sends requests within the limits is owed exactly the answers to them, in order |
| `Pipeline.EndToEnd` | `pkg/client/resp.go:82-123` | what is owed for a pipeline of requests is read back by the client, reply by reply, as the normal forms of the answers to exactly those commands, with nothing left over |
| `FramingSound.DivergesExtends` | `internal/server/framing.go:52-100` | input that diverges still does when more of it has arrived |
| `Pipeline.RequestsAreSteady` | `internal/server/framing.go:52-100` | nothing of what clients send diverges, at any request and however little of it has arrived |
| `Pipeline.Answer` | `internal/server/server.go:236-252` | one command takes exactly its bytes off the input and puts exactly its encoded answer behind the replies in hand |
| `Pipeline.EndBatch` | `internal/server/server.go:250-283` | a batch goes on exactly if it is under both caps, nothing ends it and the next request is complete in the read buffer, which on steady input means it can be decided; otherwise everything in hand goes out, or the connection is cut off; a command that closes the connection gets every reply out first |
| `Pipeline.Finish` | `internal/server/server.go:300-352` | at the end of the input the replies in hand go out, with a protocol error behind them where there is one, an over-long line cut off by the end included |
| `Pipeline.Handle` | `internal/server/server.go:202-283` | however the input is cut into pieces, what is written is a prefix of what the client is owed, and all of it unless the connection is cut off; a command that closes it is answered last; no decode finds the batch at a cap, and on steady input, which is what clients send, nothing is held back while waiting |
| `Pool.Ceiling` | `pkg/client/pool.go:48-222` | in every interleaving: open connections never exceed the pool size, slots held and free add up so that giving one back never finds the channel full, no connection has two owners, no broken one is idle, and a closed pool keeps none |
| `Pool.NoneLost` | `pkg/client/pool.go:78-241` | in every interleaving each connection ever opened has either been closed, once, or is in exactly one place: nothing leaks, also when the pool is closed |
| `Pool.NextPlaces` | `pkg/client/pool.go:78-241` | connections are conserved step by step |
| `Pool.GetsItsOwn` | `pkg/client/pool.go:80-151` | in every interleaving a caller that sees no idle connection goes back without one if and only if it finds the pool closed or its dial fails; otherwise it owns a connection that nobody has had before |
| `Pool.CanDial` | `pkg/client/pool.go:80-151` | with a slot, in an open pool without idle connections, a caller can always get one of its own, counted as live |
| `Pool.PutBack` | `pkg/client/pool.go:153-206` | a connection is kept exactly when the pool is open and it is healthy, and is then the next one handed out; otherwise it is no longer counted and on its way to be closed |
| `Pool.FailedIsNotKept` | `pkg/client/pool.go:153-171` | a connection that fails in its owner's hands is not kept, and no other is taken for it |
| `Pool.DeadIsForgotten` | `pkg/client/pool.go:80-115` | an idle connection found dead is closed, no longer counted, and its finder looks again |
| `Pool.SlotComesBack` | `pkg/client/pool.go:214-222` | a slot given back is free again |
| `Pool.NextFor` | `pkg/client/pool.go:48-222` | which steps a caller can take, and exactly when: a dial may succeed or fail, and is only made after the pool was seen open |
| `Pool.NextBounded` | `pkg/client/pool.go:78-146` | the inductive strengthening: only a caller that saw no idle connection may dial |
| `Pool.NextInv` | `pkg/client/pool.go:48-222` | every step keeps the invariant |
| `Pool.Quiescent` | `pkg/client/pool.go:206-241` | when nobody uses the pool every slot is back and exactly the idle connections count as live |
| `Pool.BackoffDelay` | `pkg/client/pool.go:243-275` | the delay is below the base doubled once per attempt and capped, also when doubling overflows 64 bits |

## Left out

- Glob.MatchGlob: the bound on suffix trials is on a ghost counter that every star's loop carries along; running time is not modelled otherwise.
- Victims.SelectVictims: the library sort is modelled by one insertion sort, so ties keep the order of the sample; the sample itself comes in any order.
- EngineCore.Engine.Admit: one operation reads the clock once, where the program reads it at every sample; the policy and the memory limit do not change while an operation runs.
- EngineCore.Engine.Put: what is stated of the stored entry, the victims and the expiry handed over holds when no other connection acts in between; when others do, the invariants, the limit, the attempt bounds, the refusals and the key the scheduler hears of are stated, and `Handover` says why that is enough.
- WholeCache.Drive: operations and passes follow one another here; `Handover` has their steps interleave, on hints as a multiset per wheel, without the eviction loop or the counters.
- Handover.NeverStranded: stopping the manager and closing the engine are not among the steps; nothing is resident after a close.
- MemoryProtocol.ThreatCarriedOut: a writer may use any key on any shard, and the configured cap on a value's length is not part of it.
- TtlManager.Manager.Validate: the effect on all keys is stated for a keyspace nothing else is changing; otherwise the settlement, the counters and the removals are.
- Expiry.NeverEarly: ticks and nanoseconds are unbounded, so the wrap-around of 64-bit time is not modelled; nor are the manager's largest lag, its goroutine and its ticker.
- ShardStore.Shard.Look: entries are values, so a reader that goes on using an entry another connection has just replaced is not modelled.
- ScanCursors.Registry.NextPage: the count is whatever the caller asks for; its default and its cap are one-line clamps. A failing random generator is a list of ids that runs out.
- ReplyRoundTrip.RoundTrip: a double travels as text and is compared as text; formatting and parsing of floating point, and the client's typed big-number and verbatim checks beyond their framing, are not part of this model.
- RequestCodec.RoundTrip: upper-casing and white space are those of ASCII.
- Pipeline.Handle: sessions and commands are an arbitrary answer per command; deadlines, connection caps, request byte budgets and authentication are not part of this model.
- RequestReader.DecodeNext: apart from a line over the limit, the end of the stream closes the connection without an answer; which of the errors the program logs is not modelled.
- EngineCore.Engine.Close: closing the scan registry is a call of its own, ScanCursors.Registry.CloseAll, which the engine here does not make.
- Fairness of hints deferred by the batch limit: stripes are drained in a fixed order and the program promises no delay bound per hint.
- Sockets, TLS, the accept loop, the admin interface, configuration and its reload, logging, statistics rendering, the memory sampler, and the command-line tools: input and output, or single-branch facts.
- The contents of stored values beyond their length, and their sharing between reader and engine: values are immutable sequences.
