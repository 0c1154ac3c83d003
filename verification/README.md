# HeapSentinel: a verified model of the portable core

HeapSentinel watches a game's heap from inside the process. Windows delivers the events; what
the plugin does with them is a set of bounded, mostly lock-free data structures and one protocol
that arms hardware watchpoints on every thread. This project models that core and proves what
its users rely on.

| part | modules |
|---|---|
| shared-memory trace ring | `ShmLayout`, `RingProtocol`, `RingDrain`, `RingDeferral`, `RingSession`, `RingPass`, `TraceRing`, `RingRegistry`, `RegistryRuns`, `RegistryTakeover` |
| hardware watchpoints | `WatchEncoding`, `WatchSlots`, `WatchProtocol`, `WatchRuns`, `WatchReuse` |
| shadow ledger | `Hashing`, `LedgerShard`, `LedgerEviction`, `LedgerFilling`, `ShadowLedger`, `LedgerSeqlock` |
| bloom filter and evict-oldest rings | `BloomFilter`, `EvictingRing` |
| poison quarantine and its admission loop | `PoisonQuarantine`, `Admission`, `AdmissionRuns` |
| hook tables | `JsonSyntax`, `JsonStrings`, `JsonRoundTrip`, `JsonPrinter`, `JsonReader`, `HookTable`, `HookTableFile`, `HookTableForms`, `HookVerifier` |
| shared types and arithmetic | `Wrappers`, `Arithmetic` |

Two kinds of model are used side by side. Objects whose methods change their fields are classes,
and each method is proved against a function of the old state or against the property itself.
Where threads interleave, the same algorithm is also a step system: one step per load or store
of shared memory, with invariants proved over every run.

## Main results

**Trace ring.** Under every interleaving of a producer's stores (invalidate, each payload word,
version, write cursor) with a consumer's loads, with the producer allowed to stop for good at any
point and with any number of changes of ownership, an event the sink receives is one whole
record that its producer published to the end, and ids strictly increase within an ownership. The
read cursor never passes the write cursor and between drains it equals delivered plus lost. A drain
that is not cut short passes everything that was published when it began, and beside an idle
producer it is the sequential drain: all but the whole laps between the cursors, in order. The same
holds for a pass over all 64 rings, after which one counter of the session is the number of records
the sink has got and the other the number it has not. A consumer that finds a later record in a slot
gives up a whole number of laps; the first of those records is gone, and all of them are exactly
when the producer is one record short of overwriting the one found. A drain is cut short exactly
by a store into the slot it looks at, and the record it defers is lost. On a quiescent ring the
loss is exactly the whole laps between the cursors. In the registry, over every run of claims,
releases, publishes and drains, a thread owns at most one ring, nobody writes into a ring of
another thread, a ring is taken away only when all 64 are busy and only if its owner's last touch,
made at the claim and at every 4096th record, is older than the taker's staleness window, and a
drain delivers a suffix of what the current owner has published since it claimed the ring,
whatever the slots held before.

**Watchpoints.** Over every run of table changes, sweeps, failed arms, traps and threads that
come and go: when no table change is in progress or waiting for its generation bump, a thread
stamped with the current generation watches nothing but the current table; and at any time an
enabled debug register of any thread was recorded before it was written, so its trap is consumed
and attributed to this process even after the table slot has moved on. A trap stops exactly the
triggered watches that are recorded or that the table no longer holds, and a forced sweep it asks
for is never lost. Slot by slot, and whatever
other slots, generation bumps and traps do meanwhile: a slot that is released or tripped from the
start of a sweep on is off on every thread that sweep arms, and a slot retired before the
generation a forced sweep reads is off on every thread the sweep passes over.

**Shadow ledger.** Probing, tombstones, eviction and the pre-filter together are a partial map: a
lookup is the map's lookup, an insert adds its record and makes room by removing at most one
other record, the first freed one of a full window, or fails without a trace exactly when the
window is full of other records that are not freed. A lookup that overlaps a writer returns the
record its entry holds at the second version check, never a mixture of two, and it finds every
pointer that stays in its entry meanwhile.

**Fast forms.** The aging bloom filter never denies one of the most recent `ageAt` keys, and reports
another key only if each of its bits is also a bit of a key retained in one half; the free
ring's lookup is "newest match among the last `capacity` records"; the weak-library ring writes
exactly the last matches in chronological order although it finds them backwards.

**Quarantine.** Blocks leave once, first in first out, within both budgets; the admission loop
drains the fewest blocks that make room; over any sequence of frees each block that leaves is freed
with the heap and the address of its own free; a fault anywhere inside a held block's poison leads back
to that block's record.

**Hook tables.** The reader accepts exactly the written forms of a small grammar and reads each
back as itself, so parsing inverts printing for every spelling of every value. A table file the
generator writes loads as that very table exactly when it is one the plugin may accept, and any
other text loads as a table exactly when it means that table, field by field. FNV-1a
detects every change of a single byte, at any position and length, so a changed prologue is
never verified.

## Where the code and its own words differ

- `tests/test_ring.cpp:145-148` says a lapped consumer jumps to the oldest record still in the
  ring. The code jumps to whatever record holds the slot it looks at, which skips whole laps:
  with 64 slots and 100 undrained records it gives up 64 although only 36 are gone.
  `TraceRing.SkipsOnlyTheGoneIffWholeLaps` says exactly when only records that are gone are given
  up, and `TraceRing.SkipsResidentRecords` exhibits a ring where others are.
- `src/Ipc/ShmRing.h:27-29` and `tests/test_ring.cpp:162-165` say that a deferred record is not
  dropped and a slow producer costs nothing. A producer only ever stores into a slot whose previous
  record is a lap old, so whenever a drain defers, the record it defers is gone already, and a
  later drain counts it lost: `RingDeferral.DeferredRecordIsNeverDelivered`, for every deferral of
  every run, and the run of `RingDeferral.DrainDefersAPublishedRecord`. The state the test
  prepares, a slot marked as being written again under its own record's number, is not one that a
  producer leaves behind.
- `src/Ipc/ShmRing.cpp:133-135` and `src/Ipc/ShmRing.h:91-93` say that only the ring of an owner
  that has been silent for the whole window is taken over. The code looks at `lastActiveTick`,
  which is written at the claim and then with every 4096th record only (`src/Ipc/ShmRing.cpp:19`,
  `src/Ipc/ShmRing.cpp:240-245`). `RegistryTakeover.StaleMeansSilentIff` says exactly when a stale
  ring's owner has been silent: its last record was such a touch, or is too old itself. In the run
  of `RegistryTakeover.ActiveOwnerLosesItsRing` the owner published one tick before it lost its ring.
- `src/Core/ShadowLedger.cpp:244`, `src/Core/ShadowLedger.cpp:253` and `DESIGN.md:344` speak of
  evicting the oldest freed entry. The code evicts the first freed entry on the probe path,
  whatever its age, and that is what `ShadowLedger.ShadowLedger.Insert` promises.
  `LedgerEviction.EvictsTheOldestIffNothingOlderBehind` says exactly when that is the oldest;
  `LedgerEviction.EvictsTheHomeRecord` gives a table where it is not, for every hash function and
  all but one home slot, and `LedgerEviction.EvictsANewerRecord` a pointer for the program's own;
  the run of `LedgerFilling.FullWindowIsReached` leads to that table from an empty one.
- Number literals that overflow 64 bits are refused, but the same digits given as a JSON string
  are taken modulo 2^64 (`src/Hooks/HookTable.cpp:364-401`).
  `HookTableFile.TextNumbersAreRightIffTheyFit` and `HookTableFile.HexNumbersAreRightIffTheyFit`
  state exactly when such a number is right, and `HookTableFile.FirstNumberThatWraps` gives the
  first that is not.
- `src/Core/Watchpoints.cpp:386-388` takes a thread stamped with the current generation as armed
  with the current set and skips it. It is, unless its id was handed out again since it was last
  armed and there is something to arm: `WatchRuns.StampIsExactIffArmedSinceSpawn`. Such a state
  is reached by the run of `WatchReuse.ReusedIdKeepsItsStamp`.

## Modelling choices

Cursors, generations, ticks and slot versions are natural numbers; they never wrap. Layout
arithmetic and FNV-1a are modulo 2^64, DR7 and the mixing functions are 64-bit vectors, DR7's
bits and the mixing constants are those of the program. Memory is sequentially consistent, as the
code's reliance on x86-64 store order amounts to (`src/Ipc/ShmRing.h:32-36`). Clocks, thread
enumeration, thread ids, hash functions of the ledger, heap liveness, readability of memory and
the process behind the hook verifier are parameters.

## Model

| member | source | states |
|---|---|---|
| `ShmLayout.OffsetsDoNotWrap` | src/Ipc/ShmLayout.h:226-241 | for every slot count and memcache size an attach accepts, the 64-bit offset arithmetic is the exact one |
| `ShmLayout.RegionsAreDisjoint` | src/Ipc/ShmLayout.h:226-241 | header, 64 ring headers, 64 slot areas and memcache are pairwise disjoint, 8-byte aligned and inside totalBytes < 2^64 |
| `ShmLayout.SameSlotIffCongruent` | src/Ipc/ShmRing.h:68-72 | two record ids share a slot iff they are congruent modulo the slot count |
| `ShmLayout.NearbyRecordsUseDistinctSlots` | src/Ipc/ShmRing.h:68-72 | two ids less than a lap apart never share a slot |
| `ShmLayout.SlotsStayInTheirRing` | src/Ipc/ShmRing.h:57-72 | the slot of any record id of any ring lies inside that ring's own area |
| `RingProtocol.RunKeepsInv` | src/Ipc/ShmRing.cpp:197-328 | the ring invariant holds after any interleaving of producer steps, drain steps and changes of ownership |
| `RingProtocol.StepKeepsInv` | src/Ipc/ShmRing.cpp:197-328 | each single step keeps the ring invariant |
| `RingProtocol.SinkSeesWholeRecordsInOrder` | src/Ipc/ShmRing.cpp:217-325 | every event given to the sink is one whole record that the owner of that time published to the end, with strictly increasing ids, even if a producer stops for good mid-record |
| `RingProtocol.HistoryIsWhatWasGiven` | src/Ipc/ShmRing.cpp:217-236 | the records of an ownership are, word for word and in order, the events its owner was asked to publish, each under its own number |
| `RingProtocol.SinkSeesWhatWasGiven` | src/Ipc/ShmRing.cpp:217-325 | the event the sink gets under number id is the id-th event given to the owner |
| `RingProtocol.CursorCountsDeliveredAndLost` | src/Ipc/ShmRing.cpp:265-328 | readSeq equals delivered plus lost between drains, never passes writeSeq, and a write-back moves it by consumed plus dropped |
| `RingDrain.LeavesIffAllIsBehind` | src/Ipc/ShmRing.cpp:268-272 | a drain leaves its loop at a load of the write cursor iff every record up to that cursor is behind it |
| `RingDrain.DrainPassesWhatWasPublished` | src/Ipc/ShmRing.cpp:253-328 | under any interleaving a drain passes every record published when it began, or has counted one deferral and stands at a record that is gone |
| `RingDrain.IdleDrainReadsToTheEnd` | src/Ipc/ShmRing.cpp:253-328 | beside an idle producer a drain ends with readSeq equal to writeSeq, drops exactly the whole laps between the cursors and delivers every record after them in order: it is the sequential drain |
| `RingProtocol.ResidentIffInWindow` | src/Ipc/ShmRing.cpp:217-238 | a published record can be read from its slot iff no record a whole lap later has begun to be stored |
| `RingProtocol.LossesAreWholeLaps` | src/Ipc/ShmRing.cpp:284-311 | exactly what is given up: a whole number of laps up to the record found, the first of them gone, all of them gone iff the producer is one record short of overwriting the one found; or the one record whose copy was torn, which is gone |
| `RingProtocol.DeferralMeansInFlight` | src/Ipc/ShmRing.cpp:276-282 | a drain defers exactly when the slot it looks at is the one the producer is storing into, and then at a published record at least a lap older, which is gone |
| `RingDeferral.DeferredRecordIsNeverDelivered` | src/Ipc/ShmRing.cpp:276-325 | the record a drain defers is never delivered in that ownership of the ring |
| `RingDeferral.GoneForGood` | src/Ipc/ShmRing.cpp:265-325 | an undelivered record whose slot has been taken stays undelivered as long as the ownership lasts |
| `RingDeferral.DrainDefersAPublishedRecord` | tests/test_ring.cpp:162-200 | a run on 64 slots in which a drain defers record 1 while record 65 is being stored over it |
| `RingSession.SessionRunKeepsInv` | src/Ipc/ShmRing.cpp:330-351 | the counters plus the pass in progress account for all 64 rings at every step |
| `RingSession.SessionStepKeepsInv` | src/Ipc/ShmRing.cpp:330-351 | each step of a producer or of the helper keeps the account of all rings |
| `RingSession.SessionCountersBalance` | src/Ipc/ShmRing.cpp:330-351 | after every DrainAll, eventsConsumed is the number of records the sink has got from all rings in all their ownerships, and eventsDropped the number of ids that a read cursor has passed and the sink has not got |
| `RingSession.SessionCountersAreReadCursors` | src/Ipc/ShmRing.cpp:330-351 | their sum is the sum of the read cursors of all ownerships, past ones at the moment they ended |
| `RingSession.GivenUpIsTheRest` | src/Ipc/ShmRing.cpp:284-318 | the ids an ownership's read cursor has passed are those delivered and those given up, each once |
| `RingPass.PassReadsEveryRing` | src/Ipc/ShmRing.cpp:330-351 | a pass that returns without a deferral has read every ring that has not changed hands at least up to where its producer stood when the pass began |
| `TraceRing.Ring.BeginGeneration` | src/Ipc/ShmRing.cpp:29-37 | the whole new header: cursors and drops at zero, ticks set, generation one up, slots as they were |
| `TraceRing.Ring.Store` | src/Ipc/ShmRing.cpp:217-245 | the record is in its slot under its id with an even version, the write cursor is its id, nothing else changes |
| `TraceRing.Ring.Drain` | src/Ipc/ShmRing.cpp:253-328 | delivers, counts and advances as the specification says for a ring with any contents |
| `TraceRing.DrainDeliversTheSuffix` | src/Ipc/ShmRing.cpp:265-327 | draining a quiescent ring drops exactly capacity * ((W-R-1)/capacity) records and delivers the remaining suffix in order |
| `TraceRing.DrainInsideWindow` | src/Ipc/ShmRing.cpp:268-318 | once inside the last lap a drain loses nothing more |
| `TraceRing.WrittenHolds` | src/Ipc/ShmRing.cpp:217-240 | storing the next id keeps "the last lap of the history is in the slots" |
| `TraceRing.RenewedHolds` | src/Ipc/ShmRing.cpp:29-37 | a fresh generation holds the empty history whatever is left in its slots |
| `TraceRing.LosslessIffWithinOneLap` | src/Ipc/ShmRing.cpp:284-297 | a drain is lossless iff the producer is at most one lap ahead |
| `TraceRing.DrainTurn` | src/Ipc/ShmRing.cpp:268-318 | one turn of the drain loop, whatever the slot holds and whatever came before |
| `TraceRing.ResidentIffInWindow` | src/Ipc/ShmRing.cpp:274-285 | a published record can still be read from its slot iff no record a whole lap later has been published |
| `TraceRing.SkipsOnlyTheGoneIffWholeLaps` | tests/test_ring.cpp:131-161 | every undelivered record that is gone is counted lost, and only such records are, iff the consumer is within a lap or a whole number of laps behind |
| `TraceRing.SkipsResidentRecords` | tests/test_ring.cpp:145-148 | a ring of 64 slots with 100 published records whose drain gives up 64 of them, 28 of which are still in their slots |
| `RingRegistry.Session.ClaimRing` | src/Ipc/ShmRing.cpp:89-148 | takes the first free ring before any ring of the caller, else the first stale one, and changes no other ring |
| `RingRegistry.Session.TakeRing` | src/Ipc/ShmRing.cpp:109-116 | the ring has the new owner and a fresh generation, and no other ring changes |
| `RingRegistry.Session.ReleaseRing` | src/Ipc/ShmRing.cpp:150-162 | frees a ring only if the caller still owns it |
| `RingRegistry.RingProducer.Claim` | src/Ipc/ShmRing.cpp:164-186 | the producer and the registry after a claim, successful or not |
| `RingRegistry.RingProducer.Release` | src/Ipc/ShmRing.cpp:188-195 | the producer and the registry after a release |
| `RingRegistry.RingProducer.Reclaim` | src/Ipc/ShmRing.cpp:199-215 | a ring that was taken over is let go of and replaced, or the producer ends without one |
| `RingRegistry.RingProducer.Publish` | src/Ipc/ShmRing.cpp:197-251 | the producer and all rings after a publish, reclaim included |
| `RegistryRuns.RunKeepsInv` | src/Ipc/ShmRing.cpp:89-251 | over every run each owner's producer holds exactly its ring and agrees with it on what is published |
| `RegistryRuns.OpKeepsInv` | src/Ipc/ShmRing.cpp:89-251 | each operation keeps the registry invariant |
| `RegistryRuns.AtMostOneRingPerThread` | src/Ipc/ShmRing.cpp:118-123 | a thread id owns at most one ring, and owning implies published equals writeSeq |
| `RegistryRuns.OnlyTheOwnerWrites` | src/Ipc/ShmRing.cpp:150-240 | slots change only in a publish by the ring's owner, and a release frees only the caller's own ring |
| `RegistryRuns.TakeOverOnlyWhenAllBusy` | src/Ipc/ShmRing.cpp:125-145 | a ring changes hands only when all 64 are owned by others, only to the thread whose claim or publish it is, and only if the owner's last touch, made at the claim and at every 4096th record, is older than that thread's staleness window |
| `RegistryTakeover.TouchTickIsTheLastTouch` | src/Ipc/ShmRing.cpp:240-245 | over every run the touch tick of an owned ring is the tick of the last of its owner's records whose number is a multiple of 4096, or of the claim if there is none |
| `RegistryTakeover.OpKeepsTouches` | src/Ipc/ShmRing.cpp:29-251 | each registry operation keeps that |
| `RegistryTakeover.StaleMeansSilentIff` | src/Ipc/ShmRing.cpp:125-145 | the owner of a stale ring has shown no sign of life within the window iff its last record was a touch, there is none, or the last record is older than the window |
| `RegistryTakeover.ActiveOwnerLosesItsRing` | src/Ipc/ShmRing.cpp:133-145 | for any event and window with tick at least window, a run of 64 claims, one publish and a claim one tick later in which the publisher loses its ring |
| `RegistryRuns.DrainSeesOnlyTheCurrentOwnersEvents` | src/Ipc/ShmRing.cpp:29-37 | every drain delivers a suffix of what was published since the last claim, less whole laps, whatever old slots hold |
| `RegistryRuns.PublishAppends` | src/Ipc/ShmRing.cpp:197-240 | a publish appends its event under the next id to the history of the ring the thread owns afterwards |
| `RegistryRuns.ClaimSucceedsIff` | src/Ipc/ShmRing.cpp:89-186 | a claim leaves the thread with a ring iff it has one already, or some ring is free or has too old a touch tick |
| `RegistryRuns.PublishFindsARingIff` | src/Ipc/ShmRing.cpp:197-215 | a publish ends with a ring iff the thread still owned one, or its ring was taken and another one is free or stale; otherwise the event is dropped |
| `WatchEncoding.Dr7EnablesExactlyTheWatches` | src/Core/WatchpointEncoding.h:38-68 | DR7 enables slot i iff address i is set, as an eight-byte write watch |
| `WatchEncoding.BitsAreWhereTheyBelong` | src/Core/WatchpointEncoding.h:37-48 | enable, condition and length bits of each slot are at their places in DR7, 01b and 10b |
| `WatchEncoding.ClearSlotClearsOnlyThatSlot` | src/Core/WatchpointEncoding.h:71-75 | clearing a slot disables it and leaves enable and condition bits of the others alone |
| `WatchEncoding.ClearSlotsClearsExactly` | src/Core/Watchpoints.cpp:838-863 | clearing several slots one after the other disables exactly those |
| `WatchEncoding.ForeignIffNeverOurs` | src/Core/WatchpointEncoding.h:138-156 | a trap is ours iff the register is enabled and was ever armed on the thread or matches the table |
| `WatchEncoding.OwnerIsDecidedByTheAddress` | src/Core/WatchpointEncoding.h:138-156 | which of the four kinds of our own watches triggered: the table decides while it holds the address, then the thread's arm record |
| `WatchEncoding.ContextIsTheDistance` | src/Core/WatchpointEncoding.h:335-350 | post-free link, reallocation in progress and delayed write by the signed distance of the write from the free, and when there is no evidence |
| `WatchEncoding.OtherInstanceExplainsNothing` | src/Core/WatchpointEncoding.h:377-414 | a free predates the allocation iff both instances are known and differ and the free does not predate the arm |
| `WatchEncoding.ReportedIffClobbered` | src/Core/Watchpoints.cpp:932-957 | a write is recorded by the trap and reported by the drainer iff a code pointer was replaced by something readable that is not code, no free within the window explains it and the arm is not stale beyond the grace period |
| `WatchEncoding.EvidenceIsStable` | src/Core/Watchpoints.cpp:443-477 | resolving resolved evidence against an unchanged free ring changes neither tick nor instance, so trap and drainer reach the same context |
| `WatchEncoding.EvidenceIsNewest` | src/Core/Watchpoints.cpp:443-477 | the free ring's record wins iff it is newer than the slot's release, the instance comes with its tick, and the source is named accordingly |
| `WatchEncoding.InstanceOnlyUnsilences` | src/Core/WatchpointEncoding.h:403-414 | a write is silent with the instance iff it is silent by ticks and the instance does not differ |
| `WatchSlots.ReleasedSlotNeverPredatesItsArm` | src/Core/WatchpointSlots.cpp:140-145 | for a slot stamped by a release, the resolved tick is never below the arm tick, so free-predates-arm never occurs |
| `WatchSlots.WatchTable.Claim` | src/Core/WatchpointSlots.cpp:64-122 | takes the first free slot, never a held one, raises the occupied count by one, and is dropped and counted only when none is free or every attempt is lost |
| `WatchSlots.WatchTable.Release` | src/Core/WatchpointSlots.cpp:124-150 | releases the first held slot with that address, stamping both ticks, lowers the occupied count by one and changes nothing else, unless the claim of the slot is lost |
| `WatchSlots.WatchTable.MarkTripped` | src/Core/WatchpointSlots.cpp:152-171 | marks exactly that slot, unless it is busy, out of range or its claim is lost |
| `WatchSlots.WatchTable.RotateOldest` | src/Core/WatchpointSlots.cpp:173-201 | releases one slot, for an address of minimal arm tick, iff some held slot has been held long enough and the claim is not lost |
| `WatchSlots.WatchTable.Snapshot` | src/Core/WatchpointSlots.cpp:203-239 | the armable addresses slot by slot, zero for every other and every torn slot, and their number |
| `WatchSlots.WatchTable.ReadSlot` | src/Core/WatchpointSlots.cpp:241-276 | released and tripped slots are still visible to a trap, empty, busy and torn ones are not |
| `WatchSlots.WatchTable.ClearAll` | src/Core/WatchpointSlots.cpp:278-308 | every slot that is neither busy nor lost to another writer is empty afterwards, and the result is the number of blocks let go |
| `WatchSlots.WatchTable.OccupiedCount` | src/Core/WatchpointSlots.cpp:310-323 | the number of held slots |
| `WatchSlots.NoFreeSlotIffFull` | src/Core/Watchpoints.cpp:259-297 | with no writer in flight, no slot is free iff four are occupied |
| `WatchProtocol.RunKeepsInv` | src/Core/Watchpoints.cpp:176-441 | the machine-wide invariant holds after every step of every run |
| `WatchProtocol.StepKeepsInv` | src/Core/Watchpoints.cpp:176-441 | each single step of hooks, sweeper, traps and threads keeps it |
| `WatchProtocol.StampedThreadsMatchTheTable` | src/Core/Watchpoints.cpp:357-434 | with no table change pending, a thread stamped with the current generation watches only the current table, and all of it unless its id was handed out again and not armed since |
| `WatchRuns.StampIsExactIffArmedSinceSpawn` | src/Core/Watchpoints.cpp:385-388 | a stamped thread is armed with exactly the current set iff its id was not handed out again since it was last armed, or there is nothing to arm |
| `WatchRuns.ReusedThreadsAreBare` | src/Core/Watchpoints.cpp:357-388 | a new thread under an old id watches nothing until it is armed |
| `WatchReuse.ReusedIdKeepsItsStamp` | src/Core/Watchpoints.cpp:357-388 | a run that ends with a thread stamped as current, a slot to arm and nothing armed |
| `WatchProtocol.EveryArmedTrapIsOurs` | src/Core/Watchpoints.cpp:344-434 | an enabled debug register on any thread implies the process-wide flag and the thread's mask bit, so its trap is never foreign |
| `WatchRuns.SeenWasInTheTable` | src/Core/Watchpoints.cpp:334-339 | an address in the sweeper's copy was in that slot, armable, at some point since the sweep began |
| `WatchRuns.ArmingRemovesRetiredWatches` | src/Core/Watchpoints.cpp:332-434 | what a successful arm enables was armable since the sweep began, so a slot retired since then is off, whatever other slots, bumps and traps do meanwhile |
| `WatchRuns.RetiredSlotStaysOff` | src/Core/Watchpoints.cpp:357-434 | a slot retired since some moment is off on every thread whose stamp is newer than the generation of that moment |
| `WatchRuns.ForcedSweepSkipsOnlyCleanThreads` | src/Core/Watchpoints.cpp:385-391 | a forced sweep passes over a tracked thread only if every slot retired before the generation it has read is off on it |
| `WatchRuns.RequestIsHonoured` | src/Core/Watchpoints.cpp:240-244 | a requested forced sweep stays requested until a sweep takes the request and is forced |
| `WatchRuns.ForcedSweepStaysForced` | src/Core/Watchpoints.cpp:321-330 | and such a sweep stays forced until it ends |
| `WatchRuns.WhoMayBeArmed` | src/Core/Watchpoints.cpp:385-391 | a throttled sweep may arm only unstamped threads, a forced one exactly those stamped before the generation it has read |
| `WatchRuns.UnstampedIsTakenUp` | src/Core/Watchpoints.cpp:385-408 | a thread that is new or could not be opened may be armed by every sweep, throttled or not, until it is stamped |
| `WatchProtocol.TrapClearsExactly` | src/Core/Watchpoints.cpp:842-979 | an enabled watch of the trapping thread stays enabled iff it was not triggered, or is not recorded and the table slot still holds its address |
| `WatchProtocol.TrapEffect` | src/Core/Watchpoints.cpp:842-1028 | over runs: that, no other thread and no address register changed, every entry out of date, and a forced sweep requested iff some triggered watch is no longer in the table or is there as released |
| `WatchProtocol.ArmFollowsItsRecord` | src/Core/Watchpoints.cpp:405-434 | a successful arm sets exactly the sweeper's copy, and every watch it enables is on record under its address, so that it is a known stale arm iff the table has moved on |
| `LedgerShard.AbsentBeyondEmpty` | src/Core/ShadowLedger.cpp:265-317 | a key not met before an empty slot or the end of the window is nowhere in the shard |
| `LedgerShard.FreedIsItsFlag` | src/Core/ShadowLedger.h:17-24 | a record counts as freed iff the flag of value 4 is set |
| `LedgerShard.PlacementAfterWrite` | src/Core/ShadowLedger.cpp:156-197 | writing one taken or empty slot keeps every other key findable on its probe path |
| `LedgerShard.ContentsAfterWrite` | src/Core/ShadowLedger.cpp:156-197 | what writing one slot does to the map the shard stands for |
| `LedgerShard.TombstoneKeepsShard` | src/Core/ShadowLedger.cpp:319-355 | a tombstone removes its key from the map and keeps the others findable |
| `LedgerShard.InsertAtTarget` | src/Core/ShadowLedger.cpp:214-263 | writing the chosen victim keeps the shard well formed and changes the map by the new record and at most one victim, the first freed record of a full window |
| `LedgerShard.Shard.Scan` | src/Core/ShadowLedger.cpp:214-251 | where the key or the end of its path is, and the first tombstone and first freed record before it |
| `LedgerShard.Shard.Locate` | src/Core/ShadowLedger.cpp:275-317 | finds the slot of a key iff the map has the key |
| `LedgerShard.Shard.InsertAtVictim` | src/Core/ShadowLedger.cpp:156-197 | writes the victim iff it is still empty, a chosen tombstone or a chosen freed record, counting only former empties |
| `LedgerShard.Shard.Insert` | src/Core/ShadowLedger.cpp:199-263 | stores the record, evicting the first freed record on the path iff the window is full of other records and one of them is freed, or fails iff none is |
| `LedgerShard.Shard.Find` | src/Core/ShadowLedger.cpp:265-317 | lookup in the map |
| `LedgerShard.Shard.Erase` | src/Core/ShadowLedger.cpp:319-355 | removal from the map, the count unchanged |
| `LedgerEviction.EvictsTheOldestIffNothingOlderBehind` | src/Core/ShadowLedger.cpp:243-261 | the evicted record is the one freed first iff no older one lies behind the first freed record on the probe path |
| `LedgerEviction.EvictsTheHomeRecord` | src/Core/ShadowLedger.cpp:243-261 | a full table on which, under every hash function, an insert evicts the record in the home slot of the new pointer, which was freed first iff that slot is the last |
| `LedgerEviction.EvictsANewerRecord` | src/Core/ShadowLedger.cpp:243-261 | the same table with the program's hash and a concrete pointer: 54 records older than the evicted one stay |
| `LedgerFilling.FullWindowIsReached` | src/Core/ShadowLedger.cpp:199-355 | for every hash function a run of inserts and erases from an empty shard to the table of the two rows above |
| `ShadowLedger.SortedAfterInsert` | src/Core/ShadowLedger.cpp:146-154 | an insert in the selected shard changes the whole map only at its key and the evicted one |
| `ShadowLedger.ShadowLedger.Insert` | src/Core/ShadowLedger.cpp:199-263 | the whole ledger as one map: stored, or unchanged and counted as a failure; at most one record is evicted, the first freed one on the probe path |
| `ShadowLedger.ShadowLedger.Find` | src/Core/ShadowLedger.cpp:265-317 | lookup in the map; the pre-filter never changes the answer |
| `ShadowLedger.ShadowLedger.Erase` | src/Core/ShadowLedger.cpp:319-355 | removes exactly one key and returns its record |
| `ShadowLedger.ShadowLedger.Count` | src/Core/ShadowLedger.cpp:357-367 | the number of slots that are not empty, tombstones included |
| `ShadowLedger.Init` | src/Core/ShadowLedger.cpp:91-133 | an empty map over a power of two of shards, each with a power of two of slots, at least 16 |
| `LedgerSeqlock.RunKeepsInv` | src/Core/ShadowLedger.cpp:64-89 | entries no writer is inside of hold a record stored whole, at every step of every run |
| `LedgerSeqlock.FoundRecordWasStoredWhole` | src/Core/ShadowLedger.cpp:265-317 | a successful lookup that overlaps writers returns, field for field, a record one Insert stored for that pointer |
| `LedgerSeqlock.FoundRecordIsCurrent` | src/Core/ShadowLedger.cpp:300-307 | and it is the record its entry holds, at rest and under that pointer, at the second version check |
| `LedgerSeqlock.NotFoundMeans` | src/Core/ShadowLedger.cpp:280-317 | a lookup fails only at an empty entry at rest, at a copy a writer has been inside of, or after 64 entries |
| `LedgerSeqlock.SteadyPointerIsFound` | src/Core/ShadowLedger.cpp:265-317 | a pointer that stays in its entry, at the end of a path without empty entries, is found with its record whatever writers do to other entries during the lookup |
| `BloomFilter.RetainsTheMostRecent` | src/Core/BloomFilter.cpp:119-165 | what is retained after any adds includes the last ageAt keys, and all of them without aging |
| `Hashing.MaskSelectsTheSlot` | src/Core/ShadowLedger.cpp:209-210 | for a power of two of slots, the mask of the program selects the same slot as the model |
| `Arithmetic.RoundUp` | src/Core/ShadowLedger.cpp:42-49 | the doubling loop ends at a power of two, at least what was asked for and less than twice it |
| `BloomFilter.RecentAfterRetain` | src/Core/BloomFilter.cpp:119-131 | the retained keys stay a suffix of the adds whose older part is a full half |
| `BloomFilter.SevenProbesDiffer` | src/Core/BloomFilter.cpp:88-97 | the seven bits of a key are seven different ones, because the second hash is odd |
| `BloomFilter.BloomFilter.Init` | src/Core/BloomFilter.cpp:27-70 | an empty filter of whole words, of at least the bits asked for and less than two words more |
| `BloomFilter.BloomFilter.SetIn` | src/Core/BloomFilter.cpp:83-98 | exactly the seven bits of the key are set in addition |
| `BloomFilter.BloomFilter.TestIn` | src/Core/BloomFilter.cpp:100-117 | true iff all seven bits of the key are set |
| `BloomFilter.BloomFilter.ForceAge` | src/Core/BloomFilter.cpp:150-165 | the recent keys become the older half and the older half is forgotten |
| `BloomFilter.BloomFilter.Add` | src/Core/BloomFilter.cpp:119-131 | the key is retained, and a full half swaps |
| `BloomFilter.BloomFilter.MightContain` | src/Core/BloomFilter.cpp:133-148 | a key is reported iff the filter is not ready or each of its bits is a bit of some key retained in one half; so every retained key is |
| `BloomFilter.QueryAfterAdds` | src/Core/BloomFilter.cpp:119-148 | after any adds, each of the last ageAt keys is reported; without aging, exactly the keys whose bits are all bits of added keys |
| `EvictingRing.MirrorsAfterRecord` | src/Core/ScaleformFreeRing.cpp:78-100 | recording evicts exactly the oldest record of a full ring |
| `EvictingRing.WindowIsTheLast` | src/Core/WeakLibEvents.cpp:93-94 | what is left in a ring is the last capacity records, or all of them |
| `EvictingRing.ScaleformFreeRing.Record` | src/Core/ScaleformFreeRing.cpp:78-100 | the record is appended to the history the ring stands for |
| `EvictingRing.ScaleformFreeRing.Find` | src/Core/ScaleformFreeRing.cpp:102-135 | the newest match among the last capacity records, false iff there is none |
| `EvictingRing.ScaleformFreeRing.RetentionTicks` | src/Core/ScaleformFreeRing.cpp:143-173 | the ticks of the oldest and newest retained records |
| `EvictingRing.MatchingSplits` | src/Core/WeakLibEvents.cpp:87-125 | the matches of a window split with the window |
| `EvictingRing.MatchesOfSuffix` | src/Core/WeakLibEvents.cpp:96-114 | what a backwards scan has found is always the last matches, and all of them at the window's start |
| `EvictingRing.WeakLibEvents.Record` | src/Core/WeakLibEvents.cpp:71-85 | the event is appended to the history unless its pointer is 0 or 1 |
| `EvictingRing.WeakLibEvents.ScanBack` | src/Core/WeakLibEvents.cpp:96-114 | fills the end of the output with the last min(max, matches) matches in order |
| `EvictingRing.WeakLibEvents.CompactToFront` | src/Core/WeakLibEvents.cpp:119-124 | moves them to the front in place without losing one |
| `EvictingRing.WeakLibEvents.Find` | src/Core/WeakLibEvents.cpp:87-125 | the last min(max, matches) matching events of the window, chronologically |
| `PoisonQuarantine.PoisonQuarantine.Init` | src/Core/PoisonQuarantine.cpp:50-71 | an empty quarantine of a power of two of slots, at least the blocks asked for and less than twice that |
| `Arithmetic.NextPow2IsTight` | src/Core/PoisonQuarantine.cpp:36-43 | the capacity is a power of two, at least what was asked for and less than twice it |
| `PoisonQuarantine.PoisonQuarantine.OverBudget` | src/Core/PoisonQuarantine.cpp:85-91 | true iff the block fits neither the block nor the byte budget with what is held |
| `PoisonQuarantine.PoisonQuarantine.Reserve` | src/Core/PoisonQuarantine.cpp:93-111 | a fresh slot number, or 0 iff all are in use or every attempt is lost |
| `PoisonQuarantine.PoisonQuarantine.Publish` | src/Core/PoisonQuarantine.cpp:113-128 | the block joins the end of the queue and the byte count stays the sum of the held sizes |
| `PoisonQuarantine.PoisonQuarantine.PopOldest` | src/Core/PoisonQuarantine.cpp:130-170 | the oldest held block leaves, once, or there is none |
| `PoisonQuarantine.QueuedAfterPublish` | src/Core/PoisonQuarantine.cpp:113-128 | a publish never lands on a slot of a held block |
| `PoisonQuarantine.PoisonQuarantine.DecodeFault` | src/Core/PoisonQuarantine.cpp:179-190 | a fault decodes iff it lies in the poison region, to the slot whose stride it lies in |
| `PoisonQuarantine.PoisonQuarantine.GetSlot` | src/Core/PoisonQuarantine.cpp:192-211 | the published record of a slot number, if there is one and the read is not torn |
| `PoisonQuarantine.PoisonQuarantine.BlockOfFault` | src/Core/PoisonQuarantine.cpp:179-211 | every fault at a held block's poison plus an offset below the stride leads to that block's record |
| `Admission.DrainsAreTheFewest` | src/Hooks/Hooks.cpp:526-536 | the loop stops at the first point where the block fits, the queue is empty or the bound is reached, and nowhere else |
| `Admission.RoomIffWithinBudget` | src/Hooks/Hooks.cpp:526-539 | draining makes room iff the block alone is within the byte budget; otherwise everything is drained in vain |
| `Admission.FreedExactlyTheLive` | src/Hooks/Hooks.cpp:487-506 | the engine sees a free for exactly the drained blocks whose heap is alive |
| `Admission.DrainOneQuarantined` | src/Hooks/Hooks.cpp:487-506 | one block leaves and is freed, or leaks if its heap is dead |
| `Admission.MakeRoom` | src/Hooks/Hooks.cpp:526-536 | terminates after the fewest drains, oldest first, with every free passed on |
| `Admission.Withhold` | src/Hooks/Hooks.cpp:541-559 | the block gets a poison slot, carries its poison and is the newest record, with pointer, heap, size, vtable, site, stack and tick of its free, and the others stay poisoned; or the race for a slot is lost and nothing changes |
| `Admission.TryPoisonOnFree` | src/Hooks/Hooks.cpp:510-559 | withheld iff enabled, ready, large enough, readable, fitting after the fewest drains and not losing the race for a slot; then poisoned and recorded under the fields of its free, else left alone; if every held block was poisoned before and the freed block is none of them, every held block is poisoned afterwards |
| `AdmissionRuns.AdmitsWhatWasWithheld` | src/Hooks/Hooks.cpp:541-559 | over any calls the admitted records are the withheld frees in order, field by field |
| `AdmissionRuns.DrainsFreeTheirOwnBlocks` | src/Hooks/Hooks.cpp:487-536 | each call drains the blocks withheld longest, and the engine's free is called for each, in order, with its own heap and address, iff that heap is alive |
| `AdmissionRuns.FreesNameTheirBlock` | src/Hooks/Hooks.cpp:487-506 | a free is among those calls iff it is that of a drained block with a live heap |
| `Admission.FaultNamesItsBlock` | src/Core/PoisonQuarantine.cpp:179-211 | a fault through the word in a withheld block names that block |
| `JsonRoundTrip.AcceptsExactlyTheWrittenForms` | src/Hooks/HookTable.cpp:55-65 | a text is accepted iff it is a written form followed by white space, and as that form |
| `JsonRoundTrip.CoreIsRead` | src/Hooks/HookTable.cpp:108-312 | every allowed form, followed by anything that does not prolong it, is read back as itself |
| `JsonRoundTrip.EntriesAreRead` | src/Hooks/HookTable.cpp:141-202 | so are the entries of objects and arrays with any white space |
| `JsonRoundTrip.ItemsAreRead` | src/Hooks/HookTable.cpp:204-272 | and strings with any mixture of plain bytes and escapes |
| `JsonRoundTrip.DocWasWritten` | src/Hooks/HookTable.cpp:108-312 | whatever is accepted was the printed form of what is returned |
| `JsonPrinter.ReadInvertsWrite` | tools/gen-hooktable.py:394-397 | reading the generator's file gives the value back, iff its numbers fit 64 bits and its nesting the bound |
| `JsonPrinter.ReadIgnoresTheSpelling` | src/Hooks/HookTable.cpp:55-65 | any white space, escapes and leading zeros give the same value, strings being what JsonStrings says |
| `JsonPrinter.ReadOnlyWrittenForms` | src/Hooks/HookTable.cpp:55-65 | nothing but written forms is accepted |
| `JsonPrinter.NumberAcceptedIffItFits` | src/Hooks/HookTable.cpp:287-312 | a run of digits is accepted iff its decimal value is at most 2^64 - 1, and is that number |
| `JsonPrinter.LayoutMeans` | tools/gen-hooktable.py:394-397 | the generator's layout of a value stands for it, and is allowed iff the value fits the dialect |
| `JsonReader.DocOneStep` | src/Hooks/HookTable.cpp:108-139 | the dispatch on the first byte of a value |
| `JsonReader.OneMoreDigit` | src/Hooks/HookTable.cpp:295-301 | the overflow check is exact: a refused prefix refuses the number |
| `JsonReader.JsonReader.SkipWhitespace` | src/Hooks/HookTable.cpp:82-87 | skips the longest prefix of white space |
| `JsonReader.JsonReader.Consume` | src/Hooks/HookTable.cpp:89-96 | advances past the byte iff it is next |
| `JsonReader.JsonReader.ExpectLiteral` | src/Hooks/HookTable.cpp:98-106 | advances past the word iff it is next |
| `JsonReader.JsonReader.ParseHex4` | src/Hooks/HookTable.cpp:252-272 | succeeds iff four hex digits are next, with their value |
| `JsonReader.JsonReader.ParseString` | src/Hooks/HookTable.cpp:204-250 | the bytes the string's units stand for, as JsonStrings has them, and the text after it, or failure |
| `JsonReader.JsonReader.Unescape` | src/Hooks/HookTable.cpp:227-244 | the switch knows exactly the letters that may be escaped, with their characters |
| `JsonReader.JsonReader.AppendUtf8` | src/Hooks/HookTable.cpp:274-285 | appends the encoding of the code point |
| `JsonStrings.Utf8IsTheShortestEncoding` | src/Hooks/HookTable.cpp:274-285 | the bytes appended for a code point are its shortest UTF-8 encoding by byte ranges, one to three bytes, and no other bytes are |
| `JsonStrings.HexIsReadAsWritten` | src/Hooks/HookTable.cpp:252-272 | four hex digits stand for a number iff they write it, each letter in either case |
| `JsonStrings.EscapesStandForTheirCharacters` | src/Hooks/HookTable.cpp:227-244 | exactly eight letters may be escaped, and the character each stands for, the slash included |
| `JsonStrings.StringsAreUtf8` | src/Hooks/HookTable.cpp:204-285 | a string whose bytes beyond ASCII are all escaped decodes, byte range by byte range, to the code points it is written with |
| `JsonReader.JsonReader.ParseNumber` | src/Hooks/HookTable.cpp:287-312 | the number and the text after it, or failure |
| `JsonReader.JsonReader.ParseValue` | src/Hooks/HookTable.cpp:108-139 | terminates on every text with the value the grammar gives it, or failure |
| `JsonReader.JsonReader.ParseArray` | src/Hooks/HookTable.cpp:177-202 | the elements in order and the text after them, or failure |
| `JsonReader.JsonReader.ParseMember` | src/Hooks/HookTable.cpp:150-163 | one key with its colon and value, and the text after them, or failure |
| `JsonReader.JsonReader.ParseObject` | src/Hooks/HookTable.cpp:141-175 | the members in order and the text after them, or failure |
| `JsonReader.JsonReader.Parse` | src/Hooks/HookTable.cpp:55-65 | the value of every text, or failure: the reader the round trip is about |
| `HookTable.ParseRecord` | src/Hooks/HookTable.cpp:442-512 | an accepted record has a prologue of 1 to 64 bytes and a vtable block iff it is a virtual target |
| `HookTable.RecordSurvives` | src/Hooks/HookTable.cpp:442-512 | a written record is parsed back unchanged iff it is sound |
| `HookTable.ParseRecords` | src/Hooks/HookTable.cpp:576-588 | accepted records are all sound and no target occurs twice |
| `HookTable.ParseTargets` | src/Hooks/HookTable.cpp:576-588 | the loop with its search for duplicates computes that |
| `HookTable.FindTarget` | src/Hooks/HookTable.cpp:515-523 | finds the one record of a target iff some record names it |
| `HookTable.IdentitySurvives` | src/Hooks/HookTable.cpp:553-568 | a written identity is parsed back unchanged |
| `HookTable.TableSurvives` | src/Hooks/HookTable.cpp:525-594 | a written table is parsed back unchanged iff it has a record, no target twice and only sound records |
| `HookTableFile.ParseHookTable` | src/Hooks/HookTable.cpp:525-594 | what a text is loaded as, from its bytes on |
| `HookTableFile.FileLoadsAsItsTable` | src/Hooks/HookTable.cpp:525-594 | the generator's file for a table loads as that table iff the plugin may accept it |
| `HookTableFile.TextNumbersAreRightIffTheyFit` | src/Hooks/HookTable.cpp:352-405 | decimal text is always accepted and right iff it fits 64 bits, where the literal is accepted iff it fits |
| `HookTableFile.HexNumbersAreRightIffTheyFit` | src/Hooks/HookTable.cpp:364-401 | hexadecimal text is always accepted and right iff it fits 64 bits |
| `HookTableFile.OnlyDigitsAreNumbers` | src/Hooks/HookTable.cpp:364-401 | a text is taken for a number iff it is decimal digits, or hexadecimal digits after 0x or 0X |
| `HookTableFile.FirstNumberThatWraps` | src/Hooks/HookTable.cpp:364-401 | 18446744073709551616 is refused as a literal and read as zero from text |
| `HookTableForms.RecordAcceptedIff` | src/Hooks/HookTable.cpp:442-512 | a value is accepted as a record iff it is an object without unknown keys whose first members of each name are the record's fields, a vtable block on virtual targets only, and a prologue of 1 to 64 bytes |
| `HookTableForms.TableAcceptedIff` | src/Hooks/HookTable.cpp:525-594 | a value is accepted as a table iff it has the known schema, no unknown key, an identity, and at least one record, no target twice |
| `HookTableForms.LoadedIff` | src/Hooks/HookTable.cpp:525-594 | a text is loaded as a table iff it is a written form whose value means that table |
| `HookVerifier.Fnv1a64` | src/Hooks/HookVerifier.cpp:5-13 | the loop computes the hash of the first size bytes |
| `HookVerifier.PublishedHashes` | src/Hooks/HookVerifier.h:31-32 | the published values of 64-bit FNV-1a for the empty text and for the letter a |
| `HookVerifier.RoundTellsStatesApart` | src/Hooks/HookVerifier.cpp:8-11 | for a fixed byte a round is injective on the 2^64 states |
| `HookVerifier.RoundTellsBytesApart` | src/Hooks/HookVerifier.cpp:8-11 | from a fixed state a round is injective in the byte |
| `HookVerifier.DifferenceSurvives` | src/Hooks/HookVerifier.cpp:5-13 | states that differ stay different through any further bytes |
| `HookVerifier.OneByteChangeIsSeen` | src/Hooks/HookVerifier.cpp:5-13 | changing one byte at any position of any string changes the hash |
| `HookVerifier.VerifyHookTarget` | src/Hooks/HookVerifier.cpp:36-103 | verified iff every claim of the record holds of the process, and otherwise the verdict of the first claim that fails |
| `HookVerifier.LittleEndianIsInjective` | src/Hooks/HookVerifier.cpp:71-74 | different slot bytes are different target addresses |
| `HookVerifier.RejectsEveryByteChange` | tests/test_hooktable.cpp:357-375 | a prologue differing in one byte from a verified one is never verified |
| `HookVerifier.RejectsEverySlotChange` | src/Hooks/HookVerifier.cpp:64-82 | neither is a vtable slot with other bytes |

## Left out

- Takeover of a ring while a drain of it is in flight, or in the middle of a Publish: the code does not order these; `RingProtocol` allows a takeover at any point of a publish that has stopped for good, but only between drains.
- RingRegistry.Session.ClaimRing: does not model losing the compare-exchange on a free or stale ring to another thread; a claim is one step, ordered before or after the other thread's.
- LedgerShard.Shard.InsertAtVictim: does not model a victim that another writer is inside of, or whose claim is lost; writers are taken one at a time.
- LedgerShard.Shard.Insert: does not model dropping the record because of another writer, for the same reason.
- LedgerShard.Shard.Erase: does not model giving up because of another writer, for the same reason.
- Two writers inside one ledger entry at a time: writers are serialised in `LedgerSeqlock`, and `LedgerShard` takes each call as one step.
- A trap's context restore racing a sweep of the same thread: a trap is one step of `WatchProtocol`; what its reports contain is left out, and which triggered writes are recorded is a parameter of that step; `WatchEncoding` says which they are.
- The choice of candidates to promote, the report rings and their counters, and the re-arm throttle's clock: table changes of any content and an open or closed throttle are inputs of `WatchProtocol`.
- Which of two sources a free tick came from when evidence is resolved twice: only tick and instance are stable.
- PoisonQuarantine.PoisonQuarantine.PopOldest: does not model skipping a reservation that is not yet published; every Reserve is followed by its Publish, as in the admission loop.
- PoisonQuarantine.PoisonQuarantine.Reserve: the slot number is not truncated to 32 bits, and poison addresses do not wrap; the results about faults assume a region that is `Addressable`.
- Admission.TryPoisonOnFree: the configuration switch, readability of memory and liveness of a heap are parameters, constant during one call.
- WatchSlots.WatchTable.Claim: whether an attempt to claim a slot is lost to another writer, or a copy is torn by one, is a parameter of each operation; the other writer's own change is a call of its own.
- BloomFilter.BloomFilter.Add: the two halves are arrays of bits rather than of 64-bit words, and concurrent adders are not modelled.
- JsonReader.JsonReader.Parse: error texts and offsets are not modelled, only success and the value.
- JsonReader.JsonReader.ParseString: surrogate pairs are not joined, as in the code; bytes above 0x7F are passed through unchecked.
- HookTable.ParseRecord: error texts are not modelled; the fields of the resulting record are tied to the input by the round trip HookTable.RecordSurvives.
- HookVerifier.VerifyHookTarget: the fields of a failed check that only serve the log are not specified; the eight slot bytes are combined by a function instead of a loop.
- Shutdown and re-initialisation paths, the ledger's stack depot, session validation and attach, guarded pool, verdicts, statistics, allocator confidence, logging, and everything that talks to Windows, MinHook or SKSE.
