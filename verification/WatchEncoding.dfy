/** Debug-register encoding and the pure decisions of src/Core/WatchpointEncoding.h: the DR7
    bit layout, who a trap belongs to, and what a recorded free says about a write. */
module WatchEncoding {

  const SLOTS: nat := 4

  type Address = nat

  /** What DR0-DR3 of one thread hold; 0 means unused. */
  type Addresses = a: seq<Address> | |a| == SLOTS witness [0, 0, 0, 0]

  // ---------------------------------------------------------------- DR7

  type Slot = n: nat | n < SLOTS

  /** L_i, bit 2 * i. */
  function LocalEnableBit(slot: Slot): bv64 {
    match slot
    case 0 => 0x1
    case 1 => 0x4
    case 2 => 0x10
    case _ => 0x40
  }

  /** RW_i = 01b (data write) at bit 16 + 4 * i. */
  function DataWrite(slot: Slot): bv64 {
    match slot
    case 0 => 0x1_0000
    case 1 => 0x10_0000
    case 2 => 0x100_0000
    case _ => 0x1000_0000
  }

  /** LEN_i = 10b (eight bytes) at bit 18 + 4 * i. */
  function EightBytes(slot: Slot): bv64 {
    match slot
    case 0 => 0x8_0000
    case 1 => 0x80_0000
    case 2 => 0x800_0000
    case _ => 0x8000_0000
  }

  function WriteBits(slot: Slot): bv64 {
    DataWrite(slot) | EightBytes(slot)
  }

  /** The two bits of RW_i and the two bits of LEN_i. */
  function FieldMask(slot: Slot): bv64 {
    match slot
    case 0 => 0xF_0000
    case 1 => 0xF0_0000
    case 2 => 0xF00_0000
    case _ => 0xF000_0000
  }

  predicate SlotEnabled(dr7: bv64, slot: Slot) {
    dr7 & LocalEnableBit(slot) != 0
  }

  function SlotBits(addresses: Addresses, slot: Slot): bv64 {
    if addresses[slot] != 0 then LocalEnableBit(slot) | WriteBits(slot) else 0
  }

  /** DR7 for a write watch on every non-zero address: a fixed four-step fold. */
  function BuildDr7(addresses: Addresses): bv64 {
    ((SlotBits(addresses, 0) | SlotBits(addresses, 1)) | SlotBits(addresses, 2)) | SlotBits(addresses, 3)
  }

  function ClearSlot(dr7: bv64, slot: Slot): bv64 {
    dr7 & !(LocalEnableBit(slot) | WriteBits(slot))
  }

  /** Each slot's bits are the first slot's, two or four places further up for every slot: enable
      bit 2 * i, a write watch (01b) at 16 + 4 * i, eight bytes (10b) at 18 + 4 * i. */
  lemma BitsAreWhereTheyBelong(slot: Slot)
    ensures LocalEnableBit(slot) == 1 << (2 * slot)
    ensures DataWrite(slot) == 1 << (16 + 4 * slot)
    ensures EightBytes(slot) == 2 << (18 + 4 * slot)
    ensures FieldMask(slot) == 0xF << (16 + 4 * slot)
  {
    match slot {
      case 0 =>
      case 1 =>
      case 2 =>
      case _ =>
    }
  }

  /** DRi is enabled exactly when address i is set, and then it is an 8-byte write watch. */
  lemma Dr7EnablesExactlyTheWatches(addresses: Addresses, slot: Slot)
    ensures SlotEnabled(BuildDr7(addresses), slot) <==> addresses[slot] != 0
    ensures BuildDr7(addresses) & FieldMask(slot) == if addresses[slot] != 0 then WriteBits(slot) else 0
  {
  }

  /** The masks of the four slots, in constants: what a slot clears is its own enable bit and
      nothing of another slot. */
  lemma MasksAreApart(slot: Slot, other: Slot)
    ensures var cleared := LocalEnableBit(slot) | WriteBits(slot);
            && cleared & LocalEnableBit(slot) == LocalEnableBit(slot)
            && (slot != other ==> cleared & LocalEnableBit(other) == 0 && cleared & FieldMask(other) == 0)
  {
    match slot {
      case 0 => assert LocalEnableBit(slot) | WriteBits(slot) == 0x9_0001;
      case 1 => assert LocalEnableBit(slot) | WriteBits(slot) == 0x90_0004;
      case 2 => assert LocalEnableBit(slot) | WriteBits(slot) == 0x900_0010;
      case _ => assert LocalEnableBit(slot) | WriteBits(slot) == 0x9000_0040;
    }
  }

  /** Masking out `cleared` removes those bits and keeps the rest. */
  lemma Masked(dr7: bv64, cleared: bv64, bits: bv64)
    ensures cleared & bits == 0 ==> (dr7 & !cleared) & bits == dr7 & bits
    ensures cleared & bits == bits ==> (dr7 & !cleared) & bits == 0
  {
  }

  lemma ClearDisables(dr7: bv64, slot: Slot)
    ensures !SlotEnabled(ClearSlot(dr7, slot), slot)
  {
    MasksAreApart(slot, slot);
    Masked(dr7, LocalEnableBit(slot) | WriteBits(slot), LocalEnableBit(slot));
  }

  lemma ClearKeepsOtherEnableBit(dr7: bv64, slot: Slot, other: Slot)
    requires slot != other
    ensures ClearSlot(dr7, slot) & LocalEnableBit(other) == dr7 & LocalEnableBit(other)
  {
    MasksAreApart(slot, other);
    Masked(dr7, LocalEnableBit(slot) | WriteBits(slot), LocalEnableBit(other));
  }

  lemma ClearKeepsOtherEnables(dr7: bv64, slot: Slot, other: Slot)
    requires slot != other
    ensures SlotEnabled(ClearSlot(dr7, slot), other) <==> SlotEnabled(dr7, other)
  {
    ClearKeepsOtherEnableBit(dr7, slot, other);
  }

  lemma ClearKeepsOtherFields(dr7: bv64, slot: Slot, other: Slot)
    requires slot != other
    ensures ClearSlot(dr7, slot) & FieldMask(other) == dr7 & FieldMask(other)
  {
    MasksAreApart(slot, other);
    Masked(dr7, LocalEnableBit(slot) | WriteBits(slot), FieldMask(other));
  }

  /** Clearing one slot disables it and leaves the other three as they were. */
  lemma ClearSlotClearsOnlyThatSlot(dr7: bv64, slot: Slot, other: Slot)
    ensures SlotEnabled(ClearSlot(dr7, slot), other) <==> SlotEnabled(dr7, other) && other != slot
    ensures other != slot ==> (ClearSlot(dr7, slot) & FieldMask(other) == dr7 & FieldMask(other))
  {
    if slot == other {
      ClearDisables(dr7, slot);
    } else {
      ClearKeepsOtherEnables(dr7, slot, other);
      ClearKeepsOtherFields(dr7, slot, other);
    }
  }

  /** The slots below `n` that are in `stopped`, cleared one after the other. */
  function ClearSlots(dr7: bv64, stopped: set<Slot>, n: nat): bv64
    requires n <= SLOTS
  {
    if n == 0 then dr7
    else
      var rest := ClearSlots(dr7, stopped, n - 1);
      if n - 1 in stopped then ClearSlot(rest, n - 1) else rest
  }

  /** Exactly those are disabled. */
  lemma {:induction false} ClearSlotsClearsExactly(dr7: bv64, stopped: set<Slot>, n: nat, k: Slot)
    requires n <= SLOTS
    ensures SlotEnabled(ClearSlots(dr7, stopped, n), k) <==> SlotEnabled(dr7, k) && !(k < n && k in stopped)
  {
    if n == 0 {
      assert ClearSlots(dr7, stopped, n) == dr7;
    } else {
      ClearSlotsClearsExactly(dr7, stopped, n - 1, k);
      OneMoreSlot(ClearSlots(dr7, stopped, n - 1), n - 1 in stopped, n - 1, k);
    }
  }

  lemma OneMoreSlot(dr7: bv64, stops: bool, slot: Slot, k: Slot)
    ensures SlotEnabled(if stops then ClearSlot(dr7, slot) else dr7, k)
       <==> SlotEnabled(dr7, k) && !(stops && k == slot)
  {
    if stops && k == slot {
      ClearDisables(dr7, slot);
    } else if stops {
      ClearKeepsOtherEnables(dr7, slot, k);
    }
  }

  // ---------------------------------------------------------------- trap ownership

  datatype TrapOwner = Foreign | TableCurrent | TableReleased | StaleThreadArm | StaleBareArm {
    predicate IsOurs() { !Foreign? }
    predicate IsStale() { StaleThreadArm? || StaleBareArm? }
  }

  /** What a lock-free read of a table slot yields, if it is valid at all. */
  datatype TableView = NoSlot | InTable(address: Address, released: bool)

  function ClassifyTrapOwner(
    enabled: bool, drAddress: Address, everArmed: bool, armAddress: Address, table: TableView): TrapOwner
  {
    if !enabled || drAddress == 0 then Foreign
    else if table.InTable? && table.address == drAddress then
      if table.released then TableReleased else TableCurrent
    else if everArmed then
      if armAddress != 0 && armAddress == drAddress then StaleThreadArm else StaleBareArm
    else Foreign
  }

  /** A debug register this process armed on the thread is ours whatever the table says, and
      only a slot never armed there and unknown to the table is foreign. */
  lemma ForeignIffNeverOurs(enabled: bool, drAddress: Address, everArmed: bool, armAddress: Address, table: TableView)
    ensures ClassifyTrapOwner(enabled, drAddress, everArmed, armAddress, table).IsOurs()
       <==> enabled && drAddress != 0 && (everArmed || (table.InTable? && table.address == drAddress))
  {
  }

  /** What kind of watch triggered: the table decides as long as it still holds the address, and
      after that the record of what was last armed in that slot of the thread. */
  lemma OwnerIsDecidedByTheAddress(
    drAddress: Address, everArmed: bool, armAddress: Address, table: TableView)
    requires drAddress != 0
    ensures var owner := ClassifyTrapOwner(true, drAddress, everArmed, armAddress, table);
            && (owner.TableCurrent? <==> table == InTable(drAddress, false))
            && (owner.TableReleased? <==> table == InTable(drAddress, true))
            && (owner.IsStale() <==> everArmed && !(table.InTable? && table.address == drAddress))
            && (owner.StaleThreadArm? <==> owner.IsStale() && armAddress == drAddress)
  {
  }

  // ---------------------------------------------------------------- free evidence

  const BOOKKEEPING_WINDOW_MS: nat := 32

  datatype FreeContext =
    | Live | PostFreeLink | ReallocInProgress | FreePredatesArm | FreePredatesAllocation | DelayedWriteAfterFree
  {
    predicate IsBookkeeping() { PostFreeLink? || ReallocInProgress? }
  }

  datatype InstanceMatch = Unknown | Same | Different

  function MatchFreeInstance(armed: nat, freed: nat): InstanceMatch {
    if armed == 0 || freed == 0 then Unknown else if armed == freed then Same else Different
  }

  function PreferNewestFreeTick(slotTick: nat, ringTick: nat): nat {
    if ringTick > slotTick then ringTick else slotTick
  }

  function ClassifyWriteAgainstFree(freeTick: nat, armTick: nat, trapTick: nat, window: nat): FreeContext {
    if freeTick == 0 then Live
    else if armTick != 0 && freeTick < armTick then FreePredatesArm
    else if trapTick >= freeTick then
      if trapTick - freeTick <= window then PostFreeLink else DelayedWriteAfterFree
    else if freeTick - trapTick <= window then ReallocInProgress
    else DelayedWriteAfterFree
  }

  function ClassifyWithInstance(m: InstanceMatch, freeTick: nat, armTick: nat, trapTick: nat, window: nat)
    : FreeContext
  {
    if freeTick != 0 && armTick != 0 && freeTick < armTick then FreePredatesArm
    else if freeTick != 0 && m.Different? then FreePredatesAllocation
    else ClassifyWriteAgainstFree(freeTick, armTick, trapTick, window)
  }

  /** What ScaleformFreeRing::Find returns for the watched address. */
  datatype FreeRecord = NoRecord | Freed(freeTick: nat, allocInstance: nat)

  datatype TickSource = SourceNone | SlotSnapshot | FreeRing

  datatype Evidence = Evidence(tick: nat, instance: nat, source: TickSource)

  function ResolveFreeEvidence(slotTick: nat, slotInstance: nat, record: FreeRecord): Evidence {
    var source := if slotTick != 0 then SlotSnapshot else SourceNone;
    if record.Freed? && record.freeTick != 0 then
      var preferred := PreferNewestFreeTick(slotTick, record.freeTick);
      if preferred != slotTick || source.SourceNone?
      then Evidence(preferred, record.allocInstance, FreeRing)
      else Evidence(slotTick, slotInstance, source)
    else Evidence(slotTick, slotInstance, source)
  }

  /** What the trap path and, later, the drainer conclude about one write: the drainer starts
      from the evidence the trap has already resolved into the report. */
  function ContextAtTrap(slotTick: nat, slotInstance: nat, record: FreeRecord,
                         armInstance: nat, armTick: nat, trapTick: nat): FreeContext {
    var e := ResolveFreeEvidence(slotTick, slotInstance, record);
    ClassifyWithInstance(MatchFreeInstance(armInstance, e.instance), e.tick, armTick, trapTick, BOOKKEEPING_WINDOW_MS)
  }

  function ContextAtDrain(slotTick: nat, slotInstance: nat, atTrap: FreeRecord, atDrain: FreeRecord,
                          armInstance: nat, armTick: nat, trapTick: nat): FreeContext {
    var e := ResolveFreeEvidence(slotTick, slotInstance, atTrap);
    ContextAtTrap(e.tick, e.instance, atDrain, armInstance, armTick, trapTick)
  }

  /** What the recorded free means for a write, by how long after the free it came: within the
      window on either side it is the allocator's own, at or after the free the link of the freed
      block and before it a reallocation in progress; outside it is a delayed write. */
  lemma ContextIsTheDistance(freeTick: nat, armTick: nat, trapTick: nat, window: nat)
    ensures var context := ClassifyWriteAgainstFree(freeTick, armTick, trapTick, window);
            var after := trapTick as int - freeTick;
            var evidence := freeTick != 0 && (armTick == 0 || armTick <= freeTick);
            && (context.Live? <==> freeTick == 0)
            && (context.FreePredatesArm? <==> 0 < freeTick < armTick)
            && (context.PostFreeLink? <==> evidence && 0 <= after <= window)
            && (context.ReallocInProgress? <==> evidence && -(window as int) <= after < 0)
            && (context.DelayedWriteAfterFree? <==> evidence && (after < -(window as int) || window < after))
  {
  }

  /** A free of another allocation explains nothing: with two known instances that differ, any
      write after the arm is reported as predating the allocation, and only then. */
  lemma OtherInstanceExplainsNothing(
    armed: nat, freed: nat, freeTick: nat, armTick: nat, trapTick: nat, window: nat)
    ensures var m := MatchFreeInstance(armed, freed);
            var context := ClassifyWithInstance(m, freeTick, armTick, trapTick, window);
            && (context.FreePredatesAllocation? <==>
                  && 0 < armed && 0 < freed && armed != freed
                  && freeTick != 0 && (armTick == 0 || armTick <= freeTick))
            && (!context.FreePredatesAllocation? ==>
                  context == ClassifyWriteAgainstFree(freeTick, armTick, trapTick, window))
  {
  }

  /** Resolving resolved evidence against an unchanged free ring changes neither the tick nor
      the instance, so the drainer reaches the context the trap reached. */
  lemma EvidenceIsStable(slotTick: nat, slotInstance: nat, record: FreeRecord,
                         armInstance: nat, armTick: nat, trapTick: nat)
    ensures var e := ResolveFreeEvidence(slotTick, slotInstance, record);
            var again := ResolveFreeEvidence(e.tick, e.instance, record);
            again.tick == e.tick && again.instance == e.instance
    ensures ContextAtDrain(slotTick, slotInstance, record, record, armInstance, armTick, trapTick)
         == ContextAtTrap(slotTick, slotInstance, record, armInstance, armTick, trapTick)
  {
  }

  /** The evidence only ever moves forward in time: the free ring's record is taken exactly when it
      is newer than the slot's own release, and the instance always comes with its tick. */
  lemma EvidenceIsNewest(slotTick: nat, slotInstance: nat, record: FreeRecord)
    ensures var e := ResolveFreeEvidence(slotTick, slotInstance, record);
            && slotTick <= e.tick
            && (record.Freed? ==> record.freeTick <= e.tick)
            && (e.source.FreeRing? <==> record.Freed? && slotTick < record.freeTick)
            && (e.source.SourceNone? <==> e.tick == 0)
            && if e.source.FreeRing? then e.tick == record.freeTick && e.instance == record.allocInstance
               else e.tick == slotTick && e.instance == slotInstance
  {
  }

  /** Knowing the allocation instance can only un-silence a write: it is silent with the
      instance exactly when it is silent by ticks alone and the instance does not differ. */
  lemma InstanceOnlyUnsilences(m: InstanceMatch, freeTick: nat, armTick: nat, trapTick: nat, window: nat)
    ensures ClassifyWithInstance(m, freeTick, armTick, trapTick, window).IsBookkeeping()
       <==> ClassifyWriteAgainstFree(freeTick, armTick, trapTick, window).IsBookkeeping() && !m.Different?
  {
  }

  // ---------------------------------------------------------------- reporting a write

  datatype WriteKind = Benign | Degradation

  /** The drainer's last word on a recorded write. */
  function ClassifyWatchedWrite(valueAtArm: nat, armedWasCode: bool, valueAfter: nat, readable: bool, afterIsCode: bool)
    : WriteKind
  {
    if !readable then Benign
    else if valueAfter == valueAtArm then Benign
    else if !armedWasCode then Benign
    else if !afterIsCode then Degradation
    else Benign
  }

  /** Whether the trap handler records a write, and with that stops the watch on its thread. */
  predicate TrapRecords(
    owner: TrapOwner, valueAtArm: nat, armedWasCode: bool, valueAfter: nat, readable: bool,
    context: FreeContext, armTick: nat, now: nat, graceMs: nat)
  {
    && armedWasCode && readable && valueAfter != valueAtArm
    && !context.IsBookkeeping()
    && (owner.IsStale() ==> armTick != 0 && now >= armTick && now - armTick <= graceMs)
  }

  /** Whether a write the trap has recorded is reported by the drainer, from the same evidence. */
  predicate DrainReports(
    valueAtArm: nat, armedWasCode: bool, valueAfter: nat, readable: bool, afterIsCode: bool, context: FreeContext)
  {
    && !context.IsBookkeeping()
    && ClassifyWatchedWrite(valueAtArm, armedWasCode, valueAfter, readable, afterIsCode).Degradation?
  }

  /** End to end: a write is recorded and reported exactly when it clobbers a code pointer with
      something readable that is not code, no free within the window explains it, and the arm is
      not stale for longer than the grace period. The trap never holds back what the drainer
      would report, except for stale arms. */
  lemma ReportedIffClobbered(
    owner: TrapOwner, valueAtArm: nat, armedWasCode: bool, valueAfter: nat, readable: bool, afterIsCode: bool,
    context: FreeContext, armTick: nat, now: nat, graceMs: nat)
    ensures var recorded := TrapRecords(owner, valueAtArm, armedWasCode, valueAfter, readable,
                                        context, armTick, now, graceMs);
            var reported := DrainReports(valueAtArm, armedWasCode, valueAfter, readable, afterIsCode, context);
            && (recorded && reported <==>
                  && armedWasCode && readable && valueAfter != valueAtArm && !afterIsCode
                  && !context.PostFreeLink? && !context.ReallocInProgress?
                  && (owner.IsStale() ==> 0 < armTick <= now <= armTick + graceMs))
            && (reported && !owner.IsStale() ==> recorded)
  {
  }
}
