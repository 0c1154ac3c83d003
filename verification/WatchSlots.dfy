/** The four-slot watch table (src/Core/WatchpointSlots.cpp), one call at a time. A slot may be
    found busy, that is claimed by a writer that has not published yet; every operation skips
    such slots. */
module WatchSlots {
  import opened WatchEncoding

  datatype WatchSlot = WatchSlot(
    busy: bool,
    address: Address, valueAtArm: nat, allocSite: nat,
    armedTick: nat, freeTick: nat,
    allocInstance: nat, freeInstance: nat,
    generation: nat, threadId: nat, armedWasCode: bool,
    tripped: bool, released: bool)
  {
    /** Claimable: empty, or holding a block that has been released. */
    predicate Free() {
      !busy && (address == 0 || released)
    }

    /** Holding a block that has not been released. */
    predicate Held() {
      !busy && address != 0 && !released
    }

    /** Part of the set a sweep writes to the debug registers. */
    predicate Armable() {
      Held() && !tripped
    }
  }

  const EMPTY_SLOT := WatchSlot(false, 0, 0, 0, 0, 0, 0, 0, 0, 0, false, false, false)

  /** The address slot `s` contributes to DR0-DR3. */
  function SnapAddress(s: WatchSlot): Address {
    if s.Armable() then s.address else 0
  }

  function ReleasedAt(s: WatchSlot, tick: nat, freeInstance: nat): WatchSlot {
    s.(released := true, armedTick := tick, freeTick := tick, freeInstance := freeInstance)
  }

  /** A slot as shutdown leaves it: free, released at `tick`, with nothing of its block but the
      identity of who armed it. */
  function Cleared(s: WatchSlot, tick: nat): WatchSlot {
    ReleasedAt(s.(address := 0, valueAtArm := 0, armedWasCode := false, allocSite := 0, tripped := false), tick, 0)
  }

  /** A release stamps both ticks of its slot, so whatever the free ring says later, the
      evidence about that slot never predates its arm. */
  lemma ReleasedSlotNeverPredatesItsArm(s: WatchSlot, tick: nat, freeInstance: nat, record: FreeRecord, trapTick: nat)
    ensures var r := ReleasedAt(s, tick, freeInstance);
            && tick <= ResolveFreeEvidence(r.freeTick, r.freeInstance, record).tick
            && ContextAtTrap(r.freeTick, r.freeInstance, record, r.allocInstance, r.armedTick, trapTick)
               != FreePredatesArm
  {
  }

  function Count(slots: seq<WatchSlot>): nat {
    if slots == [] then 0 else Count(slots[..|slots| - 1]) + if slots[|slots| - 1].Held() then 1 else 0
  }

  /** The slots whose claim ClearAll tries and does not get. */
  function Contended(slots: seq<WatchSlot>, lost: set<nat>): nat {
    if slots == [] then 0
    else
      var n := |slots| - 1;
      Contended(slots[..n], lost) + if n in lost && !slots[n].busy && !slots[n].released then 1 else 0
  }

  lemma {:induction false} CountAfterUpdate(slots: seq<WatchSlot>, i: nat, s: WatchSlot)
    requires i < |slots|
    ensures Count(slots[i := s]) + (if slots[i].Held() then 1 else 0) == Count(slots) + if s.Held() then 1 else 0
  {
    var n := |slots| - 1;
    if i < n {
      CountAfterUpdate(slots[..n], i, s);
      assert slots[i := s][..n] == slots[..n][i := s];
    } else {
      assert slots[i := s][..n] == slots[..n];
    }
  }

  lemma {:induction false} CountIsFullIffAllHeld(slots: seq<WatchSlot>)
    ensures Count(slots) <= |slots|
    ensures Count(slots) == |slots| <==> forall i :: 0 <= i < |slots| ==> slots[i].Held()
  {
    if slots == [] {
    } else {
      var n := |slots| - 1;
      CountIsFullIffAllHeld(slots[..n]);
      assert forall i :: 0 <= i < n ==> slots[..n][i] == slots[i];
    }
  }

  class WatchTable {
    const slots: array<WatchSlot>
    var claims: nat
    var claimDrops: nat
    var releases: nat
    var trips: nat
    var rotations: nat

    ghost predicate Valid() {
      slots.Length == SLOTS
    }

    constructor ()
      ensures Valid() && fresh(slots)
      ensures forall i :: 0 <= i < SLOTS ==> slots[i] == EMPTY_SLOT
    {
      slots := new WatchSlot[SLOTS](i => EMPTY_SLOT);
      claims, claimDrops, releases, trips, rotations := 0, 0, 0, 0, 0;
    }

    /** Takes the first free slot. A held watch is never overwritten, and the claim is dropped
        and counted only when no slot is free or every attempt is `lost` to another writer. */
    method Claim(address: Address, valueAtArm: nat, armedWasCode: bool, allocSite: nat, tick: nat,
                 generation: nat, threadId: nat, allocInstance: nat, lost: bool) returns (ok: bool, index: nat)
      requires Valid()
      modifies slots, this`claims, this`claimDrops
      ensures ok <==> address != 0 && !lost && exists i :: 0 <= i < SLOTS && old(slots[i]).Free()
      ensures Count(slots[..]) == old(Count(slots[..])) + if ok then 1 else 0
      ensures ok ==>
                && index < SLOTS && old(slots[index]).Free()
                && (forall i :: 0 <= i < index ==> !old(slots[i]).Free())
                && slots[..] == old(slots[..])[index :=
                     WatchSlot(false, address, valueAtArm, allocSite, tick, 0, allocInstance, 0,
                               generation, threadId, armedWasCode, false, false)]
      ensures !ok ==> slots[..] == old(slots[..])
      ensures claims == old(claims) + (if ok then 1 else 0)
      ensures claimDrops == old(claimDrops) + (if !ok && address != 0 then 1 else 0)
    {
      if address == 0 {
        return false, 0;
      }
      index := 0;
      while index < SLOTS
        invariant index <= SLOTS && slots[..] == old(slots[..])
        invariant claims == old(claims) && claimDrops == old(claimDrops)
        invariant forall i :: 0 <= i < index ==> !slots[i].Free()
      {
        if !slots[index].busy && (slots[index].address == 0 || slots[index].released) {
          if lost {
            claimDrops := claimDrops + 1;
            return false, 0;
          }
          ghost var before := slots[..];
          slots[index] := WatchSlot(false, address, valueAtArm, allocSite, tick, 0, allocInstance, 0,
                                    generation, threadId, armedWasCode, false, false);
          assert slots[..] == before[index := slots[index]];
          CountAfterUpdate(before, index, slots[index]);
          claims := claims + 1;
          return true, index;
        }
        index := index + 1;
      }
      claimDrops := claimDrops + 1;
      return false, 0;
    }

    /** Releases the first slot that holds `address`, stamping both of its ticks, unless every
        attempt to claim that slot is `lost`. */
    method Release(address: Address, tick: nat, freeInstance: nat, lost: bool) returns (ok: bool, ghost index: nat)
      requires Valid()
      modifies slots, this`releases, this`claimDrops
      ensures ok <==> !lost && exists i :: 0 <= i < SLOTS && old(slots[i]).Held() && old(slots[i]).address == address
      ensures Count(slots[..]) + (if ok then 1 else 0) == old(Count(slots[..]))
      ensures claimDrops == old(claimDrops)
                + if lost && exists i :: 0 <= i < SLOTS && old(slots[i]).Held() && old(slots[i]).address == address
                  then 1 else 0
      ensures ok ==>
                && index < SLOTS && old(slots[index]).Held() && old(slots[index]).address == address
                && (forall i :: 0 <= i < index ==> !(old(slots[i]).Held() && old(slots[i]).address == address))
                && slots[..] == old(slots[..])[index := ReleasedAt(old(slots[index]), tick, freeInstance)]
      ensures !ok ==> slots[..] == old(slots[..])
      ensures releases == old(releases) + if ok then 1 else 0
    {
      index := 0;
      if address == 0 {
        return false, 0;
      }
      var i := 0;
      while i < SLOTS
        invariant i <= SLOTS && slots[..] == old(slots[..])
        invariant releases == old(releases) && claimDrops == old(claimDrops)
        invariant forall k :: 0 <= k < i ==> !(slots[k].Held() && slots[k].address == address)
      {
        if !slots[i].busy && slots[i].address == address && !slots[i].released {
          if lost {
            claimDrops := claimDrops + 1;
            return false, 0;
          }
          ghost var before := slots[..];
          slots[i] := slots[i].(released := true, armedTick := tick, freeTick := tick, freeInstance := freeInstance);
          assert slots[..] == before[i := slots[i]];
          CountAfterUpdate(before, i, slots[i]);
          releases := releases + 1;
          return true, i;
        }
        i := i + 1;
      }
      return false, 0;
    }

    method MarkTripped(index: nat, tick: nat, lost: bool) returns (ok: bool)
      requires Valid()
      modifies slots, this`trips, this`claimDrops
      ensures ok <==> index < SLOTS && !old(slots[index]).busy && !lost
      ensures slots[..] == if ok then old(slots[..])[index := old(slots[index]).(tripped := true, armedTick := tick)]
                           else old(slots[..])
      ensures trips == old(trips) + if ok then 1 else 0
      ensures claimDrops == old(claimDrops) + if index < SLOTS && !old(slots[index]).busy && lost then 1 else 0
    {
      if index >= SLOTS || slots[index].busy {
        return false;
      }
      if lost {
        claimDrops := claimDrops + 1;
        return false;
      }
      slots[index] := slots[index].(tripped := true, armedTick := tick);
      trips := trips + 1;
      return true;
    }

    /** Releases a watch on the address that has been held longest, once it has been held for
        `maxHoldMs`. Only one slot changes, and it held an address of minimal arm tick. */
    method RotateOldest(now: nat, maxHoldMs: nat, lost: bool) returns (ok: bool, ghost oldest: nat)
      requires Valid()
      modifies slots, this`releases, this`rotations, this`claimDrops
      ensures ok <==> !lost && exists i :: 0 <= i < SLOTS && old(slots[i]).Held()
                                           && old(slots[i]).armedTick + maxHoldMs <= now
      ensures ok ==>
                && oldest < SLOTS && old(slots[oldest]).Held()
                && (forall i :: 0 <= i < SLOTS && old(slots[i]).Held() ==>
                      old(slots[oldest]).armedTick <= old(slots[i]).armedTick)
                && exists i :: 0 <= i <= oldest && old(slots[i]).Held()
                     && old(slots[i]).address == old(slots[oldest]).address
                     && slots[..] == old(slots[..])[i := ReleasedAt(old(slots[i]), now, 0)]
      ensures !ok ==> slots[..] == old(slots[..])
      ensures rotations == old(rotations) + (if ok then 1 else 0) && releases == old(releases) + if ok then 1 else 0
      ensures claimDrops == old(claimDrops)
                + if lost && exists i :: 0 <= i < SLOTS && old(slots[i]).Held()
                                         && old(slots[i]).armedTick + maxHoldMs <= now
                  then 1 else 0
    {
      var best: nat := SLOTS;
      var i := 0;
      while i < SLOTS
        invariant i <= SLOTS && slots[..] == old(slots[..])
        invariant best == SLOTS ==> forall k :: 0 <= k < i ==> !slots[k].Held()
        invariant best != SLOTS ==>
                    && best < i && slots[best].Held()
                    && (forall k :: 0 <= k < i && slots[k].Held() ==> slots[best].armedTick <= slots[k].armedTick)
        invariant best <= SLOTS
      {
        if !slots[i].busy && slots[i].address != 0 && !slots[i].released {
          if best == SLOTS || slots[i].armedTick < slots[best].armedTick {
            best := i;
          }
        }
        i := i + 1;
      }
      oldest := best;
      if best == SLOTS {
        return false, oldest;
      }
      if now < slots[best].armedTick || now - slots[best].armedTick < maxHoldMs {
        return false, oldest;
      }
      ghost var released;
      ok, released := Release(slots[best].address, now, 0, lost);
      if ok {
        assert released <= best;
        rotations := rotations + 1;
      }
    }

    /** The set the arming sweep writes to DR0-DR3: empty, busy, released and tripped slots
        contribute 0, and so do slots whose copy is `torn` by a writer. */
    method Snapshot(torn: set<nat>) returns (addresses: Addresses, count: nat)
      requires Valid()
      ensures forall i :: 0 <= i < SLOTS ==> addresses[i] == if i in torn then 0 else SnapAddress(slots[i])
      ensures count == |set i | 0 <= i < SLOTS && addresses[i] != 0|
    {
      addresses, count := [0, 0, 0, 0], 0;
      var i := 0;
      ghost var armed: set<int> := {};
      while i < SLOTS
        invariant i <= SLOTS
        invariant forall k :: 0 <= k < i ==> addresses[k] == if k in torn then 0 else SnapAddress(slots[k])
        invariant forall k :: i <= k < SLOTS ==> addresses[k] == 0
        invariant armed == set k | 0 <= k < i && addresses[k] != 0
        invariant count == |armed|
      {
        var s := slots[i];
        if !s.busy && s.address != 0 && !s.released && !s.tripped && i !in torn {
          addresses := addresses[i := s.address];
          count := count + 1;
          armed := armed + {i};
        }
        i := i + 1;
      }
      assert armed == set i | 0 <= i < SLOTS && addresses[i] != 0;
    }

    /** The trap path's read of one slot: released and tripped slots are still visible. */
    method ReadSlot(index: nat, torn: bool) returns (ok: bool, s: WatchSlot)
      requires Valid()
      ensures ok <==> index < SLOTS && !slots[index].busy && slots[index].address != 0 && !torn
      ensures s == if ok then slots[index] else EMPTY_SLOT
    {
      if index >= SLOTS || slots[index].busy || slots[index].address == 0 || torn {
        return false, EMPTY_SLOT;
      }
      return true, slots[index];
    }

    /** Shutdown: afterwards no slot holds a block, except those that are busy or whose claim is
        `lost` to another writer. */
    method ClearAll(tick: nat, lost: set<nat>) returns (cleared: nat)
      requires Valid()
      modifies slots, this`claimDrops
      ensures forall i :: 0 <= i < SLOTS ==>
                if old(slots[i]).busy || old(slots[i]).released || i in lost then slots[i] == old(slots[i])
                else slots[i] == Cleared(old(slots[i]), tick)
      ensures cleared + Count(slots[..]) == old(Count(slots[..]))
      ensures claimDrops == old(claimDrops)
                + Contended(old(slots[..]), lost)
    {
      cleared := 0;
      var i := 0;
      while i < SLOTS
        invariant i <= SLOTS
        invariant forall k :: i <= k < SLOTS ==> slots[k] == old(slots[k])
        invariant forall k :: 0 <= k < i ==>
                    if old(slots[k]).busy || old(slots[k]).released || k in lost then slots[k] == old(slots[k])
                    else slots[k] == Cleared(old(slots[k]), tick)
        invariant cleared + Count(slots[..]) == old(Count(slots[..]))
        invariant claimDrops == old(claimDrops) + Contended(old(slots[..])[..i], lost)
      {
        ghost var before := slots[..];
        assert old(slots[..])[..i + 1][..i] == old(slots[..])[..i];
        var s := slots[i];
        if !s.busy && !s.released {
          if i in lost {
            claimDrops := claimDrops + 1;
          } else {
            if s.address != 0 {
              cleared := cleared + 1;
            }
            slots[i] := s.(address := 0, valueAtArm := 0, armedWasCode := false, allocSite := 0, tripped := false,
                           released := true, armedTick := tick, freeTick := tick, freeInstance := 0);
            assert slots[..] == before[i := slots[i]];
            CountAfterUpdate(before, i, slots[i]);
          }
        }
        i := i + 1;
      }
      assert old(slots[..])[..SLOTS] == old(slots[..]);
    }

    method OccupiedCount() returns (n: nat)
      requires Valid()
      ensures n == Count(slots[..])
    {
      n := 0;
      var i := 0;
      while i < SLOTS
        invariant i <= SLOTS && n == Count(slots[..i])
      {
        assert slots[..i + 1][..i] == slots[..i];
        if !slots[i].busy && slots[i].address != 0 && !slots[i].released {
          n := n + 1;
        }
        i := i + 1;
      }
      assert slots[..SLOTS] == slots[..];
    }
  }

  /** A claim that finds no free slot means the table is full of held or busy slots; with no
      writer in flight that is the same as four occupied slots, the test the sweeper makes
      before it promotes a candidate. */
  lemma NoFreeSlotIffFull(slots: seq<WatchSlot>)
    requires |slots| == SLOTS && forall i :: 0 <= i < SLOTS ==> !slots[i].busy
    ensures (forall i :: 0 <= i < SLOTS ==> !slots[i].Free()) <==> Count(slots) == SLOTS
  {
    CountIsFullIffAllHeld(slots);
    assert forall i :: 0 <= i < SLOTS ==> (slots[i].Free() <==> !slots[i].Held());
  }
}
