/** One trace ring as a sequential object (src/Ipc/ShmRing.cpp): publishing into it, and
    draining it when no producer is running. RingProtocol covers the interleavings; this
    module is about the exact arithmetic of the gap a lapped consumer reports. */
module TraceRing {
  import opened Arithmetic
  import opened ShmLayout

  datatype Event = Event(
    id: nat, tick: nat, ptr: nat, aux: nat, size: nat, site: nat,
    kind: nat, threadId: nat, stackId: nat, flags: nat)

  datatype Slot = Slot(version: nat, event: Event)

  /** The value of a ring: its header fields and its slots. */
  datatype RingState = RingState(
    ownerThread: nat, writeSeq: nat, readSeq: nat, drops: nat,
    lastActiveTick: nat, claimedAtTick: nat, generation: nat,
    slots: seq<Slot>)

  const TOUCH_INTERVAL: nat := 4096

  // ---------------------------------------------------------------- specification

  function Renewed(r: RingState, now: nat): RingState {
    r.(writeSeq := 0, readSeq := 0, drops := 0, lastActiveTick := now, claimedAtTick := now,
       generation := r.generation + 1)
  }

  function Written(r: RingState, id: Id, event: Event): RingState
    requires 0 < |r.slots|
  {
    r.(slots := r.slots[SlotIndex(id, |r.slots|) := Slot(VersionFor(id, false), event.(id := id))],
       writeSeq := id,
       lastActiveTick := if id % TOUCH_INTERVAL == 0 then event.tick else r.lastActiveTick)
  }

  datatype Drained = Drained(events: seq<Event>, dropped: nat, deferred: nat, next: Id)

  /** What the drain loop does from record `next` on: any ring, whatever its slots hold. */
  function DrainFrom(r: RingState, next: Id): Drained
    requires 0 < |r.slots|
    decreases r.writeSeq + 1 - next
  {
    if next > r.writeSeq then Drained([], 0, 0, next)
    else
      var slot := r.slots[SlotIndex(next, |r.slots|)];
      var id := SeqOfVersion(slot.version);
      if VersionIsWriting(slot.version) then Drained([], 0, 1, next)
      else if id > next then
        var rest := DrainFrom(r, id);
        rest.(dropped := (id - next) + rest.dropped)
      else if id < next then
        var rest := DrainFrom(r, next + 1);
        rest.(dropped := 1 + rest.dropped)
      else
        var rest := DrainFrom(r, next + 1);
        rest.(events := [slot.event] + rest.events)
  }

  /** A drain that has delivered and given up something before the rest. */
  function Before(sink: seq<Event>, dropped: nat, rest: Drained): Drained {
    Drained(sink + rest.events, dropped + rest.dropped, rest.deferred, rest.next)
  }

  /** One turn of the drain loop, whatever came before it. */
  lemma DrainTurn(r: RingState, next: Id, sink: seq<Event>, dropped: nat)
    requires 0 < |r.slots|
    ensures var whole := Before(sink, dropped, DrainFrom(r, next));
            if next > r.writeSeq then whole == Drained(sink, dropped, 0, next)
            else
              var slot := r.slots[SlotIndex(next, |r.slots|)];
              var id := SeqOfVersion(slot.version);
              if VersionIsWriting(slot.version) then whole == Drained(sink, dropped, 1, next)
              else if id > next then whole == Before(sink, dropped + (id - next), DrainFrom(r, id))
              else if id < next then whole == Before(sink, dropped + 1, DrainFrom(r, next + 1))
              else whole == Before(sink + [slot.event], dropped, DrainFrom(r, next + 1))
  {
    assert sink + [] == sink;
    if next <= r.writeSeq {
      var slot := r.slots[SlotIndex(next, |r.slots|)];
      var rest := DrainFrom(r, next + 1);
      assert sink + ([slot.event] + rest.events) == (sink + [slot.event]) + rest.events;
    }
  }

  function AfterDrain(r: RingState): RingState
    requires 0 < |r.slots|
  {
    var d := DrainFrom(r, r.readSeq + FIRST_SEQ);
    r.(readSeq := d.next - FIRST_SEQ, drops := r.drops + d.dropped)
  }

  // ---------------------------------------------------------------- the object

  class Ring {
    var ownerThread: nat
    var writeSeq: nat
    var readSeq: nat
    var drops: nat
    var lastActiveTick: nat
    var claimedAtTick: nat
    var generation: nat
    const slots: array<Slot>

    ghost function View(): RingState
      reads this, slots
    {
      RingState(ownerThread, writeSeq, readSeq, drops, lastActiveTick, claimedAtTick, generation, slots[..])
    }

    constructor (capacity: nat)
      requires 0 < capacity
      ensures fresh(slots) && slots.Length == capacity
      ensures ownerThread == writeSeq == readSeq == drops == generation == 0
      ensures forall i :: 0 <= i < capacity ==> slots[i].version == 0
    {
      ownerThread, writeSeq, readSeq, drops, generation := 0, 0, 0, 0, 0;
      lastActiveTick, claimedAtTick := 0, 0;
      var none := Event(0, 0, 0, 0, 0, 0, 0, 0, 0, 0);
      slots := new Slot[capacity](i => Slot(0, none));
    }

    method BeginGeneration(now: nat)
      modifies this
      ensures View() == Renewed(old(View()), now)
    {
      writeSeq := 0;
      readSeq := 0;
      drops := 0;
      lastActiveTick := now;
      claimedAtTick := now;
      generation := generation + 1;
    }

    /** The storing part of Publish: invalidate, copy, publish the version, publish the id. */
    method Store(id: Id, event: Event)
      requires 0 < slots.Length
      modifies this, slots
      ensures View() == Written(old(View()), id, event)
    {
      var i := SlotIndex(id, slots.Length);
      slots[i] := slots[i].(version := VersionFor(id, true));
      slots[i] := slots[i].(event := event.(id := id));
      slots[i] := slots[i].(version := VersionFor(id, false));
      writeSeq := id;
      if id % TOUCH_INTERVAL == 0 {
        lastActiveTick := event.tick;
      }
      assert slots[..] == old(slots[..])[i := Slot(VersionFor(id, false), event.(id := id))];
    }

    method Drain() returns (sink: seq<Event>, dropped: nat, deferred: nat)
      requires 0 < slots.Length
      modifies this
      ensures View() == AfterDrain(old(View()))
      ensures Drained(sink, dropped, deferred, readSeq + FIRST_SEQ) == DrainFrom(old(View()), old(readSeq) + FIRST_SEQ)
    {
      ghost var r := View();
      var next: Id := readSeq + FIRST_SEQ;
      sink, dropped, deferred := [], 0, 0;
      assert Before([], 0, DrainFrom(r, next)) == DrainFrom(r, next);
      while next <= writeSeq && deferred == 0
        invariant View() == r && deferred <= 1
        invariant DrainFrom(r, r.readSeq + FIRST_SEQ)
               == if deferred == 1 then Drained(sink, dropped, 1, next) else Before(sink, dropped, DrainFrom(r, next))
        decreases writeSeq + 1 - next, 1 - deferred
      {
        DrainTurn(r, next, sink, dropped);
        var slot := slots[SlotIndex(next, slots.Length)];
        var id := SeqOfVersion(slot.version);
        if VersionIsWriting(slot.version) {
          deferred := deferred + 1;
        } else if id > next {
          dropped := dropped + (id - next);
          next := id;
        } else if id < next {
          dropped := dropped + 1;
          next := next + 1;
        } else {
          sink := sink + [slot.event];
          next := next + 1;
        }
      }
      if deferred == 0 {
        DrainTurn(r, next, sink, dropped);
      }
      readSeq := next - FIRST_SEQ;
      drops := drops + dropped;
    }
  }

  // ---------------------------------------------------------------- what a drain delivers

  /** The ring has published exactly the records of `history` since it was claimed, and no
      store is in progress. Slots outside the current window may hold anything. */
  ghost predicate Holds(r: RingState, history: seq<Event>) {
    && 0 < |r.slots|
    && |history| == r.writeSeq && r.readSeq <= r.writeSeq
    && (forall k :: 0 <= k < |history| ==> history[k].id == k + 1)
    && (forall id: Id :: InWindow(r, id) ==>
          r.slots[SlotIndex(id, |r.slots|)] == Slot(VersionFor(id, false), history[id - 1]))
  }

  ghost predicate InWindow(r: RingState, id: Id) {
    id <= r.writeSeq < id + |r.slots|
  }

  lemma RenewedHolds(r: RingState, now: nat)
    requires 0 < |r.slots|
    ensures Holds(Renewed(r, now), [])
  {
  }

  /** Publishing extends the history by the stamped record. */
  lemma WrittenHolds(r: RingState, history: seq<Event>, event: Event)
    requires Holds(r, history)
    ensures var id := |history| + 1;
            Holds(Written(r, id, event), history + [event.(id := id)])
  {
    var id := |history| + 1;
    var r' := Written(r, id, event);
    forall k: Id | InWindow(r', k)
      ensures r'.slots[SlotIndex(k, |r'.slots|)] == Slot(VersionFor(k, false), (history + [event.(id := id)])[k - 1])
    {
      if k < id {
        NearbyRecordsUseDistinctSlots(k, id, |r.slots|);
        assert InWindow(r, k);
      }
    }
  }

  /** From inside the window on, a drain delivers everything that is left. */
  lemma {:induction false} DrainInsideWindow(r: RingState, history: seq<Event>, next: Id)
    requires Holds(r, history)
    requires InWindow(r, next) || next == r.writeSeq + 1
    ensures DrainFrom(r, next) == Drained(history[next - 1..], 0, 0, r.writeSeq + 1)
    decreases r.writeSeq + 1 - next
  {
    if next == r.writeSeq + 1 {
    } else {
      DrainInsideWindow(r, history, next + 1);
      assert history[next - 1..] == [history[next - 1]] + history[next..];
    }
  }

  /** How many records a drain from read cursor `read` gives up on. */
  function Gap(read: nat, written: nat, capacity: nat): nat
    requires 0 < capacity
  {
    if written <= read then 0 else capacity * ((written - read - 1) / capacity)
  }

  /** Exact gap arithmetic: the drain of a quiescent ring loses exactly the whole laps
      between the cursors and delivers every record after them, in order. */
  lemma DrainDeliversTheSuffix(r: RingState, history: seq<Event>)
    requires Holds(r, history)
    ensures var lost := Gap(r.readSeq, r.writeSeq, |r.slots|);
            && r.readSeq + lost <= r.writeSeq
            && DrainFrom(r, r.readSeq + FIRST_SEQ) == Drained(history[r.readSeq + lost..], lost, 0, r.writeSeq + 1)
    ensures Holds(AfterDrain(r), history) && AfterDrain(r).readSeq == r.writeSeq
  {
    DrainFromTheGap(r, history);
    AfterDrainHolds(r, history);
  }

  lemma DrainFromTheGap(r: RingState, history: seq<Event>)
    requires Holds(r, history)
    ensures var lost := Gap(r.readSeq, r.writeSeq, |r.slots|);
            && r.readSeq + lost <= r.writeSeq
            && DrainFrom(r, r.readSeq + FIRST_SEQ) == Drained(history[r.readSeq + lost..], lost, 0, r.writeSeq + 1)
  {
    var next := r.readSeq + FIRST_SEQ;
    if next <= r.writeSeq {
      var id := LastOfSlot(next, r.writeSeq, |r.slots|);
      assert id == next + Gap(r.readSeq, r.writeSeq, |r.slots|);
      assert InWindow(r, id);
      DrainInsideWindow(r, history, id);
      if next < id {
        assert DrainFrom(r, next).events == DrainFrom(r, id).events;
      }
    }
  }

  lemma AfterDrainHolds(r: RingState, history: seq<Event>)
    requires Holds(r, history) && DrainFrom(r, r.readSeq + FIRST_SEQ).next == r.writeSeq + 1
    ensures Holds(AfterDrain(r), history) && AfterDrain(r).readSeq == r.writeSeq
  {
    forall k: Id | InWindow(AfterDrain(r), k)
      ensures r.slots[SlotIndex(k, |r.slots|)] == Slot(VersionFor(k, false), history[k - 1])
    {
      assert InWindow(r, k);
    }
  }

  /** A drain is lossless exactly when the producer is at most one lap ahead. */
  lemma LosslessIffWithinOneLap(read: nat, written: nat, capacity: nat)
    requires 0 < capacity
    ensures Gap(read, written, capacity) == 0 <==> written <= read + capacity
  {
    if read < written {
      var laps := (written - read - 1) / capacity;
      assert laps > 0 ==> capacity * laps >= capacity;
    }
  }

  // ---------------------------------------------------------------- which records a drain skips

  /** Record `id` can still be read: its slot carries its version. */
  predicate Resident(r: RingState, id: Id)
    requires 0 < |r.slots|
  {
    r.slots[SlotIndex(id, |r.slots|)].version == VersionFor(id, false)
  }

  /** A published record is resident exactly while no record a lap later has been published. */
  lemma ResidentIffInWindow(r: RingState, history: seq<Event>, id: Id)
    requires Holds(r, history) && id <= r.writeSeq
    ensures Resident(r, id) <==> InWindow(r, id)
  {
    var last := LastOfSlot(id, r.writeSeq, |r.slots|);
    assert InWindow(r, last);
    assert last == id || last >= id + |r.slots| by {
      WholeLaps(id, last, |r.slots|);
    }
  }

  lemma WholeLaps(id: Id, last: Id, capacity: nat)
    requires 0 < capacity && id <= last && SlotIndex(last, capacity) == SlotIndex(id, capacity)
    ensures last == id || last >= id + capacity
  {
    if id < last < id + capacity {
      NearbyRecordsUseDistinctSlots(id, last, capacity);
    }
  }

  /** The drain of `r` gives record `id` up. */
  predicate Skips(r: RingState, id: Id)
    requires 0 < |r.slots|
  {
    r.readSeq < id <= r.readSeq + Gap(r.readSeq, r.writeSeq, |r.slots|)
  }

  /** The consumer never under-reports a loss: every undelivered record that is gone is among
      those it gives up. It gives up only such records exactly when it is within one lap or a
      whole number of laps behind; otherwise it skips records it could still have read. */
  lemma SkipsOnlyTheGoneIffWholeLaps(r: RingState, history: seq<Event>)
    requires Holds(r, history)
    ensures forall id: Id :: r.readSeq < id <= r.writeSeq && !Resident(r, id) ==> Skips(r, id)
    ensures (forall id: Id :: Skips(r, id) ==> !Resident(r, id))
       <==> r.writeSeq <= r.readSeq + |r.slots| || (r.writeSeq - r.readSeq) % |r.slots| == 0
  {
    var c, lost := |r.slots|, Gap(r.readSeq, r.writeSeq, |r.slots|);
    DrainDeliversTheSuffix(r, history);
    GapReachesTheWindow(r.readSeq, r.writeSeq, c);
    forall id: Id | r.readSeq < id <= r.writeSeq
      ensures Resident(r, id) <==> InWindow(r, id)
    {
      ResidentIffInWindow(r, history, id);
    }
    if r.readSeq + c < r.writeSeq && r.writeSeq < r.readSeq + lost + c {
      var id: Id := r.readSeq + lost;
      assert Skips(r, id) && Resident(r, id);
    }
  }

  /** A lapped drain ends at most a lap from the end, and exactly a lap from it after whole laps. */
  lemma GapReachesTheWindow(read: nat, written: nat, capacity: nat)
    requires 0 < capacity && read <= written
    ensures var lost := Gap(read, written, capacity);
            && written <= read + lost + capacity
            && (written <= read + capacity ==> lost == 0)
            && (read + capacity < written ==>
                  0 < lost && (written == read + lost + capacity <==> (written - read) % capacity == 0))
  {
    LosslessIffWithinOneLap(read, written, capacity);
    if read + capacity < written {
      var n := written - read - 1;
      var laps, rem := n / capacity, n % capacity;
      assert n == capacity * laps + rem;
      if rem + 1 == capacity {
        assert written - read == capacity * (laps + 1);
        MultipleLeavesNoRemainder(laps + 1, capacity);
      } else {
        UniqueQuotient(written - read, capacity, laps, rem + 1);
      }
    }
  }

  /** 100 records published into a ring of 64 slots, none of them drained. */
  function LappedHistory(): seq<Event> {
    seq(100, k requires 0 <= k < 100 => Event(k + 1, 0, 0, 0, 0, 0, 0, 0, 0, 0))
  }

  function LappedRing(): RingState {
    RingState(1, 100, 0, 0, 0, 0, 1, seq(64, i requires 0 <= i < 64 =>
      var id := if i < 36 then 65 + i else 1 + i;
      Slot(VersionFor(id, false), Event(id, 0, 0, 0, 0, 0, 0, 0, 0, 0))))
  }

  lemma SlotOfEarly(id: Id)
    requires id <= 128
    ensures SlotIndex(id, 64) == if id <= 64 then id - 1 else id - 65
  {
  }

  /** Its drain delivers records 65 to 100 only, although 37 to 64 are still in their slots. */
  lemma SkipsResidentRecords()
    ensures Holds(LappedRing(), LappedHistory())
    ensures DrainFrom(LappedRing(), 1) == Drained(LappedHistory()[64..], 64, 0, 101)
    ensures forall id: Id :: 36 < id <= 64 ==> Resident(LappedRing(), id) && Skips(LappedRing(), id)
  {
    var r, history := LappedRing(), LappedHistory();
    forall id: Id | id <= 100
      ensures SlotIndex(id, 64) == if id <= 64 then id - 1 else id - 65
    {
      SlotOfEarly(id);
    }
    assert Holds(r, history);
    assert Gap(0, 100, 64) == 64;
    DrainDeliversTheSuffix(r, history);
  }
}
