/** The fixed layout of the shared mapping (src/Ipc/ShmLayout.h) and the slot addressing
    of src/Ipc/ShmRing.h. The program computes offsets in 64-bit unsigned arithmetic, so
    every product and sum here is reduced modulo 2^64; the lemmas show that the reduction
    never bites inside the limits an attaching process enforces. */
module ShmLayout {
  import opened Arithmetic

  const MAX_RINGS: nat := 64
  const FIRST_SEQ: nat := 1

  /** A record id: ids start at 1 so that a zero-filled slot reads as "never written". */
  type Id = n: nat | FIRST_SEQ <= n witness FIRST_SEQ

  const HEADER_BYTES: nat := 512
  const RING_HEADER_BYTES: nat := 128
  const SLOT_BYTES: nat := 72

  // The limits of src/Ipc/ShmSession.h.
  const MAX_SLOT_COUNT: nat := 0x100_0000
  const MAX_MEMCACHE_BYTES: nat := 0x100_0000_0000

  /** The seqlock word of a slot: bit 0 says "being written", the rest is the record id. */
  function VersionFor(id: nat, writing: bool): nat {
    2 * id + (if writing then 1 else 0)
  }

  function SeqOfVersion(version: nat): nat {
    version / 2
  }

  predicate VersionIsWriting(version: nat) {
    version % 2 == 1
  }

  /** The slot of a ring of `capacity` slots that record `id` is stored in. */
  function SlotIndex(id: Id, capacity: nat): (i: nat)
    requires 0 < capacity
    ensures i < capacity
  {
    (id - FIRST_SEQ) % capacity
  }

  datatype Layout = Layout(
    ringHeaderOffset: nat,
    slotsOffset: nat,
    slotCount: nat,
    slotsBytesPerRing: nat,
    memcacheOffset: nat,
    memcacheBytes: nat,
    totalBytes: nat)

  function Compute(slotCount: nat, memcacheBytes: nat): Layout {
    var perRing := U64(slotCount * SLOT_BYTES);
    var slots := U64(HEADER_BYTES + MAX_RINGS * RING_HEADER_BYTES);
    var memcache := U64(slots + U64(MAX_RINGS * perRing));
    Layout(HEADER_BYTES, slots, slotCount, perRing, memcache, memcacheBytes, U64(memcache + memcacheBytes))
  }

  function RingSlotsOffset(l: Layout, ring: nat): nat {
    U64(l.slotsOffset + U64(ring * l.slotsBytesPerRing))
  }

  /** Byte offset of the slot that holds record `id` of `ring`. */
  function SlotOffset(l: Layout, ring: nat, id: Id): nat
    requires 0 < l.slotCount
  {
    U64(RingSlotsOffset(l, ring) + U64(SLOT_BYTES * SlotIndex(id, l.slotCount)))
  }

  predicate WithinLimits(slotCount: nat, memcacheBytes: nat) {
    0 < slotCount <= MAX_SLOT_COUNT && memcacheBytes <= MAX_MEMCACHE_BYTES
  }

  /** A contiguous stretch of the mapping. */
  datatype Region = Region(start: nat, size: nat) {
    predicate Before(other: Region) {
      start + size <= other.start
    }
    predicate Inside(other: Region) {
      other.start <= start && start + size <= other.start + other.size
    }
    predicate Disjoint(other: Region) {
      Before(other) || other.Before(this)
    }
  }

  /** Everything the mapping holds, in address order: the session header, the 64 ring
      headers, the 64 slot areas, and the memcache. */
  function RegionOf(l: Layout, k: nat): Region
    requires k < 2 * MAX_RINGS + 2
  {
    if k == 0 then Region(0, HEADER_BYTES)
    else if k <= MAX_RINGS then Region(l.ringHeaderOffset + (k - 1) * RING_HEADER_BYTES, RING_HEADER_BYTES)
    else if k <= 2 * MAX_RINGS then Region(RingSlotsOffset(l, k - MAX_RINGS - 1), l.slotsBytesPerRing)
    else Region(l.memcacheOffset, l.memcacheBytes)
  }

  lemma ProductMonotone(a: nat, b: nat, x: nat)
    requires a <= b
    ensures a * x <= b * x
  {
  }

  lemma SmallValuesDoNotWrap(x: nat)
    requires x < TWO_64
    ensures U64(x) == x
  {
  }

  lemma OffsetsDoNotWrap(slotCount: nat, memcacheBytes: nat, ring: nat)
    requires WithinLimits(slotCount, memcacheBytes) && ring <= MAX_RINGS
    ensures var l := Compute(slotCount, memcacheBytes);
            && l.slotsBytesPerRing == SLOT_BYTES * slotCount
            && l.slotsOffset == HEADER_BYTES + MAX_RINGS * RING_HEADER_BYTES
            && RingSlotsOffset(l, ring) == l.slotsOffset + ring * l.slotsBytesPerRing
            && l.memcacheOffset == RingSlotsOffset(l, MAX_RINGS)
            && l.totalBytes == l.memcacheOffset + memcacheBytes < TWO_64
  {
    var perRing := SLOT_BYTES * slotCount;
    ProductMonotone(ring, MAX_RINGS, perRing);
    var p := ring * perRing;
    SmallValuesDoNotWrap(perRing);
    SmallValuesDoNotWrap(p);
    SmallValuesDoNotWrap(MAX_RINGS * perRing);
    SmallValuesDoNotWrap(8704 + p);
    SmallValuesDoNotWrap(8704 + MAX_RINGS * perRing);
    SmallValuesDoNotWrap(8704 + MAX_RINGS * perRing + memcacheBytes);
  }

  function Times(a: nat, b: nat): nat {
    a * b
  }

  /** Where region `k` lies when nothing wraps; `perRing` is the size of a slot area. */
  function ExactRegion(perRing: nat, memcacheBytes: nat, k: nat): Region
    requires k < 2 * MAX_RINGS + 2
  {
    if k == 0 then Region(0, HEADER_BYTES)
    else if k <= MAX_RINGS then Region(HEADER_BYTES + (k - 1) * RING_HEADER_BYTES, RING_HEADER_BYTES)
    else
      var start := HEADER_BYTES + MAX_RINGS * RING_HEADER_BYTES + Times(k - MAX_RINGS - 1, perRing);
      Region(start, if k <= 2 * MAX_RINGS then perRing else memcacheBytes)
  }

  lemma RegionsAreExact(slotCount: nat, memcacheBytes: nat, k: nat)
    requires WithinLimits(slotCount, memcacheBytes) && k < 2 * MAX_RINGS + 2
    ensures RegionOf(Compute(slotCount, memcacheBytes), k) == ExactRegion(SLOT_BYTES * slotCount, memcacheBytes, k)
    ensures Compute(slotCount, memcacheBytes).totalBytes
         == ExactRegion(SLOT_BYTES * slotCount, memcacheBytes, 2 * MAX_RINGS + 1).start + memcacheBytes
    ensures Compute(slotCount, memcacheBytes).totalBytes < TWO_64
  {
    OffsetsDoNotWrap(slotCount, memcacheBytes, MAX_RINGS);
    if k <= MAX_RINGS {
      OffsetsDoNotWrap(slotCount, memcacheBytes, 0);
    } else {
      OffsetsDoNotWrap(slotCount, memcacheBytes, k - MAX_RINGS - 1);
    }
  }

  /** Each region starts 8-byte aligned and ends where the next one begins. */
  lemma RegionsAreAdjacent(slotCount: nat, memcacheBytes: nat, k: nat)
    requires k < 2 * MAX_RINGS + 1
    ensures var perRing := SLOT_BYTES * slotCount;
            var r, next := ExactRegion(perRing, memcacheBytes, k), ExactRegion(perRing, memcacheBytes, k + 1);
            && r.start + r.size == next.start
            && r.start % 8 == 0
            && next.start % 8 == 0
  {
    RegionEndsAtNext(SLOT_BYTES * slotCount, memcacheBytes, k);
    RegionIsAligned(slotCount, memcacheBytes, k);
    RegionIsAligned(slotCount, memcacheBytes, k + 1);
  }

  lemma RegionEndsAtNext(perRing: nat, memcacheBytes: nat, k: nat)
    requires k < 2 * MAX_RINGS + 1
    ensures var r := ExactRegion(perRing, memcacheBytes, k);
            r.start + r.size == ExactRegion(perRing, memcacheBytes, k + 1).start
  {
    if MAX_RINGS < k {
      Distribute(k - MAX_RINGS - 1, perRing);
    }
  }

  lemma RegionIsAligned(slotCount: nat, memcacheBytes: nat, k: nat)
    requires k < 2 * MAX_RINGS + 2
    ensures ExactRegion(SLOT_BYTES * slotCount, memcacheBytes, k).start % 8 == 0
  {
    if MAX_RINGS < k {
      MultipleOfEight(k - MAX_RINGS - 1, slotCount);
    }
  }

  lemma Distribute(n: nat, x: nat)
    ensures (n + 1) * x == n * x + x
  {
  }

  lemma MultipleOfEight(ring: nat, slotCount: nat)
    ensures (ring * (SLOT_BYTES * slotCount)) % 8 == 0
  {
    var x := ring * slotCount;
    assert ring * (SLOT_BYTES * slotCount) == 8 * (9 * x);
  }

  lemma {:induction false} ExactRegionsAreOrdered(slotCount: nat, memcacheBytes: nat, j: nat, k: nat)
    requires j < k < 2 * MAX_RINGS + 2
    ensures var perRing := SLOT_BYTES * slotCount;
            ExactRegion(perRing, memcacheBytes, j).Before(ExactRegion(perRing, memcacheBytes, k))
    decreases k - j
  {
    RegionsAreAdjacent(slotCount, memcacheBytes, j);
    if j + 1 == k {
    } else {
      ExactRegionsAreOrdered(slotCount, memcacheBytes, j + 1, k);
    }
  }

  /** The regions of the mapping are pairwise disjoint, in the order of RegionOf, start
      8-byte aligned, and lie inside the first totalBytes < 2^64 bytes. */
  lemma RegionsAreDisjoint(slotCount: nat, memcacheBytes: nat, j: nat, k: nat)
    requires WithinLimits(slotCount, memcacheBytes)
    requires j < k < 2 * MAX_RINGS + 2
    ensures var l := Compute(slotCount, memcacheBytes);
            && RegionOf(l, j).Before(RegionOf(l, k))
            && RegionOf(l, j).start % 8 == 0 && RegionOf(l, k).start % 8 == 0
            && RegionOf(l, j).Inside(Region(0, l.totalBytes))
            && RegionOf(l, k).Inside(Region(0, l.totalBytes))
            && l.totalBytes < TWO_64
  {
    RegionsAreExact(slotCount, memcacheBytes, j);
    RegionsAreExact(slotCount, memcacheBytes, k);
    ExactRegionsAreOrdered(slotCount, memcacheBytes, j, k);
    RegionsAreAdjacent(slotCount, memcacheBytes, j);
    RegionsAreAdjacent(slotCount, memcacheBytes, k - 1);
    if k < 2 * MAX_RINGS + 1 {
      ExactRegionsAreOrdered(slotCount, memcacheBytes, k, 2 * MAX_RINGS + 1);
    }
  }

  /** Two record ids share a slot exactly when they are congruent modulo the capacity. */
  lemma SameSlotIffCongruent(a: Id, b: Id, capacity: nat)
    requires a <= b && 0 < capacity
    ensures SlotIndex(a, capacity) == SlotIndex(b, capacity) <==> (b - a) % capacity == 0
  {
    var x, y := a - FIRST_SEQ, b - FIRST_SEQ;
    var qx, rx := x / capacity, x % capacity;
    var qy, ry := y / capacity, y % capacity;
    assert y - x == capacity * (qy - qx) + (ry - rx);
    if rx == ry {
      MultipleLeavesNoRemainder(qy - qx, capacity);
    } else if (y - x) % capacity == 0 {
      var q := (y - x) / capacity;
      assert ry - rx == capacity * (q - (qy - qx));
      OnlyZeroMultipleIsSmall(q - (qy - qx), capacity, ry - rx);
    }
  }

  /** Record ids that are closer together than the capacity never share a slot. */
  lemma NearbyRecordsUseDistinctSlots(a: Id, b: Id, capacity: nat)
    requires a < b < a + capacity
    ensures SlotIndex(a, capacity) != SlotIndex(b, capacity)
  {
    SameSlotIffCongruent(a, b, capacity);
  }

  /** Of the records from `id` up to `newest`, the last one stored in the slot of `id`. */
  lemma LastOfSlot(id: Id, newest: nat, capacity: nat) returns (last: Id)
    requires id <= newest && 0 < capacity
    ensures last == id + capacity * ((newest - id) / capacity)
    ensures id <= last <= newest < last + capacity
    ensures SlotIndex(last, capacity) == SlotIndex(id, capacity)
  {
    var laps := (newest - id) / capacity;
    last := id + capacity * laps;
    MultipleLeavesNoRemainder(laps, capacity);
    SameSlotIffCongruent(id, last, capacity);
  }

  /** A slot lies inside its own ring's slot area; slots of different rings, or of
      incongruent records, do not overlap, and congruent records get the same bytes. */
  lemma SlotsStayInTheirRing(
    slotCount: nat, memcacheBytes: nat, ring: nat, id: Id, ring': nat, id': Id)
    requires WithinLimits(slotCount, memcacheBytes)
    requires ring <= ring' < MAX_RINGS
    ensures var l := Compute(slotCount, memcacheBytes);
            var a := Region(SlotOffset(l, ring, id), SLOT_BYTES);
            var b := Region(SlotOffset(l, ring', id'), SLOT_BYTES);
            && a.Inside(RegionOf(l, MAX_RINGS + 1 + ring))
            && a.start % 8 == 0
            && if ring == ring' && SlotIndex(id, slotCount) == SlotIndex(id', slotCount)
               then a == b
               else a.Disjoint(b)
  {
    var l := Compute(slotCount, memcacheBytes);
    SlotInsideRing(slotCount, memcacheBytes, ring, id);
    SlotInsideRing(slotCount, memcacheBytes, ring', id');
    if ring < ring' {
      RegionsAreDisjoint(slotCount, memcacheBytes, MAX_RINGS + 1 + ring, MAX_RINGS + 1 + ring');
    }
  }

  lemma WrappedSum(start: nat, offset: nat)
    requires start + offset < TWO_64
    ensures U64(start + U64(offset)) == start + offset
  {
    SmallValuesDoNotWrap(offset);
  }

  lemma SlotInsideArea(area: Region, i: nat, slotCount: nat)
    requires i < slotCount && area.size == SLOT_BYTES * slotCount && area.start % 8 == 0
    ensures Region(area.start + SLOT_BYTES * i, SLOT_BYTES).Inside(area)
    ensures (area.start + SLOT_BYTES * i) % 8 == 0
  {
  }

  lemma SlotInsideRing(slotCount: nat, memcacheBytes: nat, ring: nat, id: Id)
    requires WithinLimits(slotCount, memcacheBytes) && ring < MAX_RINGS
    ensures var l := Compute(slotCount, memcacheBytes);
            && SlotOffset(l, ring, id) == RingSlotsOffset(l, ring) + SLOT_BYTES * SlotIndex(id, slotCount)
            && Region(SlotOffset(l, ring, id), SLOT_BYTES).Inside(RegionOf(l, MAX_RINGS + 1 + ring))
            && SlotOffset(l, ring, id) % 8 == 0
  {
    var l := Compute(slotCount, memcacheBytes);
    var area := RegionOf(l, MAX_RINGS + 1 + ring);
    assert area.start == RingSlotsOffset(l, ring);
    assert area.size == SLOT_BYTES * slotCount by {
      RegionsAreExact(slotCount, memcacheBytes, MAX_RINGS + 1 + ring);
    }
    RegionsAreDisjoint(slotCount, memcacheBytes, 0, MAX_RINGS + 1 + ring);
    SlotInsideArea(area, SlotIndex(id, slotCount), slotCount);
    WrappedSum(area.start, SLOT_BYTES * SlotIndex(id, slotCount));
  }
}
