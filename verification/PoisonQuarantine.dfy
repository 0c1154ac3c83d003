/** The poison-on-free quarantine (src/Core/PoisonQuarantine.cpp), with every Reserve followed
    by its Publish, as the only caller does (module Admission). */
module PoisonQuarantine {
  import opened Arithmetic
  import opened Hashing

  datatype QuarantineRecord = QuarantineRecord(
    ptr: nat, heap: nat, size: nat, vtableAtFree: nat, freeSite: nat, freeStack: nat, index: nat, freeTick: nat)

  /** A poison slot: the publish number it was written under, 0 for never, and the record. */
  datatype Slot = Slot(published: nat, record: QuarantineRecord)

  function Sum(records: seq<QuarantineRecord>): nat {
    if records == [] then 0 else records[0].size + Sum(records[1..])
  }

  lemma {:induction false} SumAppend(records: seq<QuarantineRecord>, r: QuarantineRecord)
    ensures Sum(records + [r]) == Sum(records) + r.size
  {
    if records != [] {
      SumAppend(records[1..], r);
      assert (records + [r])[1..] == records[1..] + [r];
    } else {
      assert (records + [r])[1..] == [];
    }
  }

  /** Whether a block of `size` bytes may join the blocks already held. */
  predicate Fits(held: seq<QuarantineRecord>, capacity: nat, maxBytes: nat, size: nat) {
    |held| < capacity && (maxBytes == 0 || Sum(held) + size <= maxBytes)
  }

  /** Slot `(read + k) mod capacity` holds the `k`-th block of the queue under its own number. */
  ghost predicate Queued(slots: seq<Slot>, read: nat, held: seq<QuarantineRecord>) {
    && 2 <= |slots| && |held| <= |slots|
    && forall k :: 0 <= k < |held| ==> SlotHolds(slots, Reduced(read + k, |slots|), held[k])
  }

  ghost predicate SlotHolds(slots: seq<Slot>, i: nat, record: QuarantineRecord) {
    i < |slots| && slots[i].published != 0 && slots[i].record == record && record.index == i + 1
  }

  lemma QueuedAfterPublish(slots: seq<Slot>, read: nat, held: seq<QuarantineRecord>, n: nat, record: QuarantineRecord)
    requires Queued(slots, read, held) && |held| < |slots| && 0 < n
    requires record.index == Reduced(read + |held|, |slots|) + 1
    ensures Queued(slots[record.index - 1 := Slot(n, record)], read, held + [record])
  {
    var slots' := slots[record.index - 1 := Slot(n, record)];
    forall k | 0 <= k < |held| + 1
      ensures SlotHolds(slots', Reduced(read + k, |slots|), (held + [record])[k])
    {
      if k < |held| {
        assert SlotHolds(slots, Reduced(read + k, |slots|), held[k]);
        ReducedShift(read + k, |held| - k, |slots|);
      }
    }
  }

  lemma QueuedAfterPop(slots: seq<Slot>, read: nat, held: seq<QuarantineRecord>)
    requires Queued(slots, read, held) && held != []
    ensures Queued(slots, read + 1, held[1..])
  {
    forall k | 0 <= k < |held| - 1
      ensures SlotHolds(slots, Reduced(read + 1 + k, |slots|), held[1..][k])
    {
      assert SlotHolds(slots, Reduced(read + (k + 1), |slots|), held[k + 1]);
    }
  }

  class PoisonQuarantine {
    const slots: array<Slot>
    const stride: nat
    const maxBytes: nat
    const poisonBase: nat
    var writeCursor: nat
    var readCursor: nat
    var publishSeq: nat
    var bytes: nat
    var evictions: nat
    var ready: bool
    ghost var admitted: seq<QuarantineRecord>  // every record ever published, in order
    ghost var left: seq<QuarantineRecord>      // every record ever popped, in order
    ghost var held: seq<QuarantineRecord>      // the blocks held now, oldest first

    /** The poison region is real address space, and slot numbers fit 32 bits. */
    ghost predicate Addressable() {
      slots.Length < 0x1_0000_0000 && 8 <= stride && poisonBase + slots.Length * stride <= TWO_64
    }

    /** `reserved` is 1 between a Reserve and its Publish. */
    ghost predicate State(reserved: nat)
      reads this, slots
    {
      && admitted == left + held
      && readCursor + |held| + reserved == writeCursor <= readCursor + slots.Length
      && bytes == Sum(held)
      && evictions == |left|
      && Queued(slots[..], readCursor, held)
    }

    /** At rest, every held block is within the block and byte budgets. */
    ghost predicate Valid()
      reads this, slots
    {
      State(0) && (maxBytes != 0 ==> Sum(held) <= maxBytes)
    }

    /** Empty, with the smallest power of two of slots that holds the blocks asked for. Whether
        the poison region fits the address space is up to the caller. */
    constructor Init(maxBlocks: nat, maxBytes: nat, poisonBase: nat, stride: nat)
      ensures Valid() && held == [] && admitted == [] && ready && fresh(slots)
      ensures this.maxBytes == maxBytes && this.poisonBase == poisonBase
      ensures this.stride == if stride < 8 then 8 else stride
      ensures maxBlocks <= slots.Length && PowerOfTwo(slots.Length)
      ensures slots.Length == 2 || slots.Length < 2 * maxBlocks
    {
      var none := QuarantineRecord(0, 0, 0, 0, 0, 0, 0, 0);
      var wanted := if maxBlocks < 2 then 2 else maxBlocks;
      NextPow2IsTight(wanted, 0);
      slots := new Slot[NextPow2(wanted, 1)](i => Slot(0, none));
      this.stride := if stride < 8 then 8 else stride;
      this.maxBytes := maxBytes;
      this.poisonBase := poisonBase;
      writeCursor, readCursor, publishSeq, bytes, evictions, ready := 0, 0, 0, 0, 0, true;
      admitted, left, held := [], [], [];
    }

    method OverBudget(size: nat) returns (over: bool)
      requires Valid()
      ensures over <==> !Fits(held, slots.Length, maxBytes, size)
    {
      if writeCursor - readCursor >= slots.Length {
        return true;
      }
      return maxBytes != 0 && bytes + size > maxBytes;
    }

    /** The next poison slot, or 0 when every slot is in use or all 64 attempts to move the
        cursor were `lost` to other threads. */
    method Reserve(lost: bool) returns (index: nat)
      requires Valid()
      modifies this`writeCursor
      ensures index == if ready && |held| < slots.Length && !lost
                       then Reduced(old(writeCursor), slots.Length) + 1 else 0
      ensures if index == 0 then Valid() else State(1)
      ensures writeCursor == old(writeCursor) + if index == 0 then 0 else 1
    {
      if !ready {
        return 0;
      }
      var w := writeCursor;
      if w - readCursor >= slots.Length {
        return 0;
      }
      if lost {
        return 0;
      }
      writeCursor := w + 1;
      return Reduced(w, slots.Length) + 1;
    }

    method Publish(record: QuarantineRecord)
      requires ready && State(1) && record.index == Reduced(writeCursor - 1, slots.Length) + 1
      modifies this, slots
      ensures State(0) && ready
      ensures admitted == old(admitted) + [record] && held == old(held) + [record] && left == old(left)
    {
      ghost var before := slots[..];
      var n := publishSeq + 1;
      QueuedAfterPublish(before, readCursor, held, n, record);
      SumAppend(held, record);
      publishSeq := n;
      slots[record.index - 1] := Slot(n, record);
      bytes := bytes + record.size;
      admitted, held := admitted + [record], held + [record];
      assert slots[..] == before[record.index - 1 := Slot(n, record)];
    }

    /** The oldest held block, which leaves the quarantine. With Reserve and Publish paired its
        slot is always published and from the current lap, so there is nothing to skip. */
    method PopOldest() returns (ok: bool, record: QuarantineRecord)
      requires Valid()
      modifies this
      ensures Valid() && ready == old(ready) && admitted == old(admitted)
      ensures ok <==> ready && old(held) != []
      ensures ok ==> record == old(held)[0] && left == old(left) + [record] && held == old(held)[1..]
      ensures !ok ==> left == old(left) && held == old(held)
    {
      record := slots[0].record;
      if !ready || readCursor >= writeCursor {
        return false, record;
      }
      var i := Reduced(readCursor, slots.Length);
      assert SlotHolds(slots[..], Reduced(readCursor + 0, slots.Length), held[0]);
      QueuedAfterPop(slots[..], readCursor, held);
      record := slots[i].record;
      assert record == held[0] && Sum(held) == record.size + Sum(held[1..]);
      readCursor := readCursor + 1;
      bytes := bytes - if record.size < bytes then record.size else bytes;
      evictions := evictions + 1;
      left, held := left + [record], held[1..];
      return true, record;
    }

    function PoisonFor(index: nat): nat
      requires 0 < index
    {
      poisonBase + (index - 1) * stride
    }

    /** The poison slot a faulting address belongs to, if it is a poison address at all. */
    method DecodeFault(fault: nat) returns (ok: bool, index: nat)
      requires Addressable()
      ensures ok <==> ready && poisonBase <= fault < poisonBase + slots.Length * stride
      ensures ok ==> 1 <= index <= slots.Length && PoisonFor(index) <= fault < PoisonFor(index) + stride
    {
      if !ready || fault < poisonBase {
        return false, 0;
      }
      var offset := fault - poisonBase;
      if offset >= slots.Length * stride {
        return false, 0;
      }
      index := offset / stride + 1;
      QuotientInRange(offset, stride, slots.Length);
      return true, index;
    }

    /** The published record of a slot, unless a writer was inside it during the read. */
    method GetSlot(index: nat, torn: bool) returns (ok: bool, record: QuarantineRecord)
      ensures ok <==> ready && 1 <= index <= slots.Length && slots[index - 1].published != 0 && !torn
      ensures ok ==> record == slots[index - 1].record
    {
      if !ready || index == 0 || index > slots.Length || slots[index - 1].published == 0 || torn {
        return false, QuarantineRecord(0, 0, 0, 0, 0, 0, 0, 0);
      }
      return true, slots[index - 1].record;
    }

    /** Any fault through the poison of a held block, at any offset below the stride, leads
        back to that block's record. */
    method BlockOfFault(fault: nat, ghost k: nat, ghost offset: nat) returns (record: QuarantineRecord)
      requires Valid() && Addressable() && ready && k < |held| && offset < stride
      requires 0 < held[k].index && fault == PoisonFor(held[k].index) + offset
      ensures record == held[k]
    {
      ghost var own := held[k].index;
      assert SlotHolds(slots[..], own - 1, held[k]);
      OnlyOneSlotOfFault(poisonBase, stride, slots.Length, own - 1, offset, own - 1);
      var ok, index := DecodeFault(fault);
      OnlyOneSlotOfFault(poisonBase, stride, slots.Length, own - 1, offset, index - 1);
      ok, record := GetSlot(index, false);
    }
  }

  /** Slots `stride` apart: an address less than a stride past slot `i` is in the region and
      belongs to no other slot. */
  lemma OnlyOneSlotOfFault(base: nat, stride: nat, count: nat, i: nat, offset: nat, j: nat)
    requires i < count && offset < stride
    ensures base <= base + i * stride + offset < base + count * stride
    ensures base + j * stride <= base + i * stride + offset < base + j * stride + stride ==> j == i
  {
    MultiplesAreApart(i, count, stride);
    if i < j {
      MultiplesAreApart(i, j, stride);
    } else if j < i {
      MultiplesAreApart(j, i, stride);
    }
  }

  lemma MultiplesAreApart(a: nat, b: nat, x: nat)
    requires a < b
    ensures a * x + x <= b * x
  {
    assert b * x == a * x + x + (b - a - 1) * x;
  }

  lemma QuotientInRange(offset: nat, stride: nat, count: nat)
    requires 0 < stride && offset < count * stride
    ensures offset / stride < count
    ensures (offset / stride) * stride <= offset < (offset / stride) * stride + stride
  {
    var q := offset / stride;
    assert offset == stride * q + offset % stride;
    assert count <= q ==> count * stride <= q * stride;
  }
}
