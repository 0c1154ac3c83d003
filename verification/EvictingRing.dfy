/** The evict-oldest rings: the Scaleform free ring (src/Core/ScaleformFreeRing.cpp) and the
    weak-library event ring (src/Core/WeakLibEvents.cpp), one call at a time. Both are fast
    forms of one thing: the list of everything ever recorded, cut to its last `capacity`
    entries. */
module EvictingRing {
  import opened Hashing
  import BF = BloomFilter

  // ---------------------------------------------------------------- the list behind a ring

  /** A slot holds the sequence number it was written under, 0 for never, and the record. */
  datatype Slot<T> = Slot(seqNo: nat, record: T)

  /** Number of the oldest record that is still in the ring, minus one. */
  function Evicted(written: nat, capacity: nat): nat {
    if written > capacity then written - capacity else 0
  }

  function Window<T>(log: seq<T>, capacity: nat): seq<T> {
    log[Evicted(|log|, capacity)..]
  }

  /** What is left in a ring is the last `capacity` records, or all of them. */
  lemma WindowIsTheLast<T>(log: seq<T>, capacity: nat)
    ensures Window(log, capacity) == BF.Last(log, capacity)
    ensures |Window(log, capacity)| == if |log| < capacity then |log| else capacity
  {
  }

  /** Slot `seqNo % capacity` holds record `seqNo` of the log, for the last `capacity` of them. */
  ghost predicate Mirrors<T>(slots: seq<Slot<T>>, log: seq<T>) {
    && 0 < |slots|
    && (forall n :: Evicted(|log|, |slots|) < n <= |log| ==> slots[Reduced(n, |slots|)] == Slot(n, log[n - 1]))
  }

  /** Recording evicts exactly the oldest record of a full ring. */
  lemma MirrorsAfterRecord<T>(slots: seq<Slot<T>>, log: seq<T>, record: T)
    requires Mirrors(slots, log)
    ensures Mirrors(slots[Reduced(|log| + 1, |slots|) := Slot(|log| + 1, record)], log + [record])
  {
    var c, m := |slots|, |log| + 1;
    var slots' := slots[Reduced(m, c) := Slot(m, record)];
    forall n | Evicted(m, c) < n <= m
      ensures slots'[Reduced(n, c)] == Slot(n, (log + [record])[n - 1])
    {
      if n < m {
        ReducedShift(n, m - n, c);
      }
    }
  }

  // ---------------------------------------------------------------- Scaleform frees

  datatype FreeRecord = FreeRecord(
    ptr: Key, vtableAtFree: nat, size: nat, freeSite: nat, freeStack: nat, poisonIndex: nat,
    freeTick: nat, allocInstance: nat, threadId: nat, flags: nat)

  ghost predicate NewestMatch(window: seq<FreeRecord>, ptr: Key, i: nat) {
    i < |window| && window[i].ptr == ptr && forall j :: i < j < |window| ==> window[j].ptr != ptr
  }

  class ScaleformFreeRing {
    const slots: array<Slot<FreeRecord>>
    const bloom: BF.BloomFilter
    var writeCursor: nat
    var evictions: nat
    ghost var log: seq<FreeRecord>  // everything ever recorded

    ghost predicate Valid()
      reads this, slots, bloom, bloom.half0, bloom.half1
    {
      && bloom.Valid() && bloom.ready && !bloom.aging
      && Mirrors(slots[..], log) && writeCursor == |log|
      && evictions == Evicted(|log|, slots.Length)
      && forall r :: r in log ==> r.ptr in bloom.retained.recent
    }

    constructor (capacity: nat, bloom: BF.BloomFilter)
      requires 0 < capacity
      requires bloom.Valid() && bloom.ready && !bloom.aging
      ensures Valid() && log == [] && fresh(slots) && slots.Length == capacity && this.bloom == bloom
    {
      var none := FreeRecord(0, 0, 0, 0, 0, 0, 0, 0, 0, 0);
      slots := new Slot<FreeRecord>[capacity](i => Slot(0, none));
      this.bloom := bloom;
      writeCursor, evictions, log := 0, 0, [];
    }

    method Record(record: FreeRecord)
      requires Valid()
      modifies this, slots, bloom, bloom.half0, bloom.half1
      ensures Valid() && log == old(log) + [record]
    {
      var n := writeCursor + 1;
      writeCursor := n;
      ghost var before := slots[..];
      bloom.Add(record.ptr);
      MirrorsAfterRecord(before, log, record);
      slots[Reduced(n, slots.Length)] := Slot(n, record);
      assert slots[..] == before[Reduced(n, |before|) := Slot(n, record)];
      if n > slots.Length {
        evictions := evictions + 1;
      }
      log := log + [record];
    }

    /** The newest record of `ptr` among the last `capacity` records, if there is one. */
    method Find(ptr: Key) returns (ok: bool, record: FreeRecord)
      requires Valid()
      ensures var window := Window(log, slots.Length);
              && (ok <==> ptr > 1 && exists i :: 0 <= i < |window| && window[i].ptr == ptr)
              && (ok ==> exists i: nat :: NewestMatch(window, ptr, i) && record == window[i])
    {
      record := slots[0].record;
      if ptr <= 1 {
        return false, record;
      }
      ghost var window := Window(log, slots.Length);
      var maybe := bloom.MightContain(ptr);
      if !maybe {
        assert forall i :: 0 <= i < |window| ==> window[i] in log;
        return false, record;
      }
      var oldest := if writeCursor > slots.Length then writeCursor - slots.Length else 0;
      var n := writeCursor;
      while n > oldest
        invariant oldest <= n <= |log|
        invariant forall i :: n - oldest <= i < |window| ==> window[i].ptr != ptr
      {
        var slot := slots[Reduced(n, slots.Length)];
        assert slot == Slot(n, window[n - 1 - oldest]);
        if slot.seqNo == n && slot.record.ptr == ptr {
          assert NewestMatch(window, ptr, n - 1 - oldest);
          return true, slot.record;
        }
        n := n - 1;
      }
      return false, record;
    }

    /** The ticks at the two ends of the retained window. */
    method RetentionTicks() returns (ok: bool, oldest: nat, newest: nat)
      requires Valid()
      ensures ok <==> log != []
      ensures ok ==> var window := Window(log, slots.Length);
                     window != [] && oldest == window[0].freeTick && newest == window[|window| - 1].freeTick
    {
      oldest, newest := 0, 0;
      if writeCursor == 0 {
        return false, oldest, newest;
      }
      var first := if writeCursor > slots.Length then writeCursor - slots.Length + 1 else 1;
      var found := false;
      var n := first;
      while n <= writeCursor && !found
        invariant first <= n
        invariant if found then oldest == log[first - 1].freeTick else n == first
        decreases writeCursor + 1 - n, !found
      {
        var slot := slots[Reduced(n, slots.Length)];
        if slot.seqNo == n {
          oldest, found := slot.record.freeTick, true;
        } else {
          n := n + 1;
        }
      }
      found := false;
      n := writeCursor;
      while n >= first && !found
        invariant n <= writeCursor
        invariant if found then newest == log[writeCursor - 1].freeTick else n == writeCursor
        decreases n, !found
      {
        var slot := slots[Reduced(n, slots.Length)];
        if slot.seqNo == n {
          newest, found := slot.record.freeTick, true;
        } else {
          n := n - 1;
        }
      }
      return true, oldest, newest;
    }
  }

  // ---------------------------------------------------------------- weak-library events

  datatype WeakLibEvent = WeakLibEvent(ptr: Key, site: nat, tick: nat, kind: nat, threadId: nat)

  /** The events about `ptr`, in the order they were recorded. */
  function Matching(window: seq<WeakLibEvent>, ptr: Key): (m: seq<WeakLibEvent>)
    ensures |m| <= |window|
  {
    if window == [] then []
    else Matching(window[..|window| - 1], ptr) + if window[|window| - 1].ptr == ptr then [window[|window| - 1]] else []
  }

  /** Splitting the window splits the matches: what the backwards scan relies on. */
  lemma {:induction false} MatchingSplits(a: seq<WeakLibEvent>, b: seq<WeakLibEvent>, ptr: Key)
    ensures Matching(a + b, ptr) == Matching(a, ptr) + Matching(b, ptr)
  {
    if b == [] {
      assert a + b == a;
    } else {
      var n := |b| - 1;
      MatchingSplits(a, b[..n], ptr);
      assert (a + b)[..|a + b| - 1] == a + b[..n];
    }
  }

  /** The events about `ptr` after the first `n` of the log. */
  ghost function After(log: seq<WeakLibEvent>, n: nat, ptr: Key): seq<WeakLibEvent>
    requires n <= |log|
  {
    Matching(log[n..], ptr)
  }

  /** One step of the backwards scan: the slot of record `n` holds it, and it comes before
      the matches after it. */
  lemma ScanStep(slots: seq<Slot<WeakLibEvent>>, log: seq<WeakLibEvent>, n: nat, ptr: Key)
    requires Mirrors(slots, log) && Evicted(|log|, |slots|) < n <= |log|
    ensures var slot := slots[Reduced(n, |slots|)];
            && slot.seqNo == n
            && (slot.record.ptr == ptr ==> After(log, n - 1, ptr) == [slot.record] + After(log, n, ptr))
            && (slot.record.ptr != ptr ==> After(log, n - 1, ptr) == After(log, n, ptr))
  {
    assert log[n - 1..] == [log[n - 1]] + log[n..];
    MatchingSplits([log[n - 1]], log[n..], ptr);
    assert [log[n - 1]][..0] == [];
  }

  /** The matches after the first `n` are the last matches of the window, and all of them when
      `n` is the window's start. */
  lemma MatchesOfSuffix(log: seq<WeakLibEvent>, capacity: nat, n: nat, ptr: Key)
    requires Evicted(|log|, capacity) <= n <= |log|
    ensures var all := Matching(Window(log, capacity), ptr);
            && After(log, n, ptr) == BF.Last(all, |After(log, n, ptr)|)
            && (n == Evicted(|log|, capacity) ==> After(log, n, ptr) == all)
  {
    var window, k := Window(log, capacity), n - Evicted(|log|, capacity);
    assert window[k..] == log[n..] && window == window[..k] + window[k..];
    MatchingSplits(window[..k], window[k..], ptr);
  }

  /** Puts one event just before output[from..to]. */
  method PutBefore(output: array<WeakLibEvent>, from: nat, to: nat, event: WeakLibEvent)
    requires 0 < from <= to <= output.Length
    modifies output
    ensures output[from - 1..to] == [event] + old(output[from..to])
    ensures output[to..] == old(output[to..])
  {
    output[from - 1] := event;
  }

  class WeakLibEvents {
    const slots: array<Slot<WeakLibEvent>>
    var writeCursor: nat
    ghost var log: seq<WeakLibEvent>

    ghost predicate Valid()
      reads this, slots
    {
      Mirrors(slots[..], log) && writeCursor == |log|
    }

    constructor (capacity: nat)
      requires 0 < capacity
      ensures Valid() && log == [] && fresh(slots) && slots.Length == capacity
    {
      var none := WeakLibEvent(0, 0, 0, 0, 0);
      slots := new Slot<WeakLibEvent>[capacity](i => Slot(0, none));
      writeCursor, log := 0, [];
    }

    /** Pointers 0 and 1 are not recorded. */
    method Record(event: WeakLibEvent)
      requires Valid()
      modifies this, slots
      ensures Valid() && log == if event.ptr <= 1 then old(log) else old(log) + [event]
    {
      if event.ptr <= 1 {
        return;
      }
      var n := writeCursor + 1;
      writeCursor := n;
      ghost var before := slots[..];
      MirrorsAfterRecord(before, log, event);
      slots[Reduced(n, slots.Length)] := Slot(n, event);
      assert slots[..] == before[Reduced(n, |before|) := Slot(n, event)];
      log := log + [event];
    }

    /** The backwards scan: the last min(max, matches) events about `ptr`, oldest first, at
        the end of the first `max` places of `output`. */
    method ScanBack(ptr: Key, output: array<WeakLibEvent>, max: nat) returns (found: nat)
      requires Valid() && 0 < max <= output.Length
      modifies output
      ensures found <= max && output[max..] == old(output[max..])
      ensures output[max - found..max] == BF.Last(Matching(Window(log, slots.Length), ptr), max)
    {
      var oldest := if writeCursor > slots.Length then writeCursor - slots.Length else 0;
      var n := writeCursor;
      found := 0;
      while n > oldest && found < max
        invariant oldest <= n <= writeCursor && found <= max
        invariant output[max - found..max] == After(log, n, ptr)
        invariant output[max..] == old(output[max..])
      {
        ScanStep(slots[..], log, n, ptr);
        var slot := slots[Reduced(n, slots.Length)];
        if slot.seqNo == n && slot.record.ptr == ptr {
          PutBefore(output, max - found, max, slot.record);
          found := found + 1;
        }
        n := n - 1;
      }
      MatchesOfSuffix(log, slots.Length, n, ptr);
    }

    /** Moves output[max - found..max] to the front, in place. */
    method CompactToFront(output: array<WeakLibEvent>, max: nat, found: nat)
      requires found <= max <= output.Length
      modifies output
      ensures output[..found] == old(output[max - found..max])
      ensures output[max..] == old(output[max..])
    {
      var first := max - found;
      var i := 0;
      while i < found
        invariant i <= found
        invariant forall k :: 0 <= k < i ==> output[k] == old(output[first + k])
        invariant forall k :: first + i <= k < max ==> output[k] == old(output[k])
        invariant output[max..] == old(output[max..])
      {
        output[i] := output[first + i];
        i := i + 1;
      }
    }

    /** Writes the last min(max, matches) events about `ptr` to the front of `output`, oldest
        first, although it finds them newest first and moves them down in place. */
    method Find(ptr: Key, output: array<WeakLibEvent>, max: nat) returns (found: nat)
      requires Valid() && max <= output.Length
      modifies output
      ensures var last := if ptr <= 1 then [] else BF.Last(Matching(Window(log, slots.Length), ptr), max);
              found == |last| && output[..found] == last
      ensures output[max..] == old(output[max..])
    {
      if ptr <= 1 || max == 0 {
        return 0;
      }
      found := ScanBack(ptr, output, max);
      if found == 0 {
        return;
      }
      CompactToFront(output, max, found);
    }
  }
}
