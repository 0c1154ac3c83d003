/** One shard of the shadow ledger (src/Core/ShadowLedger.cpp): open addressing with a probe
    window of 64, tombstones, and eviction of freed entries, one call at a time. It refines a
    map from pointers to records, whatever the hash function. LedgerSeqlock covers readers
    that run while a writer is inside an entry. */
module LedgerShard {
  import opened Arithmetic
  import opened Hashing

  const EMPTY: Key := 0
  const TOMBSTONE: Key := 1
  const MAX_PROBE: nat := 64

  datatype AllocationInfo = AllocationInfo(
    ptr: nat, size: nat, threadId: nat, flags: nat, allocSite: nat, freeSite: nat,
    allocStack: nat, freeStack: nat, vtableAtAlloc: nat, vtableAtFree: nat, lastKnownVtable: nat,
    allocTick: nat, freeTick: nat, allocInstance: nat, poisonIndex: nat)

  /** kFlagFreed, bit 2 of the flags. */
  predicate Freed(info: AllocationInfo) {
    (info.flags / 4) % 2 == 1
  }

  /** That is the flag with the value 4. */
  lemma FreedIsItsFlag(info: AllocationInfo)
    ensures Freed(info) <==> And(info.flags, 4) != 0
  {
    assert And(info.flags / 4, 1) == (info.flags / 4) % 2;
    assert And(info.flags / 2, 2) == 2 * And(info.flags / 4, 1);
    assert And(info.flags, 4) == 2 * And(info.flags / 2, 2);
  }

  datatype Entry = Entry(key: Key, info: AllocationInfo) {
    predicate Live() { TOMBSTONE < key }
  }

  type Hash = Key -> nat

  /** The next slot, around the end of the table. */
  function Following(i: nat, capacity: nat): (j: nat)
    requires i < capacity
    ensures j < capacity
  {
    if i + 1 == capacity then 0 else i + 1
  }

  /** The `p`-th slot looked at for `ptr`. */
  function Probe(hash: Hash, ptr: Key, p: nat, capacity: nat): (i: nat)
    requires 0 < capacity
    ensures i < capacity
  {
    if p == 0 then Reduced(hash(ptr), capacity) else Following(Probe(hash, ptr, p - 1, capacity), capacity)
  }

  // ---------------------------------------------------------------- invariant

  ghost predicate Unique(entries: seq<Entry>) {
    forall i, j :: 0 <= i < j < |entries| && entries[i].Live() ==> entries[i].key != entries[j].key
  }

  /** The first `n` slots on the probe path of `ptr` are taken. */
  ghost predicate PathTaken(entries: seq<Entry>, hash: Hash, ptr: Key, n: nat)
    requires 0 < |entries|
  {
    forall p :: 0 <= p < n ==> entries[Probe(hash, ptr, p, |entries|)].key != EMPTY
  }

  /** `p` leads from the home slot of `ptr` to slot `i` over taken slots only. */
  ghost predicate LeadsTo(entries: seq<Entry>, hash: Hash, ptr: Key, i: nat, p: nat)
    requires 0 < |entries|
  {
    p < MAX_PROBE && Probe(hash, ptr, p, |entries|) == i && PathTaken(entries, hash, ptr, p)
  }

  ghost predicate Placed(entries: seq<Entry>, hash: Hash, i: nat)
    requires i < |entries|
  {
    exists p :: LeadsTo(entries, hash, entries[i].key, i, p)
  }

  ghost predicate WellFormed(entries: seq<Entry>, hash: Hash) {
    && 0 < |entries|
    && Unique(entries)
    && forall i :: 0 <= i < |entries| && entries[i].Live() ==> Placed(entries, hash, i)
  }

  // ---------------------------------------------------------------- the map it stands for

  ghost function Contents(entries: seq<Entry>): map<Key, AllocationInfo> {
    if entries == [] then map[]
    else
      var n := |entries| - 1;
      var m := Contents(entries[..n]);
      if entries[n].Live() then m[entries[n].key := entries[n].info] else m
  }

  ghost predicate HasKey(entries: seq<Entry>, ptr: Key) {
    exists i :: 0 <= i < |entries| && entries[i].key == ptr
  }

  lemma {:induction false} ContentsHasLiveKeys(entries: seq<Entry>, ptr: Key)
    ensures ptr in Contents(entries) <==> TOMBSTONE < ptr && HasKey(entries, ptr)
  {
    if entries == [] {
    } else {
      var n := |entries| - 1;
      ContentsHasLiveKeys(entries[..n], ptr);
      if HasKey(entries[..n], ptr) {
        var i :| 0 <= i < n && entries[..n][i].key == ptr;
        assert entries[i].key == ptr;
      }
      if HasKey(entries, ptr) {
        var i :| 0 <= i < |entries| && entries[i].key == ptr;
        assert i < n ==> entries[..n][i].key == ptr;
      }
    }
  }

  lemma {:induction false} EntryIsInContents(entries: seq<Entry>, i: nat)
    requires Unique(entries) && i < |entries| && entries[i].Live()
    ensures entries[i].key in Contents(entries) && Contents(entries)[entries[i].key] == entries[i].info
  {
    var n := |entries| - 1;
    if i == n {
    } else {
      EntryIsInContents(entries[..n], i);
    }
  }

  lemma {:induction false} NothingInEmptySlots(entries: seq<Entry>)
    requires forall i :: 0 <= i < |entries| ==> !entries[i].Live()
    ensures Contents(entries) == map[]
  {
    if entries == [] {
    } else {
      NothingInEmptySlots(entries[..|entries| - 1]);
    }
  }

  /** The number of slots that are not empty, tombstones included. */
  ghost function Taken(entries: seq<Entry>): set<int> {
    set i | 0 <= i < |entries| && entries[i].key != EMPTY
  }

  /** Whether slot `i` may be given entry `e` without a second copy of its key. */
  ghost predicate FreshKey(entries: seq<Entry>, i: nat, e: Entry) {
    e.Live() ==> forall j :: 0 <= j < |entries| && j != i ==> entries[j].key != e.key
  }

  /** Writing one slot, with a key that is nowhere else, moves the map accordingly. */
  lemma {:induction false} ContentsAfterWrite(entries: seq<Entry>, i: nat, e: Entry)
    requires Unique(entries) && i < |entries| && FreshKey(entries, i, e)
    ensures Unique(entries[i := e])
    ensures Contents(entries[i := e]) ==
              if e.Live() then (Contents(entries) - {entries[i].key})[e.key := e.info]
              else Contents(entries) - {entries[i].key}
  {
    var n := |entries| - 1;
    if i < n {
      assert entries[i := e][..n] == entries[..n][i := e];
      ContentsAfterWrite(entries[..n], i, e);
      if entries[n].Live() {
        assert entries[n].key != entries[i].key;
      }
    } else {
      assert entries[i := e][..n] == entries[..n];
      ContentsHasLiveKeys(entries[..n], entries[n].key);
      ContentsHasLiveKeys(entries[..n], e.key);
    }
  }

  /** Writing a key over a slot that stays taken, at the end of a taken path, keeps every
      key findable. */
  lemma PlacementAfterWrite(entries: seq<Entry>, hash: Hash, i: nat, e: Entry, p: nat)
    requires WellFormed(entries, hash) && i < |entries|
    requires e.key != EMPTY
    requires e.Live() ==> LeadsTo(entries, hash, e.key, i, p)
    requires FreshKey(entries, i, e)
    ensures WellFormed(entries[i := e], hash)
  {
    var entries' := entries[i := e];
    ContentsAfterWrite(entries, i, e);
    forall j | 0 <= j < |entries'| && entries'[j].Live()
      ensures Placed(entries', hash, j)
    {
      var q: nat;
      if j == i {
        q := p;
      } else {
        assert Placed(entries, hash, j);
        q :| LeadsTo(entries, hash, entries[j].key, j, q);
      }
      assert LeadsTo(entries', hash, entries'[j].key, j, q);
    }
  }

  /** A key that is in the shard sits on its probe path before the first empty slot. */
  lemma AbsentBeyondEmpty(entries: seq<Entry>, hash: Hash, ptr: Key, n: nat)
    requires WellFormed(entries, hash) && TOMBSTONE < ptr
    requires forall p :: 0 <= p < n ==> entries[Probe(hash, ptr, p, |entries|)].key != ptr
    requires n == MAX_PROBE || entries[Probe(hash, ptr, n, |entries|)].key == EMPTY
    ensures forall j :: 0 <= j < |entries| ==> entries[j].key != ptr
    ensures ptr !in Contents(entries)
  {
    forall j | 0 <= j < |entries|
      ensures entries[j].key == ptr ==> exists p :: LeadsTo(entries, hash, ptr, j, p)
    {
      assert entries[j].key == ptr ==> Placed(entries, hash, j);
    }
    ContentsHasLiveKeys(entries, ptr);
  }

  // ---------------------------------------------------------------- the shard

  ghost predicate FreedAt(entries: seq<Entry>, hash: Hash, ptr: Key, p: nat)
    requires 0 < |entries|
  {
    var e := entries[Probe(hash, ptr, p, |entries|)];
    e.Live() && Freed(e.info)
  }

  /** The whole probe window of `ptr` is full of other records that are not freed. */
  ghost predicate Saturated(entries: seq<Entry>, hash: Hash, ptr: Key)
    requires 0 < |entries|
  {
    forall p :: 0 <= p < MAX_PROBE ==>
      var e := entries[Probe(hash, ptr, p, |entries|)];
      e.Live() && e.key != ptr && !FreedAt(entries, hash, ptr, p)
  }

  /** The window holds only other records: nothing empty and no tombstone to reuse. */
  ghost predicate FullOfRecords(entries: seq<Entry>, hash: Hash, ptr: Key)
    requires 0 < |entries|
  {
    forall p :: 0 <= p < MAX_PROBE ==>
      var e := entries[Probe(hash, ptr, p, |entries|)];
      e.Live() && e.key != ptr
  }

  /** Probe `p` meets the first freed record on the path of `ptr`. */
  ghost predicate FirstFreed(entries: seq<Entry>, hash: Hash, ptr: Key, p: nat)
    requires 0 < |entries|
  {
    p < MAX_PROBE && FreedAt(entries, hash, ptr, p) && forall q :: 0 <= q < p ==> !FreedAt(entries, hash, ptr, q)
  }

  /** Whoever makes room for `ptr` is the first freed record in its window. */
  ghost predicate EvictsFirstFreed(entries: seq<Entry>, hash: Hash, ptr: Key, evicted: set<Key>)
    requires 0 < |entries|
  {
    evicted != {} ==>
      exists p :: FirstFreed(entries, hash, ptr, p) && evicted == {entries[Probe(hash, ptr, p, |entries|)].key}
  }

  datatype SlotRef = NoSlot | At(index: nat, probe: nat)

  datatype ScanResult = ScanResult(index: nat, probe: nat, tombstone: SlotRef, freed: SlotRef)

  /** What the scan knows after `s.probe` probes. */
  ghost predicate ScanOk(entries: seq<Entry>, hash: Hash, ptr: Key, s: ScanResult) {
    && 0 < |entries| && s.probe <= MAX_PROBE
    && s.index == Probe(hash, ptr, s.probe, |entries|)
    && PathTaken(entries, hash, ptr, s.probe)
    && (forall p :: 0 <= p < s.probe ==> entries[Probe(hash, ptr, p, |entries|)].key != ptr)
    && (s.tombstone.NoSlot? ==>
          forall p :: 0 <= p < s.probe ==> entries[Probe(hash, ptr, p, |entries|)].key != TOMBSTONE)
    && (s.tombstone.At? ==>
          && s.tombstone.probe < s.probe && s.tombstone.index == Probe(hash, ptr, s.tombstone.probe, |entries|)
          && entries[s.tombstone.index].key == TOMBSTONE
          && forall p :: 0 <= p < s.tombstone.probe ==> entries[Probe(hash, ptr, p, |entries|)].key != TOMBSTONE)
    && (s.freed.NoSlot? ==> forall p :: 0 <= p < s.probe ==> !FreedAt(entries, hash, ptr, p))
    && (s.freed.At? ==>
          && s.freed.probe < s.probe && s.freed.index == Probe(hash, ptr, s.freed.probe, |entries|)
          && FirstFreed(entries, hash, ptr, s.freed.probe))
  }

  /** What a finished scan says about the map and about the probe window. */
  lemma ScanMeaning(entries: seq<Entry>, hash: Hash, ptr: Key, s: ScanResult)
    requires WellFormed(entries, hash) && TOMBSTONE < ptr && ScanOk(entries, hash, ptr, s)
    requires s.probe < MAX_PROBE ==> entries[s.index].key == ptr || entries[s.index].key == EMPTY
    ensures if s.probe < MAX_PROBE && entries[s.index].key == ptr
            then Contents(entries).Keys >= {ptr} && FreshKey(entries, s.index, Entry(ptr, entries[s.index].info))
            else ptr !in Contents(entries) && forall j :: 0 <= j < |entries| ==> entries[j].key != ptr
    ensures Saturated(entries, hash, ptr) <==> s.probe == MAX_PROBE && s.tombstone.NoSlot? && s.freed.NoSlot?
    ensures s.probe == MAX_PROBE && s.tombstone.NoSlot? <==> FullOfRecords(entries, hash, ptr)
  {
    if s.probe < MAX_PROBE && entries[s.index].key == ptr {
      EntryIsInContents(entries, s.index);
    } else {
      AbsentBeyondEmpty(entries, hash, ptr, s.probe);
    }
    if s.probe < MAX_PROBE {
      assert !entries[Probe(hash, ptr, s.probe, |entries|)].Live() || entries[s.index].key == ptr;
    }
  }

  /** Everything about writing one taken slot. */
  lemma WriteKeepsShard(entries: seq<Entry>, hash: Hash, i: nat, e: Entry, p: nat)
    requires WellFormed(entries, hash) && i < |entries|
    requires e.key != EMPTY
    requires e.Live() ==> LeadsTo(entries, hash, e.key, i, p)
    requires FreshKey(entries, i, e)
    ensures WellFormed(entries[i := e], hash)
    ensures Contents(entries[i := e]) ==
              if e.Live() then (Contents(entries) - {entries[i].key})[e.key := e.info]
              else Contents(entries) - {entries[i].key}
    ensures Taken(entries[i := e]) == Taken(entries) + {i}
    ensures entries[i].key == e.key && e.Live() ==> Contents(entries[i := e]) == Contents(entries)[e.key := e.info]
    ensures !entries[i].Live() && e.Live() ==> Contents(entries[i := e]) == Contents(entries)[e.key := e.info]
  {
    ContentsAfterWrite(entries, i, e);
    PlacementAfterWrite(entries, hash, i, e, p);
    ContentsHasLiveKeys(entries, entries[i].key);
    if !entries[i].Live() {
      assert Contents(entries) - {entries[i].key} == Contents(entries);
    }
  }

  /** One more probe of the scan, past an entry that is neither the key nor empty. */
  function Passed(entry: Entry, s: ScanResult, capacity: nat): ScanResult
    requires s.index < capacity
  {
    var here := At(s.index, s.probe);
    ScanResult(
      Following(s.index, capacity), s.probe + 1,
      if entry.key == TOMBSTONE && s.tombstone.NoSlot? then here else s.tombstone,
      if entry.Live() && Freed(entry.info) && s.freed.NoSlot? then here else s.freed)
  }

  lemma PassedKeepsScanOk(entries: seq<Entry>, hash: Hash, ptr: Key, s: ScanResult)
    requires ScanOk(entries, hash, ptr, s) && s.probe < MAX_PROBE
    requires entries[s.index].key != ptr && entries[s.index].key != EMPTY
    ensures ScanOk(entries, hash, ptr, Passed(entries[s.index], s, |entries|))
  {
  }

  /** The contract of Insert, on values. */
  ghost predicate Inserted(entries: seq<Entry>, entries': seq<Entry>, hash: Hash, ptr: Key, info: AllocationInfo,
                           stored: bool, evicted: set<Key>)
    requires 0 < |entries|
  {
    && WellFormed(entries', hash)
    && (stored ==> Contents(entries') == (Contents(entries) - evicted)[ptr := info])
    && |evicted| <= 1 && ptr !in evicted
    && (forall k :: k in evicted ==> k in Contents(entries) && Freed(Contents(entries)[k]))
    && (evicted != {} <==> FullOfRecords(entries, hash, ptr) && !Saturated(entries, hash, ptr))
    && (evicted != {} ==> ptr !in Contents(entries))
    && EvictsFirstFreed(entries, hash, ptr, evicted)
    && (!stored <==> Saturated(entries, hash, ptr))
    && (!stored ==> entries' == entries && ptr !in Contents(entries) && evicted == {})
  }

  /** The scan has ended: at the key, at an empty slot or after 64 probes. */
  ghost predicate Stopped(entries: seq<Entry>, hash: Hash, ptr: Key, s: ScanResult) {
    && ScanOk(entries, hash, ptr, s)
    && (s.probe < MAX_PROBE ==> entries[s.index].key == ptr || entries[s.index].key == EMPTY)
  }

  ghost function AfterInsert(entries: seq<Entry>, ptr: Key, info: AllocationInfo, s: ScanResult): seq<Entry>
    requires s.probe < MAX_PROBE ==> s.index < |entries|
  {
    var t := Target(entries, ptr, s);
    if t.At? && t.index < |entries| then entries[t.index := Entry(ptr, info)] else entries
  }

  /** Where Insert writes, and whether it writes at all. */
  function Target(entries: seq<Entry>, ptr: Key, s: ScanResult): SlotRef
    requires s.probe < MAX_PROBE ==> s.index < |entries|
  {
    if s.probe < MAX_PROBE && entries[s.index].key == ptr then At(s.index, s.probe)
    else if s.tombstone.At? then s.tombstone
    else if s.probe < MAX_PROBE then At(s.index, s.probe)
    else s.freed
  }

  /** What one Insert does to the slots, and one Erase that finds its key. */
  ghost predicate InsertStep(entries: seq<Entry>, entries': seq<Entry>, hash: Hash, ptr: Key, info: AllocationInfo) {
    exists s :: Stopped(entries, hash, ptr, s) && entries' == AfterInsert(entries, ptr, info, s)
  }

  ghost predicate EraseStep(entries: seq<Entry>, entries': seq<Entry>, ptr: Key) {
    exists i :: 0 <= i < |entries| && entries[i].key == ptr
                && entries' == entries[i := Entry(TOMBSTONE, entries[i].info)]
  }

  lemma InsertAtTarget(entries: seq<Entry>, hash: Hash, ptr: Key, info: AllocationInfo, s: ScanResult)
    returns (evicted: set<Key>)
    requires WellFormed(entries, hash) && TOMBSTONE < ptr && ScanOk(entries, hash, ptr, s)
    requires s.probe < MAX_PROBE ==> entries[s.index].key == ptr || entries[s.index].key == EMPTY
    ensures var t := Target(entries, ptr, s);
            if t.At?
            then t.index < |entries|
                 && Inserted(entries, entries[t.index := Entry(ptr, info)], hash, ptr, info, true, evicted)
            else Inserted(entries, entries, hash, ptr, info, false, evicted)
  {
    evicted := {};
    ScanMeaning(entries, hash, ptr, s);
    var t := Target(entries, ptr, s);
    if t.At? {
      var victim := entries[t.index];
      WriteKeepsShard(entries, hash, t.index, Entry(ptr, info), t.probe);
      if victim.Live() && victim.key != ptr {
        EntryIsInContents(entries, t.index);
        evicted := {victim.key};
        assert FirstFreed(entries, hash, ptr, t.probe);
      } else {
        assert Contents(entries) - evicted == Contents(entries);
      }
    }
  }

  lemma TombstoneKeepsShard(entries: seq<Entry>, hash: Hash, i: nat)
    requires WellFormed(entries, hash) && i < |entries| && entries[i].Live()
    ensures var entries' := entries[i := Entry(TOMBSTONE, entries[i].info)];
            && WellFormed(entries', hash)
            && Contents(entries') == Contents(entries) - {entries[i].key}
            && Taken(entries') == Taken(entries)
  {
    WriteKeepsShard(entries, hash, i, Entry(TOMBSTONE, entries[i].info), 0);
    assert i in Taken(entries);
  }

  class Shard {
    const slots: array<Entry>
    const hash: Hash
    var count: nat

    ghost predicate Valid()
      reads this, slots
    {
      WellFormed(slots[..], hash) && count == |Taken(slots[..])|
    }

    ghost function Records(): map<Key, AllocationInfo>
      reads slots
    {
      Contents(slots[..])
    }

    constructor (capacity: nat, hash: Hash)
      requires 0 < capacity
      ensures Valid() && fresh(slots) && this.hash == hash
      ensures slots.Length == capacity && Records() == map[] && count == 0
    {
      this.hash := hash;
      count := 0;
      var none := Entry(EMPTY, AllocationInfo(0, 0, 0, 0, 0, 0, 0, 0, 0, 0, 0, 0, 0, 0, 0));
      slots := new Entry[capacity](i => none);
      new;
      assert Taken(slots[..]) == {};
      NothingInEmptySlots(slots[..]);
    }

    /** Writes the victim slot chosen by Insert, if it still may be taken. */
    method InsertAtVictim(ptr: Key, info: AllocationInfo, index: nat, tombstone: bool, mayEvictFreed: bool)
      returns (ok: bool)
      requires index < slots.Length && count == |Taken(slots[..])|
      modifies slots, this`count
      ensures var victim := old(slots[index]);
              ok <==> victim.key == EMPTY || (victim.key == TOMBSTONE && tombstone)
                      || (victim.Live() && mayEvictFreed && Freed(victim.info))
      ensures slots[..] == if ok then old(slots[..])[index := Entry(ptr, info)] else old(slots[..])
      ensures ptr != EMPTY ==> count == |Taken(slots[..])|
    {
      var key := slots[index].key;
      ok := false;
      if key == EMPTY {
        ok := true;
      } else if key == TOMBSTONE {
        ok := tombstone;
      } else {
        ok := mayEvictFreed && Freed(slots[index].info);
      }
      if !ok {
        return;
      }
      slots[index] := Entry(ptr, info);
      if key == EMPTY {
        count := count + 1;
      }
      assert slots[..] == old(slots[..])[index := Entry(ptr, info)];
      assert ptr != EMPTY ==> Taken(slots[..]) == Taken(old(slots[..])) + {index};
    }

    /** The probe loop of Insert: stops at the key, at an empty slot, or after 64 probes, and
        remembers the first tombstone and the first freed record it passed. */
    method Scan(ptr: Key) returns (s: ScanResult)
      requires Valid() && TOMBSTONE < ptr
      ensures ScanOk(slots[..], hash, ptr, s)
      ensures s.probe < MAX_PROBE ==> slots[s.index].key == ptr || slots[s.index].key == EMPTY
    {
      ghost var entries := slots[..];
      s := ScanResult(Reduced(hash(ptr), slots.Length), 0, NoSlot, NoSlot);
      while s.probe < MAX_PROBE
        invariant ScanOk(entries, hash, ptr, s)
      {
        var key := slots[s.index].key;
        if key == ptr || key == EMPTY {
          return;
        }
        PassedKeepsScanOk(entries, hash, ptr, s);
        var here := At(s.index, s.probe);
        s := s.(index := Following(s.index, slots.Length), probe := s.probe + 1);
        if key == TOMBSTONE {
          if s.tombstone.NoSlot? {
            s := s.(tombstone := here);
          }
        } else if Freed(slots[here.index].info) && s.freed.NoSlot? {
          s := s.(freed := here);
        }
      }
    }

    /** Stores a record. A key that is present is updated; otherwise the record takes the
        first tombstone on its path, else the empty slot that ends it, else the first freed
        record of a full window, and fails only when every record in the window is live. */
    method Insert(ptr: Key, info: AllocationInfo) returns (stored: bool, ghost evicted: set<Key>)
      requires Valid() && TOMBSTONE < ptr
      modifies slots, this`count
      ensures Valid()
      ensures stored ==> Records() == (old(Records()) - evicted)[ptr := info]
      ensures |evicted| <= 1 && ptr !in evicted
      ensures forall k :: k in evicted ==> k in old(Records()) && Freed(old(Records())[k])
      ensures evicted != {} ==> ptr !in old(Records())
      ensures evicted != {} <==> FullOfRecords(old(slots[..]), hash, ptr) && !Saturated(old(slots[..]), hash, ptr)
      ensures EvictsFirstFreed(old(slots[..]), hash, ptr, evicted)
      ensures InsertStep(old(slots[..]), slots[..], hash, ptr, info)
      ensures !stored <==> Saturated(old(slots[..]), hash, ptr)
      ensures !stored ==> slots[..] == old(slots[..]) && count == old(count) && ptr !in Records() && evicted == {}
    {
      ghost var entries := slots[..];
      var s := Scan(ptr);
      evicted := InsertAtTarget(entries, hash, ptr, info, s);
      if s.probe < MAX_PROBE && slots[s.index].key == ptr {
        slots[s.index] := slots[s.index].(info := info);
        assert slots[..] == entries[s.index := Entry(ptr, info)];
        assert Taken(slots[..]) == Taken(entries);
        stored := true;
      } else if s.tombstone.At? {
        stored := InsertAtVictim(ptr, info, s.tombstone.index, true, false);
      } else if s.probe < MAX_PROBE {
        stored := InsertAtVictim(ptr, info, s.index, false, false);
      } else if s.freed.At? {
        stored := InsertAtVictim(ptr, info, s.freed.index, false, true);
      } else {
        stored := false;
      }
      assert Stopped(entries, hash, ptr, s) && slots[..] == AfterInsert(entries, ptr, info, s);
    }

    /** The probe loop of Find and Erase. */
    method Locate(ptr: Key) returns (found: bool, index: nat)
      requires Valid() && TOMBSTONE < ptr
      ensures index < slots.Length
      ensures found <==> ptr in Records()
      ensures found ==> slots[index].key == ptr && Records()[ptr] == slots[index].info
    {
      ghost var entries := slots[..];
      index := Reduced(hash(ptr), slots.Length);
      var n := 0;
      while n < MAX_PROBE
        invariant n <= MAX_PROBE && index < slots.Length
        invariant index == Probe(hash, ptr, n, slots.Length)
        invariant forall p :: 0 <= p < n ==> entries[Probe(hash, ptr, p, |entries|)].key != ptr
      {
        var key := slots[index].key;
        if key == EMPTY {
          AbsentBeyondEmpty(entries, hash, ptr, n);
          return false, index;
        }
        if key == ptr {
          EntryIsInContents(entries, index);
          return true, index;
        }
        index := Following(index, slots.Length);
        n := n + 1;
      }
      AbsentBeyondEmpty(entries, hash, ptr, MAX_PROBE);
      return false, index;
    }

    /** Looks a record up: exactly the lookup of the map. */
    method Find(ptr: Key) returns (ok: bool, info: AllocationInfo)
      requires Valid() && TOMBSTONE < ptr
      ensures ok <==> ptr in Records()
      ensures ok ==> info == Records()[ptr]
    {
      var index;
      ok, index := Locate(ptr);
      info := slots[index].info;
    }

    /** Removes a record and leaves a tombstone, so that keys further along stay findable. */
    method Erase(ptr: Key) returns (ok: bool, info: AllocationInfo)
      requires Valid() && TOMBSTONE < ptr
      modifies slots
      ensures Valid() && count == old(count)
      ensures ok <==> ptr in old(Records())
      ensures ok ==> info == old(Records())[ptr]
      ensures Records() == old(Records()) - {ptr}
      ensures if ok then EraseStep(old(slots[..]), slots[..], ptr) else slots[..] == old(slots[..])
    {
      ghost var entries := slots[..];
      var index;
      ok, index := Locate(ptr);
      info := slots[index].info;
      if ok {
        TombstoneKeepsShard(entries, hash, index);
        slots[index] := Entry(TOMBSTONE, info);
        assert slots[..] == entries[index := Entry(TOMBSTONE, info)];
      } else {
        assert Contents(entries) - {ptr} == Contents(entries);
      }
    }
  }
}
