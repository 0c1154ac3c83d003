/** Which freed record makes room in a full probe window (Insert in src/Core/ShadowLedger.cpp):
    the first one on the probe path, which need not be the one that was freed first. */
module LedgerEviction {
  import opened Hashing
  import opened LedgerShard

  function RecordAt(entries: seq<Entry>, hash: Hash, ptr: Key, p: nat): Entry
    requires 0 < |entries|
  {
    entries[Probe(hash, ptr, p, |entries|)]
  }

  /** Probe `p` meets a freed record, and none in the window was freed earlier. */
  ghost predicate OldestFreed(entries: seq<Entry>, hash: Hash, ptr: Key, p: nat)
    requires 0 < |entries|
  {
    && p < MAX_PROBE && FreedAt(entries, hash, ptr, p)
    && forall q :: 0 <= q < MAX_PROBE && FreedAt(entries, hash, ptr, q) ==>
         RecordAt(entries, hash, ptr, p).info.freeTick <= RecordAt(entries, hash, ptr, q).info.freeTick
  }

  ghost predicate EvictsOldestFreed(entries: seq<Entry>, hash: Hash, ptr: Key, evicted: set<Key>)
    requires 0 < |entries|
  {
    exists p: nat :: OldestFreed(entries, hash, ptr, p) && evicted == {RecordAt(entries, hash, ptr, p).key}
  }

  /** Behind the first freed record of the window lies none that was freed before it. */
  ghost predicate NothingOlderBehind(entries: seq<Entry>, hash: Hash, ptr: Key)
    requires 0 < |entries|
  {
    forall p: nat, q: nat ::
      FirstFreed(entries, hash, ptr, p) && p < q < MAX_PROBE && FreedAt(entries, hash, ptr, q) ==>
        RecordAt(entries, hash, ptr, p).info.freeTick <= RecordAt(entries, hash, ptr, q).info.freeTick
  }

  lemma TheFirstFreedIsEvicted(entries: seq<Entry>, hash: Hash, ptr: Key, evicted: set<Key>, p: nat)
    requires 0 < |entries| && evicted != {} && EvictsFirstFreed(entries, hash, ptr, evicted)
    requires FirstFreed(entries, hash, ptr, p)
    ensures evicted == {RecordAt(entries, hash, ptr, p).key}
  {
    var q: nat :| FirstFreed(entries, hash, ptr, q) && evicted == {RecordAt(entries, hash, ptr, q).key};
    assert FreedAt(entries, hash, ptr, p) && FreedAt(entries, hash, ptr, q);
    assert p == q;
  }

  /** When an insert evicts, it evicts the record that was freed first exactly when no older
      one lies behind the first freed record on the probe path. */
  lemma EvictsTheOldestIffNothingOlderBehind(entries: seq<Entry>, hash: Hash, ptr: Key, evicted: set<Key>)
    requires WellFormed(entries, hash) && evicted != {} && EvictsFirstFreed(entries, hash, ptr, evicted)
    ensures EvictsOldestFreed(entries, hash, ptr, evicted) <==> NothingOlderBehind(entries, hash, ptr)
  {
    var p: nat :| FirstFreed(entries, hash, ptr, p) && evicted == {RecordAt(entries, hash, ptr, p).key};
    forall q: nat | FirstFreed(entries, hash, ptr, q)
      ensures q == p
    {
      assert FreedAt(entries, hash, ptr, p) && FreedAt(entries, hash, ptr, q);
    }
    if NothingOlderBehind(entries, hash, ptr) {
      forall q | 0 <= q < MAX_PROBE && FreedAt(entries, hash, ptr, q)
        ensures RecordAt(entries, hash, ptr, p).info.freeTick <= RecordAt(entries, hash, ptr, q).info.freeTick
      {
        assert p <= q;
      }
      assert OldestFreed(entries, hash, ptr, p);
    }
    if EvictsOldestFreed(entries, hash, ptr, evicted) {
      var o: nat :| OldestFreed(entries, hash, ptr, o) && evicted == {RecordAt(entries, hash, ptr, o).key};
      assert RecordAt(entries, hash, ptr, o).key in evicted && RecordAt(entries, hash, ptr, p).key in evicted;
      assert RecordAt(entries, hash, ptr, o) == RecordAt(entries, hash, ptr, p);
    }
  }

  // ---------------------------------------------------------------- a window where it is not the oldest

  /** Record `i` of the window: freed at tick 100 - i. */
  function FreedRecord(i: nat): AllocationInfo
    requires i < MAX_PROBE
  {
    AllocationInfo(i + 2, 8, 0, 4, 0, 0, 0, 0, 0, 0, 0, 0, 100 - i, 0, 0)
  }

  /** 64 freed records in a window of 64, the most recently freed one first. */
  function FullWindow(): (w: seq<Entry>)
    ensures |w| == MAX_PROBE
  {
    seq(MAX_PROBE, i requires 0 <= i < MAX_PROBE => Entry(i + 2, FreedRecord(i)))
  }

  function Home(hash: Hash, ptr: Key): (i: nat)
    ensures i < MAX_PROBE
  {
    Reduced(hash(ptr), MAX_PROBE)
  }

  /** In a table of 64 slots, 64 probes go once around it from the home slot. */
  lemma {:induction false} ProbesGoAround(hash: Hash, ptr: Key, p: nat)
    requires p < MAX_PROBE
    ensures Probe(hash, ptr, p, MAX_PROBE)
         == Home(hash, ptr) + p - if Home(hash, ptr) + p < MAX_PROBE then 0 else MAX_PROBE
  {
    if p == 0 {
    } else {
      ProbesGoAround(hash, ptr, p - 1);
    }
  }

  /** The probe that meets slot `i`. */
  function ProbeOf(hash: Hash, ptr: Key, i: nat): (p: nat)
    requires i < MAX_PROBE
    ensures p < MAX_PROBE
  {
    if Home(hash, ptr) <= i then i - Home(hash, ptr) else i + MAX_PROBE - Home(hash, ptr)
  }

  /** A full window is a well-formed table under every hash function. */
  lemma FullWindowIsWellFormed(hash: Hash)
    ensures WellFormed(FullWindow(), hash)
  {
    var w := FullWindow();
    forall i | 0 <= i < |w|
      ensures Placed(w, hash, i)
    {
      ProbesGoAround(hash, w[i].key, ProbeOf(hash, w[i].key, i));
      assert LeadsTo(w, hash, w[i].key, i, ProbeOf(hash, w[i].key, i));
    }
  }

  lemma EveryProbeMeetsAFreedRecord(hash: Hash, ptr: Key, p: nat)
    requires p < MAX_PROBE
    ensures var i := Probe(hash, ptr, p, MAX_PROBE);
            RecordAt(FullWindow(), hash, ptr, p) == Entry(i + 2, FreedRecord(i))
    ensures FreedAt(FullWindow(), hash, ptr, p)
  {
  }

  lemma WindowIsFullOfFreedRecords(hash: Hash, ptr: Key)
    requires MAX_PROBE + 2 <= ptr
    ensures FullOfRecords(FullWindow(), hash, ptr) && !Saturated(FullWindow(), hash, ptr)
  {
    forall p: nat | p < MAX_PROBE
      ensures RecordAt(FullWindow(), hash, ptr, p).Live() && RecordAt(FullWindow(), hash, ptr, p).key != ptr
      ensures FreedAt(FullWindow(), hash, ptr, p)
    {
      EveryProbeMeetsAFreedRecord(hash, ptr, p);
    }
    assert FreedAt(FullWindow(), hash, ptr, 0);
  }

  lemma HomeComesFirst(hash: Hash, ptr: Key)
    ensures FirstFreed(FullWindow(), hash, ptr, 0)
    ensures RecordAt(FullWindow(), hash, ptr, 0) == Entry(Home(hash, ptr) + 2, FreedRecord(Home(hash, ptr)))
  {
    EveryProbeMeetsAFreedRecord(hash, ptr, 0);
  }

  /** Nothing older lies behind the home slot exactly when it is the last one, freed first. */
  lemma OnlyTheLastIsOldest(hash: Hash, ptr: Key)
    ensures NothingOlderBehind(FullWindow(), hash, ptr) <==> Home(hash, ptr) == MAX_PROBE - 1
  {
    HomeComesFirst(hash, ptr);
    if Home(hash, ptr) == MAX_PROBE - 1 {
      forall p: nat, q: nat | FirstFreed(FullWindow(), hash, ptr, p) && p < q < MAX_PROBE
        ensures RecordAt(FullWindow(), hash, ptr, p).info.freeTick <= RecordAt(FullWindow(), hash, ptr, q).info.freeTick
      {
        assert p == 0;
        EveryProbeMeetsAFreedRecord(hash, ptr, q);
      }
    } else {
      var q := ProbeOf(hash, ptr, MAX_PROBE - 1);
      ProbesGoAround(hash, ptr, q);
      EveryProbeMeetsAFreedRecord(hash, ptr, q);
      assert FirstFreed(FullWindow(), hash, ptr, 0) && FreedAt(FullWindow(), hash, ptr, q);
    }
  }

  /** Whatever the hash function, any insert of a new pointer into this table evicts the record
      in the pointer's home slot. That is the one freed first exactly for the pointers whose
      home is the last of the 64 slots; for home slot 0 it is the one freed last. */
  lemma EvictsTheHomeRecord(
    hash: Hash, ptr: Key, after: seq<Entry>, info: AllocationInfo, stored: bool, evicted: set<Key>)
    requires MAX_PROBE + 2 <= ptr && Inserted(FullWindow(), after, hash, ptr, info, stored, evicted)
    ensures WellFormed(FullWindow(), hash) && stored && evicted == {Home(hash, ptr) + 2}
    ensures EvictsOldestFreed(FullWindow(), hash, ptr, evicted) <==> Home(hash, ptr) == MAX_PROBE - 1
  {
    FullWindowIsWellFormed(hash);
    WindowIsFullOfFreedRecords(hash, ptr);
    HomeComesFirst(hash, ptr);
    OnlyTheLastIsOldest(hash, ptr);
    TheFirstFreedIsEvicted(FullWindow(), hash, ptr, evicted, 0);
    EvictsTheOldestIffNothingOlderBehind(FullWindow(), hash, ptr, evicted);
  }

  // ---------------------------------------------------------------- with the program's own hash

  const NEWCOMER: Key := 0x1_0000

  lemma MixOfNewcomer()
    ensures LedgerHash(NEWCOMER) == 5934079599023411913
  {
    var a: bv64 := ((0x1_0000 as bv64) >> 4) * 0x9E3779B97F4A7C15;
    var b := a ^ (a >> 29);
    var c := b * 0xBF58476D1CE4E5B9;
    assert c ^ (c >> 32) == 5934079599023411913;
    assert (0x1_0000 as bv64) == 0x1_0000;
  }

  lemma HomeOf(hash: Hash, ptr: Key)
    requires hash(ptr) == 5934079599023411913
    ensures Home(hash, ptr) == 9
  {
    ReducedIsRemainder(hash(ptr), MAX_PROBE);
  }

  ghost predicate EvictsTheTenth(hash: Hash, ptr: Key, evicted: set<Key>) {
    && WellFormed(FullWindow(), hash) && evicted == {FullWindow()[9].key}
    && FullWindow()[9].info.freeTick == 91
    && (forall i :: 9 < i < MAX_PROBE ==> Freed(FullWindow()[i].info) && FullWindow()[i].info.freeTick < 91)
    && !EvictsOldestFreed(FullWindow(), hash, ptr, evicted)
  }

  lemma TenthIsEvicted(
    hash: Hash, ptr: Key, after: seq<Entry>, info: AllocationInfo, stored: bool, evicted: set<Key>)
    requires MAX_PROBE + 2 <= ptr && Inserted(FullWindow(), after, hash, ptr, info, stored, evicted)
    requires hash(ptr) == 5934079599023411913
    ensures stored && EvictsTheTenth(hash, ptr, evicted)
  {
    HomeOf(hash, ptr);
    EvictsTheHomeRecord(hash, ptr, after, info, stored, evicted);
  }

  /** For pointer 0x10000 the hash of the program, or any that agrees with it there, selects home
      slot 9: an insert evicts the record freed at tick 91, although the 54 records behind it
      were freed before that. */
  lemma EvictsANewerRecord(hash: Hash, after: seq<Entry>, info: AllocationInfo, stored: bool, evicted: set<Key>)
    requires hash(NEWCOMER) == LedgerHash(NEWCOMER)
    requires Inserted(FullWindow(), after, hash, NEWCOMER, info, stored, evicted)
    ensures stored && EvictsTheTenth(hash, NEWCOMER, evicted)
  {
    MixOfNewcomer();
    TenthIsEvicted(hash, NEWCOMER, after, info, stored, evicted);
  }
}
