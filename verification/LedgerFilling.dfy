/** A run of Insert and Erase that leads from an empty shard of 64 slots to the full window of
    LedgerEviction, under every hash function. */
module LedgerFilling {
  import opened Hashing
  import opened LedgerShard
  import opened LedgerEviction

  datatype Call = Insert(ptr: Key, info: AllocationInfo) | Erase(ptr: Key)

  ghost predicate CallStep(entries: seq<Entry>, entries': seq<Entry>, hash: Hash, call: Call) {
    TOMBSTONE < call.ptr &&
    match call
    case Insert(ptr, info) => InsertStep(entries, entries', hash, ptr, info)
    case Erase(ptr) => EraseStep(entries, entries', ptr)
  }

  ghost predicate IsRun(tables: seq<seq<Entry>>, calls: seq<Call>, hash: Hash) {
    && |tables| == |calls| + 1
    && (forall i :: 0 <= i < |tables[0]| ==> tables[0][i].key == EMPTY)
    && forall n :: 0 <= n < |calls| ==> CallStep(tables[n], tables[n + 1], hash, calls[n])
  }

  lemma Take(tables: seq<seq<Entry>>, calls: seq<Call>, hash: Hash, call: Call, next: seq<Entry>)
    returns (tables': seq<seq<Entry>>, calls': seq<Call>)
    requires IsRun(tables, calls, hash) && CallStep(tables[|calls|], next, hash, call)
    ensures tables' == tables + [next] && calls' == calls + [call] && IsRun(tables', calls', hash)
  {
    tables', calls' := tables + [next], calls + [call];
  }

  /** The scan ends in every table. */
  lemma ScanStops(entries: seq<Entry>, hash: Hash, ptr: Key) returns (s: ScanResult)
    requires 0 < |entries|
    ensures Stopped(entries, hash, ptr, s)
  {
    s := ScanResult(Reduced(hash(ptr), |entries|), 0, NoSlot, NoSlot);
    while s.probe < MAX_PROBE && entries[s.index].key != ptr && entries[s.index].key != EMPTY
      invariant ScanOk(entries, hash, ptr, s)
      decreases MAX_PROBE - s.probe
    {
      PassedKeepsScanOk(entries, hash, ptr, s);
      s := Passed(entries[s.index], s, |entries|);
    }
  }

  /** 64 probes around 64 slots meet every slot. */
  lemma ScanMeets(entries: seq<Entry>, hash: Hash, ptr: Key, s: ScanResult, i: nat)
    requires |entries| == MAX_PROBE && ScanOk(entries, hash, ptr, s) && s.probe == MAX_PROBE && i < MAX_PROBE
    ensures entries[i].key != EMPTY && (s.tombstone.NoSlot? ==> entries[i].key != TOMBSTONE)
  {
    ProbesGoAround(hash, ptr, ProbeOf(hash, ptr, i));
  }

  // ---------------------------------------------------------------- filling the empty slots

  const FILLER: nat := 100

  const SOME_INFO := AllocationInfo(0, 0, 0, 0, 0, 0, 0, 0, 0, 0, 0, 0, 0, 0, 0)

  /** Every slot is empty or holds one of the fillers below `limit`. */
  ghost predicate Fillers(entries: seq<Entry>, hash: Hash, limit: nat) {
    && WellFormed(entries, hash) && |entries| == MAX_PROBE
    && forall i :: 0 <= i < MAX_PROBE ==> entries[i].key == EMPTY || FILLER <= entries[i].key < limit
  }

  ghost function Empties(entries: seq<Entry>): set<int> {
    set i | 0 <= i < |entries| && entries[i].key == EMPTY
  }

  lemma {:induction false} AllAreEmpty(entries: seq<Entry>)
    requires forall i :: 0 <= i < |entries| ==> entries[i].key == EMPTY
    ensures |Empties(entries)| == |entries|
  {
    if entries == [] {
    } else {
      var n := |entries| - 1;
      AllAreEmpty(entries[..n]);
      assert Empties(entries) == Empties(entries[..n]) + {n};
    }
  }

  lemma FewerElements(a: set<int>, b: set<int>)
    requires a < b
    ensures |a| < |b|
  {
    assert |b| == |a| + |b - a|;
  }

  lemma FillOne(entries: seq<Entry>, hash: Hash, ptr: Key) returns (entries': seq<Entry>)
    requires FILLER <= ptr && Fillers(entries, hash, ptr) && Empties(entries) != {}
    ensures InsertStep(entries, entries', hash, ptr, SOME_INFO) && Fillers(entries', hash, ptr + 1)
    ensures Empties(entries') < Empties(entries)
  {
    var s := ScanStops(entries, hash, ptr);
    var hole: nat :| hole in Empties(entries);
    if s.probe == MAX_PROBE {
      ScanMeets(entries, hash, ptr, s, hole);
    }
    assert Target(entries, ptr, s) == At(s.index, s.probe);
    var _ := InsertAtTarget(entries, hash, ptr, SOME_INFO, s);
    entries' := AfterInsert(entries, ptr, SOME_INFO, s);
    assert s.index in Empties(entries) && s.index !in Empties(entries');
  }

  // ---------------------------------------------------------------- replacing the fillers

  /** The first `k` slots are those of the full window, and the rest hold fillers. */
  ghost predicate Replaced(entries: seq<Entry>, hash: Hash, k: nat) {
    && WellFormed(entries, hash) && |entries| == MAX_PROBE && k <= MAX_PROBE
    && (forall i :: 0 <= i < k ==> entries[i] == FullWindow()[i])
    && (forall i :: k <= i < MAX_PROBE ==> FILLER <= entries[i].key)
  }

  /** In a table of records with one tombstone, an insert of another key reuses that. */
  lemma TombstoneIsReused(entries: seq<Entry>, hash: Hash, ptr: Key, info: AllocationInfo, k: nat)
    requires WellFormed(entries, hash) && |entries| == MAX_PROBE && k < MAX_PROBE && TOMBSTONE < ptr
    requires entries[k].key == TOMBSTONE
    requires forall i :: 0 <= i < MAX_PROBE && i != k ==> entries[i].Live() && entries[i].key != ptr
    ensures InsertStep(entries, entries[k := Entry(ptr, info)], hash, ptr, info)
    ensures WellFormed(entries[k := Entry(ptr, info)], hash)
  {
    var s := ScanStops(entries, hash, ptr);
    if s.probe == MAX_PROBE {
      ScanMeets(entries, hash, ptr, s, k);
    }
    assert Target(entries, ptr, s) == s.tombstone && s.tombstone.index == k;
    var _ := InsertAtTarget(entries, hash, ptr, info, s);
    assert entries[k := Entry(ptr, info)] == AfterInsert(entries, ptr, info, s);
  }

  lemma WindowGrows(entries: seq<Entry>, hash: Hash, k: nat, entries': seq<Entry>)
    requires k < MAX_PROBE && Replaced(entries, hash, k)
    requires entries' == entries[k := FullWindow()[k]] && WellFormed(entries', hash)
    ensures Replaced(entries', hash, k + 1)
  {
  }

  /** Erasing the filler in slot `k` leaves the one tombstone, which the next insert reuses. */
  lemma ReplaceOne(entries: seq<Entry>, hash: Hash, k: nat) returns (erased: seq<Entry>, entries': seq<Entry>)
    requires k < MAX_PROBE && Replaced(entries, hash, k)
    ensures EraseStep(entries, erased, entries[k].key)
    ensures InsertStep(erased, entries', hash, k + 2, FreedRecord(k)) && Replaced(entries', hash, k + 1)
  {
    erased := entries[k := Entry(TOMBSTONE, entries[k].info)];
    entries' := entries[k := FullWindow()[k]];
    TombstoneKeepsShard(entries, hash, k);
    forall i | 0 <= i < MAX_PROBE && i != k
      ensures erased[i].Live() && erased[i].key != k + 2
    {
      assert erased[i] == if i < k then FullWindow()[i] else entries[i];
    }
    TombstoneIsReused(erased, hash, k + 2, FreedRecord(k), k);
    assert entries' == erased[k := Entry(k + 2, FreedRecord(k))];
    WindowGrows(entries, hash, k, entries');
  }

  lemma Filled(hash: Hash) returns (tables: seq<seq<Entry>>, calls: seq<Call>)
    ensures IsRun(tables, calls, hash) && |tables[0]| == MAX_PROBE && Replaced(tables[|calls|], hash, 0)
  {
    tables, calls := [seq(MAX_PROBE, i => Entry(EMPTY, SOME_INFO))], [];
    AllAreEmpty(tables[0]);
    var ptr := FILLER;
    while Empties(tables[|calls|]) != {}
      invariant IsRun(tables, calls, hash) && |tables[0]| == MAX_PROBE
      invariant FILLER <= ptr && Fillers(tables[|calls|], hash, ptr)
      invariant ptr + |Empties(tables[|calls|])| <= FILLER + MAX_PROBE
      decreases |Empties(tables[|calls|])|
    {
      var next := FillOne(tables[|calls|], hash, ptr);
      FewerElements(Empties(next), Empties(tables[|calls|]));
      tables, calls := Take(tables, calls, hash, Insert(ptr, SOME_INFO), next);
      ptr := ptr + 1;
    }
    forall i | 0 <= i < MAX_PROBE
      ensures FILLER <= tables[|calls|][i].key
    {
      assert i !in Empties(tables[|calls|]);
    }
  }

  /** The full window is reached from an empty shard by inserting until no slot is empty, and
      then, slot by slot, erasing what is there and inserting the window's record. */
  lemma FullWindowIsReached(hash: Hash) returns (tables: seq<seq<Entry>>, calls: seq<Call>)
    ensures IsRun(tables, calls, hash) && |tables[0]| == MAX_PROBE && tables[|calls|] == FullWindow()
  {
    tables, calls := Filled(hash);
    var k := 0;
    while k < MAX_PROBE
      invariant k <= MAX_PROBE && IsRun(tables, calls, hash) && |tables[0]| == MAX_PROBE
      invariant Replaced(tables[|calls|], hash, k)
    {
      var filler := tables[|calls|][k].key;
      var erased, next := ReplaceOne(tables[|calls|], hash, k);
      tables, calls := Take(tables, calls, hash, Erase(filler), erased);
      tables, calls := Take(tables, calls, hash, Insert(k + 2, FreedRecord(k)), next);
      k := k + 1;
    }
  }
}
