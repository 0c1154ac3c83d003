/** The shadow ledger (src/Core/ShadowLedger.cpp): shards selected by hash, behind a bloom
    filter that never ages. As a whole it is one partial map from pointers to records. */
module ShadowLedger {
  import opened Arithmetic
  import opened Hashing
  import opened LedgerShard
  import BF = BloomFilter

  datatype Lookup = Absent | Present(info: AllocationInfo)

  type Records = map<Key, AllocationInfo>

  function ShardIndex(hash: Hash, ptr: Key, count: nat): (i: nat)
    requires 0 < count
    ensures i < count
  {
    Reduced(hash(ptr), count)
  }

  /** Each key lives in the shard its hash selects, and is among the `known` keys. */
  ghost predicate Sorted(shards: seq<Records>, hash: Hash, known: seq<Key>, ready: bool) {
    forall i, ptr :: 0 <= i < |shards| && ptr in shards[i] ==>
      ShardIndex(hash, ptr, |shards|) == i && (ready ==> ptr in known)
  }

  /** One lookup in the map that the shards stand for together. */
  function RecordIn(shards: seq<Records>, hash: Hash, ptr: Key): Lookup
    requires 0 < |shards|
  {
    var records := shards[ShardIndex(hash, ptr, |shards|)];
    if ptr in records then Present(records[ptr]) else Absent
  }

  /** Changing one shard the way its Insert does changes the whole map the same way. */
  lemma SortedAfterInsert(shards: seq<Records>, hash: Hash, known: seq<Key>, ready: bool,
                          ptr: Key, info: AllocationInfo, evicted: set<Key>)
    requires 0 < |shards| && Sorted(shards, hash, known, ready) && (ready ==> ptr in known) && ptr !in evicted
    requires evicted <= shards[ShardIndex(hash, ptr, |shards|)].Keys
    ensures var k := ShardIndex(hash, ptr, |shards|);
            var shards' := shards[k := (shards[k] - evicted)[ptr := info]];
            && Sorted(shards', hash, known, ready)
            && RecordIn(shards', hash, ptr) == Present(info)
            && (forall p :: p in evicted ==>
                  RecordIn(shards, hash, p) == Present(shards[k][p]) && RecordIn(shards', hash, p) == Absent)
            && (forall p :: p != ptr && p !in evicted ==> RecordIn(shards', hash, p) == RecordIn(shards, hash, p))
  {
  }

  /** The contract of Insert on the map: the record is in, or nothing has changed and its key
      was absent; at most one other record, a freed one, has made room for a new key; and
      every other lookup answers as before. */
  ghost predicate InsertEffect(before: seq<Records>, after: seq<Records>, hash: Hash,
                               ptr: Key, info: AllocationInfo, stored: bool, evicted: set<Key>)
    requires 0 < |before| && 0 < |after|
  {
    && |evicted| <= 1 && ptr !in evicted
    && RecordIn(after, hash, ptr) == (if stored then Present(info) else Absent)
    && (evicted != {} ==> stored)
    && (evicted != {} || !stored ==> RecordIn(before, hash, ptr) == Absent)
    && (forall p :: p in evicted ==>
          var victim := RecordIn(before, hash, p);
          victim.Present? && Freed(victim.info) && RecordIn(after, hash, p) == Absent)
    && (forall p :: p != ptr && p !in evicted ==> RecordIn(after, hash, p) == RecordIn(before, hash, p))
  }

  lemma NothingStored(maps: seq<Records>, hash: Hash, ptr: Key, info: AllocationInfo)
    requires 0 < |maps| && RecordIn(maps, hash, ptr) == Absent
    ensures InsertEffect(maps, maps, hash, ptr, info, false, {})
  {
  }

  lemma SortedAfterErase(shards: seq<Records>, hash: Hash, known: seq<Key>, ready: bool, ptr: Key)
    requires 0 < |shards| && Sorted(shards, hash, known, ready)
    ensures var k := ShardIndex(hash, ptr, |shards|);
            var shards' := shards[k := shards[k] - {ptr}];
            && Sorted(shards', hash, known, ready)
            && RecordIn(shards', hash, ptr) == Absent
            && (forall p :: p != ptr ==> RecordIn(shards', hash, p) == RecordIn(shards, hash, p))
  {
  }

  method NewShards(count: nat, capacity: nat, hash: Hash) returns (shards: seq<Shard>)
    requires 0 < capacity
    ensures |shards| == count
    ensures forall i :: 0 <= i < count ==>
              && fresh(shards[i]) && fresh(shards[i].slots) && shards[i].slots.Length == capacity
              && shards[i].Valid() && shards[i].hash == hash && shards[i].Records() == map[]
    ensures forall i, j :: 0 <= i < j < count ==> shards[i] != shards[j] && shards[i].slots != shards[j].slots
  {
    shards := [];
    while |shards| < count
      invariant |shards| <= count
      invariant forall i :: 0 <= i < |shards| ==>
                  && fresh(shards[i]) && fresh(shards[i].slots) && shards[i].slots.Length == capacity
                  && shards[i].Valid() && shards[i].hash == hash && shards[i].Records() == map[]
      invariant forall i, j :: 0 <= i < j < |shards| ==> shards[i] != shards[j] && shards[i].slots != shards[j].slots
    {
      var shard := new Shard(capacity, hash);
      shards := shards + [shard];
    }
  }

  class ShadowLedger {
    const hash: Hash
    const shards: seq<Shard>
    const bloom: BF.BloomFilter
    var insertFailures: nat

    ghost function ShardFootprint(): set<object> {
      (set i | 0 <= i < |shards| :: shards[i]) + (set i | 0 <= i < |shards| :: shards[i].slots)
    }

    ghost function Footprint(): set<object> {
      {this, bloom, bloom.half0, bloom.half1} + ShardFootprint()
    }

    function ShardOf(ptr: Key): (i: nat)
      requires 0 < |shards|
      ensures i < |shards|
    {
      ShardIndex(hash, ptr, |shards|)
    }

    ghost predicate Separate() {
      && 0 < |shards|
      && (forall i, j :: 0 <= i < j < |shards| ==> shards[i] != shards[j] && shards[i].slots != shards[j].slots)
      && (forall i :: 0 <= i < |shards| ==> shards[i].hash == hash && 0 < shards[i].slots.Length)
    }

    ghost predicate ShardsValid()
      reads ShardFootprint()
    {
      Separate() && forall i :: 0 <= i < |shards| ==> shards[i].Valid()
    }

    ghost predicate Valid()
      reads Footprint()
    {
      && ShardsValid()
      && bloom.Valid() && !bloom.aging
      && Sorted(Maps(), hash, bloom.retained.recent, bloom.ready)
    }

    ghost function Maps(): (maps: seq<Records>)
      reads ShardFootprint()
      ensures |maps| == |shards| && forall i :: 0 <= i < |shards| ==> maps[i] == shards[i].Records()
    {
      seq(|shards|, i requires 0 <= i < |shards| reads ShardFootprint() => shards[i].Records())
    }

    /** The map the ledger stands for, one lookup at a time. */
    ghost function Record(ptr: Key): Lookup
      requires 0 < |shards|
      reads ShardFootprint()
    {
      RecordIn(Maps(), hash, ptr)
    }

    constructor (hash: Hash, shards: seq<Shard>, bloom: BF.BloomFilter)
      requires 0 < |shards| && bloom.Valid() && !bloom.aging
      requires forall i :: 0 <= i < |shards| ==>
                 shards[i].Valid() && shards[i].hash == hash && shards[i].Records() == map[]
      requires forall i, j :: 0 <= i < j < |shards| ==> shards[i] != shards[j] && shards[i].slots != shards[j].slots
      ensures this.hash == hash && this.shards == shards && this.bloom == bloom
      ensures Valid() && insertFailures == 0 && forall ptr :: Record(ptr) == Absent
    {
      this.hash := hash;
      this.shards := shards;
      this.bloom := bloom;
      insertFailures := 0;
    }

    /** Tells the pre-filter about a key. */
    method Announce(ptr: Key)
      requires Valid()
      modifies bloom, bloom.half0, bloom.half1
      ensures Valid() && (bloom.ready ==> ptr in bloom.retained.recent)
      ensures Maps() == old(Maps())
    {
      ghost var before := Maps();
      bloom.Add(ptr);
      assert Maps() == before;
      assert ShardsValid();
    }

    method InsertInShard(ptr: Key, info: AllocationInfo) returns (stored: bool, ghost evicted: set<Key>)
      requires ShardsValid() && TOMBSTONE < ptr
      modifies shards[ShardOf(ptr)], shards[ShardOf(ptr)].slots
      ensures ShardsValid()
      ensures var k := ShardOf(ptr);
              var before := old(Maps());
              && Maps() == (if stored then before[k := (before[k] - evicted)[ptr := info]] else before)
              && evicted <= before[k].Keys && |evicted| <= 1 && ptr !in evicted
              && (forall p :: p in evicted ==> Freed(before[k][p]))
              && (evicted != {} ==> stored && ptr !in before[k])
              && (!stored ==> ptr !in before[k])
              && (!stored <==> old(Saturated(shards[k].slots[..], hash, ptr)))
              && EvictsFirstFreed(old(shards[k].slots[..]), hash, ptr, evicted)
    {
      ghost var before := Maps();
      ghost var k := ShardOf(ptr);
      var shard := shards[ShardOf(ptr)];
      stored, evicted := shard.Insert(ptr, info);
      forall i | 0 <= i < |shards| && i != k
        ensures shards[i].Valid() && shards[i].Records() == before[i]
      {
        assert shards[i] != shard && shards[i].slots != shard.slots;
      }
      assert Maps() == if stored then before[k := (before[k] - evicted)[ptr := info]] else before;
    }

    method Place(ptr: Key, info: AllocationInfo) returns (stored: bool, ghost evicted: set<Key>)
      requires Valid() && TOMBSTONE < ptr && (bloom.ready ==> ptr in bloom.retained.recent)
      modifies shards[ShardOf(ptr)], shards[ShardOf(ptr)].slots
      ensures Valid()
      ensures InsertEffect(old(Maps()), Maps(), hash, ptr, info, stored, evicted)
      ensures !stored <==> old(Saturated(shards[ShardOf(ptr)].slots[..], hash, ptr))
      ensures EvictsFirstFreed(old(shards[ShardOf(ptr)].slots[..]), hash, ptr, evicted)
    {
      ghost var before := Maps();
      stored, evicted := InsertInShard(ptr, info);
      if stored {
        SortedAfterInsert(before, hash, bloom.retained.recent, bloom.ready, ptr, info, evicted);
      }
    }

    /** Insert of a pointer that is not one of the table's own marks. */
    method InsertKey(ptr: Key, info: AllocationInfo) returns (stored: bool, ghost evicted: set<Key>)
      requires Valid() && TOMBSTONE < ptr
      modifies bloom, bloom.half0, bloom.half1, shards[ShardOf(ptr)], shards[ShardOf(ptr)].slots
      ensures Valid()
      ensures InsertEffect(old(Maps()), Maps(), hash, ptr, info, stored, evicted)
      ensures !stored <==> old(Saturated(shards[ShardOf(ptr)].slots[..], hash, ptr))
      ensures EvictsFirstFreed(old(shards[ShardOf(ptr)].slots[..]), hash, ptr, evicted)
    {
      Announce(ptr);
      stored, evicted := Place(ptr, info);
    }

    /** Stores a record or counts a failure; at most one other record, the first freed one in
        the probe window, makes room. Pointers 0 and 1 are the table's own marks and are
        ignored. */
    method Insert(ptr: Key, info: AllocationInfo) returns (ghost stored: bool, ghost evicted: set<Key>)
      requires Valid()
      modifies Footprint()
      ensures Valid()
      ensures InsertEffect(old(Maps()), Maps(), hash, ptr, info, stored, evicted)
      ensures insertFailures == old(insertFailures) + if ptr > TOMBSTONE && !stored then 1 else 0
      ensures ptr > TOMBSTONE ==> (!stored <==> old(Saturated(shards[ShardOf(ptr)].slots[..], hash, ptr)))
      ensures EvictsFirstFreed(old(shards[ShardOf(ptr)].slots[..]), hash, ptr, evicted)
    {
      stored, evicted := false, {};
      if ptr <= TOMBSTONE {
        ContentsHasLiveKeys(shards[ShardOf(ptr)].slots[..], ptr);
        NothingStored(Maps(), hash, ptr, info);
        return;
      }
      var ok;
      ok, evicted := InsertKey(ptr, info);
      stored := ok;
      if !ok {
        insertFailures := insertFailures + 1;
      }
    }

    /** Exactly the lookup of the map: the pre-filter never changes the answer. */
    method Find(ptr: Key) returns (ok: bool, info: AllocationInfo)
      requires Valid()
      ensures Record(ptr) == if ok then Present(info) else Absent
    {
      var shard := shards[ShardOf(ptr)];
      info := shard.slots[0].info;
      if ptr <= TOMBSTONE {
        ContentsHasLiveKeys(shard.slots[..], ptr);
        return false, info;
      }
      var maybe := bloom.MightContain(ptr);
      if !maybe {
        return false, info;
      }
      ok, info := shard.Find(ptr);
    }

    method EraseInShard(ptr: Key) returns (ok: bool, info: AllocationInfo)
      requires ShardsValid() && TOMBSTONE < ptr
      modifies shards[ShardOf(ptr)].slots
      ensures ShardsValid()
      ensures var k := ShardOf(ptr);
              var before := old(Maps());
              && Maps() == before[k := before[k] - {ptr}]
              && (ok <==> ptr in before[k])
              && (ok ==> info == before[k][ptr])
    {
      ghost var before := Maps();
      ghost var k := ShardOf(ptr);
      var shard := shards[ShardOf(ptr)];
      ok, info := shard.Erase(ptr);
      forall i | 0 <= i < |shards| && i != k
        ensures shards[i].Valid() && shards[i].Records() == before[i]
      {
        assert shards[i] != shard && shards[i].slots != shard.slots;
      }
      assert Maps() == before[k := before[k] - {ptr}];
    }

    method Erase(ptr: Key) returns (ok: bool, info: AllocationInfo)
      requires Valid()
      modifies ShardFootprint()
      ensures Valid()
      ensures old(Record(ptr)) == if ok then Present(info) else Absent
      ensures Record(ptr) == Absent
      ensures forall p :: p != ptr ==> Record(p) == old(Record(p))
    {
      if ptr <= TOMBSTONE {
        ContentsHasLiveKeys(shards[ShardOf(ptr)].slots[..], ptr);
        return false, shards[ShardOf(ptr)].slots[0].info;
      }
      ghost var before := Maps();
      ok, info := EraseInShard(ptr);
      SortedAfterErase(before, hash, bloom.retained.recent, bloom.ready, ptr);
    }

    /** The number of slots that are not empty: erased records still count, as tombstones. */
    ghost function TakenSlots(n: nat): nat
      requires n <= |shards|
      reads ShardFootprint()
    {
      if n == 0 then 0 else TakenSlots(n - 1) + |Taken(shards[n - 1].slots[..])|
    }

    method Count() returns (total: nat)
      requires Valid()
      ensures total == TakenSlots(|shards|)
    {
      total := 0;
      var i := 0;
      while i < |shards|
        invariant i <= |shards| && total == TakenSlots(i)
      {
        total := total + shards[i].count;
        i := i + 1;
      }
    }
  }

  /** The ledger as Init builds it: empty, a power of two of shards, each of the same power of
      two of slots, at least 16. */
  method Init(capacity: nat, shards: nat) returns (ledger: ShadowLedger)
    ensures ledger.Valid() && fresh(ledger) && fresh(ledger.bloom)
    ensures fresh(ledger.bloom.half0) && fresh(ledger.bloom.half1)
    ensures forall i :: 0 <= i < |ledger.shards| ==> fresh(ledger.shards[i]) && fresh(ledger.shards[i].slots)
    ensures 0 < |ledger.shards| && forall ptr :: ledger.Record(ptr) == Absent
    ensures shards <= |ledger.shards| && PowerOfTwo(|ledger.shards|)
    ensures forall i :: 0 <= i < |ledger.shards| ==>
              var slots := ledger.shards[i].slots.Length;
              16 <= slots && capacity / |ledger.shards| <= slots && PowerOfTwo(slots)
  {
    var shardCount := RoundUp(if shards < 1 then 1 else shards);
    var perShard := capacity / shardCount;
    var shardCapacity := RoundUp(if perShard < 16 then 16 else perShard);
    var made := NewShards(shardCount, shardCapacity, LedgerHash);
    var bloom := new BF.BloomFilter.Init(BF.HashPair(FirstHash, SecondHash), shardCount * shardCapacity, 10, false);
    ledger := new ShadowLedger(LedgerHash, made, bloom);
  }
}
