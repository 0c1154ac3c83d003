/** The admission loop around the poison quarantine: DrainOneQuarantined and TryPoisonOnFree
    in src/Hooks/Hooks.cpp. Whether an address is readable and whether a heap still looks
    alive are parameters; calls of the original free and writes into blocks are recorded. */
module Admission {
  import opened PoisonQuarantine

  const WORD_BYTES: nat := 8
  const MAX_DRAINS: nat := 0x10_0000

  /** One call of the engine's own free. */
  datatype FreeCall = FreeCall(heap: nat, ptr: nat)

  // ---------------------------------------------------------------- what the loop drains

  /** How many of the held blocks leave, oldest first, before a block of `size` bytes fits. */
  function Drains(held: seq<QuarantineRecord>, capacity: nat, maxBytes: nat, size: nat, limit: nat): (n: nat)
    ensures n <= |held| && n <= limit
    decreases limit
  {
    if Fits(held, capacity, maxBytes, size) || limit == 0 || held == [] then 0
    else 1 + Drains(held[1..], capacity, maxBytes, size, limit - 1)
  }

  ghost predicate NoRoomBefore(held: seq<QuarantineRecord>, n: nat, capacity: nat, maxBytes: nat, size: nat)
    requires n <= |held|
  {
    forall j :: 0 <= j < n ==> !Fits(held[j..], capacity, maxBytes, size)
  }

  lemma NoRoomOneMore(held: seq<QuarantineRecord>, n: nat, capacity: nat, maxBytes: nat, size: nat)
    requires n < |held| && NoRoomBefore(held, n, capacity, maxBytes, size) && !Fits(held[n..], capacity, maxBytes, size)
    ensures NoRoomBefore(held, n + 1, capacity, maxBytes, size)
  {
  }

  /** Stopping after `n` drains is as early as the loop may stop. */
  ghost predicate StopsAt(held: seq<QuarantineRecord>, n: nat, capacity: nat, maxBytes: nat, size: nat, limit: nat) {
    && n <= |held| && n <= limit
    && NoRoomBefore(held, n, capacity, maxBytes, size)
    && (Fits(held[n..], capacity, maxBytes, size) || n == |held| || n == limit)
  }

  /** Not one block more than necessary leaves, and not one fewer than allowed. */
  lemma {:induction false} DrainsAreTheFewest(
    held: seq<QuarantineRecord>, n: nat, capacity: nat, maxBytes: nat, size: nat, limit: nat)
    ensures StopsAt(held, n, capacity, maxBytes, size, limit) <==> n == Drains(held, capacity, maxBytes, size, limit)
    decreases limit
  {
    assert held[0..] == held;
    if !Fits(held, capacity, maxBytes, size) && limit != 0 && held != [] {
      assert forall j :: 0 < j <= |held| ==> held[1..][j - 1..] == held[j..];
      if 0 < n <= |held| {
        DrainsAreTheFewest(held[1..], n - 1, capacity, maxBytes, size, limit - 1);
        StopsOneLater(held, n, capacity, maxBytes, size, limit);
      }
    }
  }

  lemma StopsOneLater(held: seq<QuarantineRecord>, n: nat, capacity: nat, maxBytes: nat, size: nat, limit: nat)
    requires 0 < n <= |held| && 0 < limit && !Fits(held, capacity, maxBytes, size)
    ensures StopsAt(held, n, capacity, maxBytes, size, limit)
       <==> StopsAt(held[1..], n - 1, capacity, maxBytes, size, limit - 1)
  {
    assert held[0..] == held;
    assert forall j :: 0 < j <= |held| ==> held[1..][j - 1..] == held[j..];
    if StopsAt(held, n, capacity, maxBytes, size, limit) {
      forall j | 0 <= j < n - 1
        ensures !Fits(held[1..][j..], capacity, maxBytes, size)
      {
        assert held[1..][j..] == held[j + 1..];
      }
    }
  }

  /** With at most `limit` blocks held, draining makes room for a block exactly when the
      block alone is within the byte budget; one that is not empties the quarantine in vain. */
  lemma RoomIffWithinBudget(
    held: seq<QuarantineRecord>, capacity: nat, maxBytes: nat, size: nat, limit: nat)
    requires 0 < capacity && |held| <= limit
    ensures var n := Drains(held, capacity, maxBytes, size, limit);
            && (Fits(held[n..], capacity, maxBytes, size) <==> maxBytes == 0 || size <= maxBytes)
            && (maxBytes != 0 && size > maxBytes ==> n == |held|)
    decreases limit
  {
    var n := Drains(held, capacity, maxBytes, size, limit);
    DrainsAreTheFewest(held, n, capacity, maxBytes, size, limit);
    if n == |held| {
      assert held[n..] == [];
    }
  }

  /** What the engine sees of the drained blocks: a free for each whose heap is still alive,
      and nothing, so a leak, for one without a heap or with a dead one. */
  function Freed(drained: seq<QuarantineRecord>, heapLive: nat -> bool): seq<FreeCall> {
    if drained == [] then []
    else
      var last := drained[|drained| - 1];
      Freed(drained[..|drained| - 1], heapLive)
      + if last.heap != 0 && heapLive(last.heap) then [FreeCall(last.heap, last.ptr)] else []
  }

  /** Each call made is for one drained block, and only a block of a dead heap goes without. */
  lemma {:induction false} FreedExactlyTheLive(drained: seq<QuarantineRecord>, heapLive: nat -> bool, call: FreeCall)
    ensures call in Freed(drained, heapLive)
       <==> exists k :: 0 <= k < |drained| && drained[k].heap != 0 && heapLive(drained[k].heap)
                        && call == FreeCall(drained[k].heap, drained[k].ptr)
    ensures |Freed(drained, heapLive)| <= |drained|
  {
    if drained == [] {
    } else {
      var rest := drained[..|drained| - 1];
      FreedExactlyTheLive(rest, heapLive, call);
      assert drained == rest + [drained[|rest|]];
    }
  }

  lemma FreedOne(record: QuarantineRecord, heapLive: nat -> bool)
    ensures Freed([record], heapLive)
         == if record.heap != 0 && heapLive(record.heap) then [FreeCall(record.heap, record.ptr)] else []
  {
    assert [record][..0] == [];
  }

  // ---------------------------------------------------------------- the engine's side

  /** What the hooks do to the game: original frees called, and first words of blocks. */
  class Engine {
    var freed: seq<FreeCall>
    var words: map<nat, nat>

    constructor ()
      ensures freed == [] && words == map[]
    {
      freed, words := [], map[];
    }

    method OriginalFree(heap: nat, ptr: nat)
      modifies this`freed
      ensures freed == old(freed) + [FreeCall(heap, ptr)]
    {
      freed := freed + [FreeCall(heap, ptr)];
    }

    method WriteWord(ptr: nat, word: nat)
      modifies this`words
      ensures words == old(words)[ptr := word]
    {
      words := words[ptr := word];
    }
  }

  ghost predicate HoldsPoison(q: PoisonQuarantine, words: map<nat, nat>, r: QuarantineRecord) {
    0 < r.index && r.ptr in words && words[r.ptr] == q.PoisonFor(r.index)
  }

  /** The first word of every held block is that block's own poison. */
  ghost predicate AllPoisoned(q: PoisonQuarantine, words: map<nat, nat>, held: seq<QuarantineRecord>) {
    forall k :: 0 <= k < |held| ==> HoldsPoison(q, words, held[k])
  }

  /** The same, and none of the held blocks is the one at `mem`. */
  ghost predicate PoisonedElsewhere(q: PoisonQuarantine, words: map<nat, nat>, held: seq<QuarantineRecord>, mem: nat) {
    AllPoisoned(q, words, held) && forall k :: 0 <= k < |held| ==> held[k].ptr != mem
  }

  lemma PoisonSurvives(q: PoisonQuarantine, words: map<nat, nat>, held: seq<QuarantineRecord>, r: QuarantineRecord)
    requires 0 < r.index
    ensures PoisonedElsewhere(q, words, held, r.ptr)
        ==> AllPoisoned(q, words[r.ptr := q.PoisonFor(r.index)], held + [r])
  {
  }

  lemma DrainsKeepPoison(q: PoisonQuarantine, words: map<nat, nat>, held: seq<QuarantineRecord>, n: nat, mem: nat)
    requires n <= |held|
    ensures PoisonedElsewhere(q, words, held, mem) ==> PoisonedElsewhere(q, words, held[n..], mem)
  {
  }

  // ---------------------------------------------------------------- the loop

  /** What the drain loop touches. */
  datatype Progress = Progress(left: seq<QuarantineRecord>, held: seq<QuarantineRecord>, freed: seq<FreeCall>)

  ghost function ProgressOf(q: PoisonQuarantine, e: Engine): Progress
    requires q.Valid()
    reads q, q.slots, e
  {
    Progress(q.left, q.held, e.freed)
  }

  /** The state after one drain of a non-empty quarantine. */
  ghost function OneDrain(now: Progress, heapLive: nat -> bool): Progress
    requires now.held != []
  {
    Progress(now.left + now.held[..1], now.held[1..], now.freed + Freed(now.held[..1], heapLive))
  }

  method DrainOneQuarantined(q: PoisonQuarantine, e: Engine, heapLive: nat -> bool) returns (ok: bool)
    requires q.Valid()
    modifies q, e`freed
    ensures q.Valid() && q.ready == old(q.ready) && q.admitted == old(q.admitted)
    ensures ok <==> q.ready && old(q.held) != []
    ensures ProgressOf(q, e) == if ok then OneDrain(old(ProgressOf(q, e)), heapLive) else old(ProgressOf(q, e))
  {
    var record;
    ok, record := q.PopOldest();
    if !ok {
      return;
    }
    ghost var held := old(q.held);
    FreedOne(record, heapLive);
    assert held[..1] == [record] && e.freed + [] == e.freed;
    if record.heap == 0 {
      return;
    }
    if !heapLive(record.heap) {
      return;  // a destroyed heap is not called into: the block leaks
    }
    e.OriginalFree(record.heap, record.ptr);
  }

  /** `n` drains have taken the oldest `n` of the blocks held at the start. */
  ghost predicate Drained(start: Progress, n: nat, now: Progress, heapLive: nat -> bool) {
    && n <= |start.held|
    && now.left == start.left + start.held[..n]
    && now.held == start.held[n..]
    && now.freed == start.freed + Freed(start.held[..n], heapLive)
  }

  lemma DrainedOneMore(start: Progress, n: nat, now: Progress, heapLive: nat -> bool)
    requires Drained(start, n, now, heapLive) && now.held != []
    ensures Drained(start, n + 1, OneDrain(now, heapLive), heapLive)
  {
    assert start.held[..n + 1][..n] == start.held[..n];
    assert now.held[..1] == [start.held[n]] && [start.held[n]][..0] == [];
    assert start.held[..n + 1] == start.held[..n] + now.held[..1];
    assert now.left + now.held[..1] == start.left + (start.held[..n] + now.held[..1]);
    assert now.freed + Freed(now.held[..1], heapLive)
        == start.freed + (Freed(start.held[..n], heapLive) + Freed(now.held[..1], heapLive));
  }

  /** One drain and the next test of the loop. */
  method DrainAndTest(q: PoisonQuarantine, e: Engine, size: nat, heapLive: nat -> bool) returns (ok: bool, over: bool)
    requires q.Valid() && q.ready
    modifies q, e`freed
    ensures q.Valid() && q.ready && q.admitted == old(q.admitted)
    ensures ok <==> old(q.held) != []
    ensures ProgressOf(q, e) == if ok then OneDrain(old(ProgressOf(q, e)), heapLive) else old(ProgressOf(q, e))
    ensures over <==> !Fits(q.held, q.slots.Length, q.maxBytes, size)
  {
    ok := DrainOneQuarantined(q, e, heapLive);
    over := q.OverBudget(size);
  }

  /** Drains oldest first until the budget admits a block of `size` bytes. */
  method MakeRoom(q: PoisonQuarantine, e: Engine, size: nat, heapLive: nat -> bool) returns (drains: nat)
    requires q.Valid() && q.ready
    modifies q, e`freed
    ensures q.Valid() && q.ready && q.admitted == old(q.admitted)
    ensures drains == Drains(old(q.held), q.slots.Length, q.maxBytes, size, MAX_DRAINS)
    ensures Drained(old(ProgressOf(q, e)), drains, ProgressOf(q, e), heapLive)
  {
    ghost var start := ProgressOf(q, e);
    ghost var now := start;
    drains := 0;
    var over := q.OverBudget(size);
    while over && drains < MAX_DRAINS
      invariant q.Valid() && q.ready && q.admitted == old(q.admitted)
      invariant now == ProgressOf(q, e) && Drained(start, drains, now, heapLive)
      invariant drains <= MAX_DRAINS && (over <==> !Fits(now.held, q.slots.Length, q.maxBytes, size))
      invariant NoRoomBefore(start.held, drains, q.slots.Length, q.maxBytes, size)
    {
      var ok;
      ok, over := DrainAndTest(q, e, size, heapLive);
      if !ok {
        break;
      }
      NoRoomOneMore(start.held, drains, q.slots.Length, q.maxBytes, size);
      DrainedOneMore(start, drains, now, heapLive);
      now := OneDrain(now, heapLive);
      drains := drains + 1;
    }
    DrainsAreTheFewest(start.held, drains, q.slots.Length, q.maxBytes, size, MAX_DRAINS);
  }

  /** One free of a Scaleform block, as the hook sees it. */
  datatype Freeing = Freeing(
    mem: nat, heap: nat, size: nat, vtableAtFree: nat, freeSite: nat, freeStack: nat, freeTick: nat)

  function RecordOf(f: Freeing, index: nat): QuarantineRecord {
    QuarantineRecord(f.mem, f.heap, f.size, f.vtableAtFree, f.freeSite, f.freeStack, index, f.freeTick)
  }

  /** What the quarantine knows of a block is what its free said. */
  predicate Describes(r: QuarantineRecord, f: Freeing) {
    && r.ptr == f.mem && r.heap == f.heap && r.size == f.size && r.vtableAtFree == f.vtableAtFree
    && r.freeSite == f.freeSite && r.freeStack == f.freeStack && r.freeTick == f.freeTick
  }

  // ---------------------------------------------------------------- one call, on values

  /** All blocks ever admitted and drained, oldest first, and the frees the engine has seen. */
  datatype Book = Book(admitted: seq<QuarantineRecord>, left: seq<QuarantineRecord>, freed: seq<FreeCall>)

  /** A call of TryPoisonOnFree: what is freed, which heaps are alive, and the poison slot the
      block got, or 0. */
  datatype Call = Call(freeing: Freeing, heapLive: nat -> bool, poisonIndex: nat)

  ghost function BookOf(q: PoisonQuarantine, e: Engine): Book
    reads q, e
  {
    Book(q.admitted, q.left, e.freed)
  }

  /** The oldest blocks leave, their frees reach the engine, and the new block comes last. */
  ghost predicate CallStep(b: Book, c: Call, b': Book) {
    exists drained :: CallDrains(b, c, b', drained)
  }

  ghost predicate CallDrains(b: Book, c: Call, b': Book, drained: seq<QuarantineRecord>) {
    && b'.left == b.left + drained && b'.left <= b.admitted
    && b'.freed == b.freed + Freed(drained, c.heapLive)
    && if c.poisonIndex == 0 then b'.admitted == b.admitted
       else exists record :: b'.admitted == b.admitted + [record] && Describes(record, c.freeing)
  }

  lemma NothingHappens(b: Book, f: Freeing, heapLive: nat -> bool)
    requires b.left <= b.admitted
    ensures CallStep(b, Call(f, heapLive, 0), b)
  {
    assert CallDrains(b, Call(f, heapLive, 0), b, []);
  }

  lemma BlocksLeave(b: Book, held: seq<QuarantineRecord>, n: nat, c: Call, b': Book)
    requires n <= |held| && b.admitted == b.left + held
    requires b'.left == b.left + held[..n] && b'.freed == b.freed + Freed(held[..n], c.heapLive)
    requires if c.poisonIndex == 0 then b'.admitted == b.admitted
             else && |b'.admitted| == |b.admitted| + 1 && b.admitted < b'.admitted
                  && Describes(b'.admitted[|b.admitted|], c.freeing)
    ensures CallStep(b, c, b')
  {
    if c.poisonIndex != 0 {
      assert b'.admitted == b.admitted + [b'.admitted[|b.admitted|]];
    }
    assert CallDrains(b, c, b', held[..n]);
  }

  /** Poison first, publish second: the record of a block is never found without its poison.
      The budget has found room, so only losing every race for the cursor refuses the block. */
  method Withhold(q: PoisonQuarantine, e: Engine, f: Freeing, lost: bool) returns (poisonIndex: nat)
    requires q.Valid() && q.ready && Fits(q.held, q.slots.Length, q.maxBytes, f.size)
    modifies q, q.slots, e`words
    ensures q.Valid() && q.ready && q.left == old(q.left) && (poisonIndex == 0 <==> lost)
    ensures old(PoisonedElsewhere(q, e.words, q.held, f.mem)) ==> AllPoisoned(q, e.words, q.held)
    ensures poisonIndex == 0 ==> q.admitted == old(q.admitted) && q.held == old(q.held) && e.words == old(e.words)
    ensures poisonIndex != 0 ==>
              && |q.admitted| == |old(q.admitted)| + 1 && old(q.admitted) < q.admitted
              && Describes(q.admitted[|old(q.admitted)|], f) && q.admitted[|old(q.admitted)|].index == poisonIndex
              && e.words == old(e.words)[f.mem := q.PoisonFor(poisonIndex)]
  {
    ghost var held, words := q.held, e.words;
    poisonIndex := q.Reserve(lost);
    if poisonIndex == 0 {
      return;
    }
    var record := RecordOf(f, poisonIndex);
    e.WriteWord(f.mem, q.PoisonFor(poisonIndex));
    q.Publish(record);
    SumAppend(held, record);
    PoisonSurvives(q, words, held, record);
  }

  /** A block is withheld exactly when the feature is on, the block can hold the poison and is
      readable, there is room after the fewest drains, and the race for a slot is not lost; the
      free of every drained block has then reached the engine, in order. A refused block is
      left alone. */
  method TryPoisonOnFree(
    q: PoisonQuarantine, e: Engine, enabled: bool, readable: bool, lost: bool, heapLive: nat -> bool, f: Freeing)
    returns (poisonIndex: nat)
    requires q.Valid()
    modifies q, q.slots, e
    ensures q.Valid() && q.ready == old(q.ready)
    ensures var tried := enabled && q.ready && (f.size == 0 || f.size >= WORD_BYTES) && readable;
            var held := old(q.held);
            var n := if tried then Drains(held, q.slots.Length, q.maxBytes, f.size, MAX_DRAINS) else 0;
            && (poisonIndex != 0 <==> tried && Fits(held[n..], q.slots.Length, q.maxBytes, f.size) && !lost)
            && q.left == old(q.left) + held[..n]
            && e.freed == old(e.freed) + Freed(held[..n], heapLive)
    ensures poisonIndex == 0 ==> q.admitted == old(q.admitted) && e.words == old(e.words)
    ensures poisonIndex != 0 ==>
              && |q.admitted| == |old(q.admitted)| + 1 && old(q.admitted) < q.admitted
              && Describes(q.admitted[|old(q.admitted)|], f) && q.admitted[|old(q.admitted)|].index == poisonIndex
              && e.words == old(e.words)[f.mem := q.PoisonFor(poisonIndex)]
    ensures old(PoisonedElsewhere(q, e.words, q.held, f.mem)) ==> AllPoisoned(q, e.words, q.held)
    ensures CallStep(old(BookOf(q, e)), Call(f, heapLive, poisonIndex), BookOf(q, e))
  {
    ghost var book := BookOf(q, e);
    NothingHappens(book, f, heapLive);
    if !enabled || !q.ready {
      return 0;
    }
    if f.size != 0 && f.size < WORD_BYTES {
      return 0;
    }
    if !readable {
      return 0;
    }
    ghost var held := q.held;
    ghost var drains := MakeRoom(q, e, f.size, heapLive);
    DrainsKeepPoison(q, e.words, held, drains, f.mem);
    var over := q.OverBudget(f.size);
    if over {
      BlocksLeave(book, held, drains, Call(f, heapLive, 0), BookOf(q, e));
      return 0;
    }
    poisonIndex := Withhold(q, e, f, lost);
    BlocksLeave(book, held, drains, Call(f, heapLive, poisonIndex), BookOf(q, e));
  }

  /** A call through a withheld block faults at its poison plus some offset below the stride,
      and the address leads back to the record of that very block. */
  method FaultNamesItsBlock(q: PoisonQuarantine, e: Engine, fault: nat, ghost k: nat, ghost offset: nat)
    returns (record: QuarantineRecord)
    requires q.Valid() && q.Addressable() && q.ready && AllPoisoned(q, e.words, q.held)
    requires k < |q.held| && offset < q.stride
    requires fault == e.words[q.held[k].ptr] + offset
    ensures record == q.held[k]
  {
    record := q.BlockOfFault(fault, k, offset);
  }
}
