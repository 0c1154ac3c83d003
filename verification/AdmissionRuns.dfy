/** Every sequence of frees that the hook offers to the quarantine (TryPoisonOnFree in
    src/Hooks/Hooks.cpp): a withheld block leaves with its own heap and address. */
module AdmissionRuns {
  import opened PoisonQuarantine
  import opened Admission

  /** `books[n]` is what there is before call `n`. */
  ghost predicate IsRun(books: seq<Book>, calls: seq<Call>) {
    && |books| == |calls| + 1
    && books[0] == Book([], [], [])
    && forall n :: 0 <= n < |calls| ==> CallStep(books[n], calls[n], books[n + 1])
  }

  /** The frees that were withheld, in order. */
  function Withheld(calls: seq<Call>): seq<Freeing> {
    if calls == [] then []
    else
      var last := calls[|calls| - 1];
      Withheld(calls[..|calls| - 1]) + if last.poisonIndex != 0 then [last.freeing] else []
  }

  /** The frees the engine is to see for these blocks. */
  function FreesOf(freeings: seq<Freeing>, heapLive: nat -> bool): seq<FreeCall> {
    if freeings == [] then []
    else
      var last := freeings[|freeings| - 1];
      FreesOf(freeings[..|freeings| - 1], heapLive)
      + if last.heap != 0 && heapLive(last.heap) then [FreeCall(last.heap, last.mem)] else []
  }

  ghost predicate AllDescribe(records: seq<QuarantineRecord>, freeings: seq<Freeing>) {
    |records| == |freeings| && forall k :: 0 <= k < |records| ==> Describes(records[k], freeings[k])
  }

  lemma {:induction false} FreedAsDescribed(
    records: seq<QuarantineRecord>, freeings: seq<Freeing>, heapLive: nat -> bool)
    requires AllDescribe(records, freeings)
    ensures Freed(records, heapLive) == FreesOf(freeings, heapLive)
  {
    if records == [] {
    } else {
      var n := |records| - 1;
      assert Describes(records[n], freeings[n]);
      FreedAsDescribed(records[..n], freeings[..n], heapLive);
    }
  }

  lemma StepDescribes(b: Book, c: Call, b': Book, freeings: seq<Freeing>)
    requires CallStep(b, c, b') && AllDescribe(b.admitted, freeings)
    ensures AllDescribe(b'.admitted, freeings + if c.poisonIndex != 0 then [c.freeing] else [])
    ensures b.left <= b'.left <= b.admitted <= b'.admitted
    ensures b'.freed == b.freed + FreesOf(freeings[|b.left|..|b'.left|], c.heapLive)
  {
    var drained :| CallDrains(b, c, b', drained);
    assert drained == b.admitted[|b.left|..|b'.left|];
    FreedAsDescribed(drained, freeings[|b.left|..|b'.left|], c.heapLive);
    if c.poisonIndex == 0 {
      assert freeings + [] == freeings;
    }
  }

  /** The quarantine admits exactly the withheld blocks, in order, each under the address, heap,
      size, vtable, site, stack and tick its own free said. */
  lemma {:induction false} AdmitsWhatWasWithheld(books: seq<Book>, calls: seq<Call>, n: nat)
    requires IsRun(books, calls) && n < |books|
    ensures var admitted, withheld := books[n].admitted, Withheld(calls[..n]);
            && |admitted| == |withheld| && books[n].left <= admitted
            && forall k :: 0 <= k < |admitted| ==>
                 && admitted[k].ptr == withheld[k].mem && admitted[k].heap == withheld[k].heap
                 && admitted[k].size == withheld[k].size && admitted[k].vtableAtFree == withheld[k].vtableAtFree
                 && admitted[k].freeSite == withheld[k].freeSite && admitted[k].freeStack == withheld[k].freeStack
                 && admitted[k].freeTick == withheld[k].freeTick
    ensures AllDescribe(books[n].admitted, Withheld(calls[..n]))
  {
    if n == 0 {
    } else {
      AdmitsWhatWasWithheld(books, calls, n - 1);
      StepDescribes(books[n - 1], calls[n - 1], books[n], Withheld(calls[..n - 1]));
      assert calls[..n][..n - 1] == calls[..n - 1];
    }
  }

  /** A call drains the blocks withheld longest, and for each of them, in order, the engine's
      free is called with the heap and the address of that block's own free, if the heap is
      alive, and not at all otherwise. */
  lemma DrainsFreeTheirOwnBlocks(books: seq<Book>, calls: seq<Call>, n: nat)
    requires IsRun(books, calls) && n < |calls|
    ensures var from, to, withheld := |books[n].left|, |books[n + 1].left|, Withheld(calls[..n]);
            && from <= to <= |withheld|
            && books[n + 1].freed == books[n].freed + FreesOf(withheld[from..to], calls[n].heapLive)
  {
    AdmitsWhatWasWithheld(books, calls, n);
    StepDescribes(books[n], calls[n], books[n + 1], Withheld(calls[..n]));
  }

  /** Where a free among those comes from. */
  lemma {:induction false} FreesNameTheirBlock(freeings: seq<Freeing>, heapLive: nat -> bool, call: FreeCall)
    ensures call in FreesOf(freeings, heapLive)
       <==> exists k :: 0 <= k < |freeings| && freeings[k].heap != 0 && heapLive(freeings[k].heap)
                        && call == FreeCall(freeings[k].heap, freeings[k].mem)
  {
    if freeings == [] {
    } else {
      var rest := freeings[..|freeings| - 1];
      FreesNameTheirBlock(rest, heapLive, call);
      assert freeings == rest + [freeings[|rest|]];
    }
  }
}
