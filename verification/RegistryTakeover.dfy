/** How silent the loser of a ring really was. A ring is taken over when its `lastActiveTick` is
    old (ClaimRing in src/Ipc/ShmRing.cpp); this module says, over every run of RegistryRuns,
    what that word is, and when it tells the owner's last sign of life. */
module RegistryTakeover {
  import opened ShmLayout
  import opened TraceRing
  import opened RingRegistry
  import opened RegistryRuns
  import opened Wrappers

  // ---------------------------------------------------------------- what the touch tick is

  /** The number of records up to the last one that touched the ring. */
  function Touches(h: seq<Event>): (m: nat)
    ensures m <= |h|
  {
    |h| - |h| % TOUCH_INTERVAL
  }

  /** The owner touches its ring at the claim and then with every 4096th record. */
  function LastTouch(r: RingState, h: seq<Event>): nat {
    if Touches(h) == 0 then r.claimedAtTick else h[Touches(h) - 1].tick
  }

  /** The tick of the last thing the owner is known to have done with the ring. */
  function LastSign(r: RingState, h: seq<Event>): nat {
    if h == [] then r.claimedAtTick else h[|h| - 1].tick
  }

  ghost predicate Touched(w: World, i: nat)
    requires i < |w.rings| && i < |w.histories|
  {
    w.rings[i].ownerThread != 0 ==> w.rings[i].lastActiveTick == LastTouch(w.rings[i], w.histories[i])
  }

  ghost predicate AllTouched(w: World)
    requires WellFormed(w)
  {
    forall i :: 0 <= i < MAX_RINGS ==> Touched(w, i)
  }

  lemma TouchesOfOneMore(h: seq<Event>, event: Event)
    ensures Touches(h + [event]) == if (|h| + 1) % TOUCH_INTERVAL == 0 then |h| + 1 else Touches(h)
  {
    var n, m := |h|, |h| + 1;
    assert TOUCH_INTERVAL == 4096;
    assert m % 4096 == if n % 4096 == 4095 then 0 else n % 4096 + 1;
  }

  lemma WrittenTouches(r: RingState, h: seq<Event>, event: Event)
    requires Holds(r, h) && r.lastActiveTick == LastTouch(r, h)
    ensures var id := r.writeSeq + 1;
            Written(r, id, event).lastActiveTick == LastTouch(Written(r, id, event), h + [event.(id := id)])
  {
    TouchesOfOneMore(h, event.(id := r.writeSeq + 1));
  }

  // ---------------------------------------------------------------- over every run

  lemma ClaimKeepsTouches(
    w: World, tid: nat, p: Producer, now: nat, staleTicks: nat, rings: seq<RingState>, p': Producer)
    requires RegistryInv(w) && AllTouched(w)
    requires (rings, p') == AfterClaim(w.rings, p, tid, now, staleTicks)
    ensures WellFormed(World(rings, w.producers, Restarted(w, rings)))
    ensures AllTouched(World(rings, w.producers, Restarted(w, rings)))
  {
    var w' := World(rings, w.producers, Restarted(w, rings));
    forall i | 0 <= i < MAX_RINGS
      ensures Touched(w', i)
    {
      assert Touched(w, i);
    }
  }

  lemma RegainedKeepsTouches(w: World, tid: nat, now: nat)
    requires RegistryInv(w) && AllTouched(w)
    ensures WellFormed(Regained(w, tid, now)) && AllTouched(Regained(w, tid, now))
  {
    var p := ProducerOf(w, tid);
    var m := Regained(w, tid, now);
    RegainedKeepsInv(w, tid, now);
    if p.ring.Some? && w.rings[p.ring.value].ownerThread != p.threadId {
      ClaimKeepsTouches(w, p.threadId, p.(ring := None), now, p.staleTicks, m.rings, m.producers[tid]);
    }
    forall i | 0 <= i < MAX_RINGS
      ensures Touched(m, i)
    {
      assert Touched(w, i);
      assert p.ring.Some? && w.rings[p.ring.value].ownerThread != p.threadId ==>
          Touched(World(m.rings, w.producers, Restarted(w, m.rings)), i);
    }
  }

  lemma PublishKeepsTouches(w: World, tid: nat, event: Event)
    requires RegistryInv(w) && AllTouched(w)
    ensures WellFormed(AfterOp(w, Publish(tid, event))) && AllTouched(AfterOp(w, Publish(tid, event)))
  {
    PublishKeepsInv(w, tid, event);
    RegainedKeepsTouches(w, tid, event.tick);
    RegainedKeepsInv(w, tid, event.tick);
    var m, w' := Regained(w, tid, event.tick), AfterOp(w, Publish(tid, event));
    forall i | 0 <= i < MAX_RINGS
      ensures Touched(w', i)
    {
      assert Touched(m, i) && OwnerKnows(m, i);
      WrittenTouchesIfOwned(m, i, event);
    }
  }

  lemma WrittenTouchesIfOwned(m: World, i: nat, event: Event)
    requires RegistryInv(m) && i < MAX_RINGS && Touched(m, i)
    ensures var r, id := m.rings[i], m.rings[i].writeSeq + 1;
            r.ownerThread != 0 ==>
              Written(r, id, event).lastActiveTick
              == LastTouch(Written(r, id, event), m.histories[i] + [event.(id := id)])
  {
    if m.rings[i].ownerThread != 0 {
      WrittenTouches(m.rings[i], m.histories[i], event);
    }
  }

  lemma OpKeepsTouches(w: World, op: Op)
    requires RegistryInv(w) && AllTouched(w)
    ensures WellFormed(AfterOp(w, op)) && AllTouched(AfterOp(w, op))
  {
    var w' := AfterOp(w, op);
    OpKeepsInv(w, op);
    match op {
      case Publish(tid, event) =>
        PublishKeepsTouches(w, tid, event);
      case Claim(tid, now, staleTicks) =>
        ClaimKeepsTouches(w, tid, ProducerOf(w, tid), now, staleTicks, w'.rings, w'.producers[tid]);
        forall i | 0 <= i < MAX_RINGS
          ensures Touched(w', i)
        {
          assert Touched(World(w'.rings, w.producers, Restarted(w, w'.rings)), i);
        }
      case _ =>
        forall i | 0 <= i < MAX_RINGS
          ensures Touched(w', i)
        {
          assert Touched(w, i);
        }
    }
  }

  ghost predicate Moves(w: World, op: Op, w': World) {
    RegistryInv(w) && w' == AfterOp(w, op)
  }

  ghost predicate Chain(worlds: seq<World>, ops: seq<Op>, n: nat) {
    n < |worlds| && n <= |ops| && forall i :: 0 <= i < n ==> Moves(worlds[i], ops[i], worlds[i + 1])
  }

  lemma {:induction false} ChainKeepsTouches(worlds: seq<World>, ops: seq<Op>, n: nat)
    requires Chain(worlds, ops, n) && WellFormed(worlds[0]) && AllTouched(worlds[0])
    ensures WellFormed(worlds[n]) && AllTouched(worlds[n])
  {
    if n == 0 {
    } else {
      ChainKeepsTouches(worlds, ops, n - 1);
      assert Moves(worlds[n - 1], ops[n - 1], worlds[n]);
      OpKeepsTouches(worlds[n - 1], ops[n - 1]);
    }
  }

  /** In every run, the touch tick of an owned ring is the tick of the claim or of the last of
      the owner's records whose number is a multiple of 4096. */
  lemma TouchTickIsTheLastTouch(worlds: seq<World>, ops: seq<Op>, n: nat)
    requires IsRun(worlds, ops) && n < |worlds|
    ensures WellFormed(worlds[n]) && AllTouched(worlds[n])
  {
    forall i | 0 <= i < n
      ensures Moves(worlds[i], ops[i], worlds[i + 1])
    {
      RunKeepsInv(worlds, ops, i);
    }
    RunKeepsInv(worlds, ops, 0);
    ChainKeepsTouches(worlds, ops, n);
  }

  /** A stale ring, which a claimer may take: its owner really has been silent for longer than
      the window exactly when its last record was a touch, or that record too is old. An owner
      is otherwise taken for silent although it is not, at up to 4095 records since its touch. */
  lemma StaleMeansSilentIff(worlds: seq<World>, ops: seq<Op>, n: nat, i: nat, now: nat, staleTicks: nat)
    requires IsRun(worlds, ops) && n < |worlds| && i < MAX_RINGS
    requires |worlds[n].rings| == MAX_RINGS && worlds[n].rings[i].ownerThread != 0
    requires Stale(worlds[n].rings[i], now, staleTicks)
    ensures |worlds[n].histories| == MAX_RINGS
    ensures var r, h := worlds[n].rings[i], worlds[n].histories[i];
            && LastTouch(r, h) + staleTicks < now
            && (LastSign(r, h) + staleTicks < now
                <==> |h| % TOUCH_INTERVAL == 0 || h[|h| - 1].tick + staleTicks < now)
  {
    TouchTickIsTheLastTouch(worlds, ops, n);
    assert Touched(worlds[n], i);
  }

  // ---------------------------------------------------------------- an active owner that loses its ring

  const CAPACITY: nat := 64
  const NEWCOMER: nat := 100

  function FreshWorld(): World {
    World(seq(MAX_RINGS, i => RingState(0, 0, 0, 0, 0, 0, 0,
                                        seq(CAPACITY, j => Slot(0, Event(0, 0, 0, 0, 0, 0, 0, 0, 0, 0))))),
          map[], seq(MAX_RINGS, i => []))
  }

  lemma RunGrows(worlds: seq<World>, ops: seq<Op>, op: Op)
    requires IsRun(worlds, ops) && WellFormed(worlds[|ops|])
    ensures IsRun(worlds + [AfterOp(worlds[|ops|], op)], ops + [op])
  {
  }

  lemma Take(worlds: seq<World>, ops: seq<Op>, op: Op) returns (worlds': seq<World>, ops': seq<Op>)
    requires IsRun(worlds, ops)
    ensures RegistryInv(worlds[|ops|])
    ensures ops' == ops + [op] && worlds' == worlds + [AfterOp(worlds[|ops|], op)]
    ensures IsRun(worlds', ops') && RegistryInv(worlds'[|ops'|])
  {
    RunKeepsInv(worlds, ops, |ops|);
    OpKeepsInv(worlds[|ops|], op);
    RunGrows(worlds, ops, op);
    worlds', ops' := worlds + [AfterOp(worlds[|ops|], op)], ops + [op];
  }

  /** Threads 1 to `k` have claimed rings 0 to `k - 1` at tick 0, and nothing is published. */
  ghost predicate ClaimedAtStart(w: World, k: nat) {
    && |w.rings| == MAX_RINGS && |w.histories| == MAX_RINGS
    && (forall i :: 0 <= i < MAX_RINGS ==> w.rings[i].ownerThread == if i < k then i + 1 else 0)
    && (forall i :: 0 <= i < MAX_RINGS ==> w.histories[i] == [] && w.rings[i].lastActiveTick == 0)
    && (forall t :: t in w.producers ==> 1 <= t <= k)
  }

  lemma ClaimNext(w: World, k: nat, staleTicks: nat)
    requires RegistryInv(w) && ClaimedAtStart(w, k) && k < MAX_RINGS
    ensures ClaimedAtStart(AfterOp(w, Claim(k + 1, 0, staleTicks)), k + 1)
  {
    assert w.rings[k].ownerThread == 0;
    assert Choose(w.rings, k + 1, 0, staleTicks) == Some(k);
  }

  /** The first event of thread 1 does not touch its ring. */
  lemma FirstRecordIsNoTouch(w: World, event: Event)
    requires RegistryInv(w) && ClaimedAtStart(w, MAX_RINGS)
    ensures var w' := AfterOp(w, Publish(1, event));
            && |w'.rings| == MAX_RINGS && |w'.histories| == MAX_RINGS
            && w'.rings[0].lastActiveTick == 0 && w'.histories[0] == [event.(id := 1)]
            && (forall i :: 0 <= i < MAX_RINGS ==> w'.rings[i].ownerThread == i + 1)
            && NEWCOMER !in w'.producers
  {
    assert OwnerKnows(w, 0);
    assert Holds(w.rings[0], w.histories[0]);
    assert Restarted(w, w.rings) == w.histories;
  }

  lemma NewcomerTakesRing0(w: World, now: nat, staleTicks: nat)
    requires WellFormed(w) && NEWCOMER !in w.producers
    requires forall i :: 0 <= i < MAX_RINGS ==> w.rings[i].ownerThread == i + 1
    requires Stale(w.rings[0], now, staleTicks)
    ensures AfterOp(w, Claim(NEWCOMER, now, staleTicks)).rings[0].ownerThread == NEWCOMER
  {
    assert Choose(w.rings, NEWCOMER, now, staleTicks) == Some(0);
  }

  lemma EveryRingIsClaimed(staleTicks: nat) returns (worlds: seq<World>, ops: seq<Op>)
    ensures IsRun(worlds, ops) && ClaimedAtStart(worlds[|ops|], MAX_RINGS)
  {
    worlds, ops := [FreshWorld()], [];
    var k := 0;
    while k < MAX_RINGS
      invariant k <= MAX_RINGS && IsRun(worlds, ops) && ClaimedAtStart(worlds[|ops|], k)
    {
      ghost var w := worlds[|ops|];
      worlds, ops := Take(worlds, ops, Claim(k + 1, 0, staleTicks));
      ClaimNext(w, k, staleTicks);
      k := k + 1;
    }
  }

  /** Ring 0 belongs to thread 1, whose last event has tick `tick`. */
  ghost predicate ActiveOwner(rings: seq<RingState>, histories: seq<seq<Event>>, tick: nat) {
    && |rings| == |histories| == MAX_RINGS
    && rings[0].ownerThread == 1 && histories[0] != [] && LastSign(rings[0], histories[0]) == tick
  }

  /** What the last two operations do when every ring is claimed. */
  lemma RingIsLostAfterOneTick(w: World, event: Event, staleTicks: nat)
    requires RegistryInv(w) && ClaimedAtStart(w, MAX_RINGS) && event.tick >= staleTicks > 0
    ensures RegistryInv(AfterOp(w, Publish(1, event)))
    ensures var before := AfterOp(w, Publish(1, event));
            var after := AfterOp(before, Claim(NEWCOMER, event.tick + 1, staleTicks));
            && ActiveOwner(before.rings, before.histories, event.tick)
            && |after.rings| == MAX_RINGS && after.rings[0].ownerThread == NEWCOMER
  {
    OpKeepsInv(w, Publish(1, event));
    FirstRecordIsNoTouch(w, event);
    NewcomerTakesRing0(AfterOp(w, Publish(1, event)), event.tick + 1, staleTicks);
  }

  /** 64 threads claim the 64 rings at tick 0, thread 1 publishes its first event, and one tick
      later, within the window of staleness, thread 100 takes the ring away from it. */
  lemma ActiveOwnerLosesItsRing(event: Event, staleTicks: nat) returns (worlds: seq<World>, ops: seq<Op>)
    requires event.tick >= staleTicks > 0
    ensures IsRun(worlds, ops) && 2 <= |ops|
    ensures ops[|ops| - 2..] == [Publish(1, event), Claim(NEWCOMER, event.tick + 1, staleTicks)]
    ensures var before, after := worlds[|ops| - 1], worlds[|ops|];
            && ActiveOwner(before.rings, before.histories, event.tick)
            && |after.rings| == MAX_RINGS && after.rings[0].ownerThread == NEWCOMER
  {
    worlds, ops := EveryRingIsClaimed(staleTicks);
    RunKeepsInv(worlds, ops, |ops|);
    RingIsLostAfterOneTick(worlds[|ops|], event, staleTicks);
    worlds, ops := Take(worlds, ops, Publish(1, event));
    worlds, ops := Take(worlds, ops, Claim(NEWCOMER, event.tick + 1, staleTicks));
  }
}
