/** Every run of the ring registry: any number of threads claiming, publishing and releasing
    through one RingProducer each, and the helper draining in between. */
module RegistryRuns {
  import opened ShmLayout
  import opened TraceRing
  import opened RingRegistry
  import opened Wrappers

  /** The mapping, the producer object of each thread, and, per ring, the events published
      into it since it was last claimed. */
  datatype World = World(rings: seq<RingState>, producers: map<nat, Producer>, histories: seq<seq<Event>>)

  datatype Op =
    | Claim(tid: nat, now: nat, staleTicks: nat)
    | Publish(tid: nat, event: Event)
    | Release(tid: nat)
    | Drain(ring: nat)

  function ProducerOf(w: World, tid: nat): Producer {
    if tid in w.producers then w.producers[tid] else FRESH_PRODUCER
  }

  /** A claim starts a fresh history on the ring it takes. */
  function Restarted(w: World, rings: seq<RingState>): seq<seq<Event>> {
    seq(|w.histories|, i requires 0 <= i < |w.histories| =>
      if i < |w.rings| && i < |rings| && rings[i].generation != w.rings[i].generation then [] else w.histories[i])
  }

  ghost predicate WellFormed(w: World) {
    && |w.rings| == MAX_RINGS && |w.histories| == MAX_RINGS
    && (forall i :: 0 <= i < MAX_RINGS ==> 0 < |w.rings[i].slots|)
    && (forall t :: t in w.producers && w.producers[t].ring.Some? ==> w.producers[t].ring.value < MAX_RINGS)
  }

  ghost function AfterOp(w: World, op: Op): World
    requires WellFormed(w)
  {
    match op
    case Claim(tid, now, staleTicks) =>
      var (rings, p) := AfterClaim(w.rings, ProducerOf(w, tid), tid, now, staleTicks);
      World(rings, w.producers[tid := p], Restarted(w, rings))
    case Publish(tid, event) =>
      var w' := Regained(w, tid, event.tick);
      var (rings, p) := AfterPublish(w.rings, ProducerOf(w, tid), event);
      var grown := if p.ring.Some? && p.ring.value < |w'.histories|
                   then w'.histories[p.ring.value := w'.histories[p.ring.value] + [event.(id := p.published)]]
                   else w'.histories;
      World(rings, w.producers[tid := p], grown)
    case Release(tid) =>
      var (rings, p) := AfterRelease(w.rings, ProducerOf(w, tid));
      World(rings, w.producers[tid := p], w.histories)
    case Drain(i) =>
      if i < |w.rings| then w.(rings := w.rings[i := AfterDrain(w.rings[i])]) else w
  }

  /** The world between the two halves of Publish. */
  ghost function Regained(w: World, tid: nat, now: nat): World
    requires WellFormed(w)
  {
    var (rings, p) := AfterReclaim(w.rings, ProducerOf(w, tid), now);
    World(rings, w.producers[tid := p], Restarted(w, rings))
  }

  // ---------------------------------------------------------------- invariant

  /** The owner of ring `i` is a thread whose producer holds exactly that ring and agrees
      with the ring on how much has been published. */
  ghost predicate OwnerKnows(w: World, i: nat)
    requires i < |w.rings|
  {
    var owner := w.rings[i].ownerThread;
    owner != 0 ==>
      && owner in w.producers && w.producers[owner].ring == Some(i)
      && w.producers[owner].published == w.rings[i].writeSeq
  }

  ghost predicate RegistryInv(w: World) {
    && WellFormed(w)
    && (forall i :: 0 <= i < MAX_RINGS ==> Holds(w.rings[i], w.histories[i]))
    && (forall i :: 0 <= i < MAX_RINGS ==> OwnerKnows(w, i))
    && (forall t :: t in w.producers && w.producers[t].ring.Some? ==> w.producers[t].threadId == t && t != 0)
  }

  lemma ClaimKeepsInv(w: World, tid: nat, p: Producer, now: nat, staleTicks: nat, rings: seq<RingState>, p': Producer)
    requires RegistryInv(w)
    requires p == ProducerOf(w, tid)
             || (p == ProducerOf(w, tid).(ring := None)
                 && forall i :: 0 <= i < MAX_RINGS ==> w.rings[i].ownerThread != tid)
    requires (rings, p') == AfterClaim(w.rings, p, tid, now, staleTicks)
    ensures RegistryInv(World(rings, w.producers[tid := p'], Restarted(w, rings)))
  {
    var w' := World(rings, w.producers[tid := p'], Restarted(w, rings));
    if p.ring.None? && Choose(w.rings, tid, now, staleTicks).Some? {
      var c := Choose(w.rings, tid, now, staleTicks).value;
      forall i | 0 <= i < MAX_RINGS
        ensures Holds(w'.rings[i], w'.histories[i]) && OwnerKnows(w', i)
      {
        assert OwnerKnows(w, i);
        if i == c {
          RenewedHolds(w.rings[i].(ownerThread := tid), now);
        }
      }
    } else {
      assert rings == w.rings && w'.histories == w.histories;
      forall i | 0 <= i < MAX_RINGS
        ensures OwnerKnows(w', i)
      {
        assert OwnerKnows(w, i);
      }
    }
  }

  lemma RegainedKeepsInv(w: World, tid: nat, now: nat)
    requires RegistryInv(w)
    ensures RegistryInv(Regained(w, tid, now))
    ensures var m := Regained(w, tid, now);
            m.producers[tid].ring.Some? ==> m.rings[m.producers[tid].ring.value].ownerThread == tid
  {
    var p := ProducerOf(w, tid);
    var m := Regained(w, tid, now);
    if p.ring.Some? && w.rings[p.ring.value].ownerThread != p.threadId {
      forall i | 0 <= i < MAX_RINGS
        ensures w.rings[i].ownerThread != tid
      {
        assert OwnerKnows(w, i);
      }
      ClaimKeepsInv(w, tid, p.(ring := None), now, p.staleTicks, m.rings, m.producers[tid]);
    } else {
      assert m.rings == w.rings && m.histories == w.histories;
      forall i | 0 <= i < MAX_RINGS
        ensures OwnerKnows(m, i)
      {
        assert OwnerKnows(w, i);
      }
    }
  }

  /** Storing the next event in the ring a producer owns keeps the registry consistent. */
  lemma StoreKeepsInv(m: World, tid: nat, event: Event, touched: nat)
    requires RegistryInv(m) && tid in m.producers && m.producers[tid].ring.Some?
    requires m.rings[m.producers[tid].ring.value].ownerThread == tid
    ensures var p := m.producers[tid];
            var c, id := p.ring.value, p.published + 1;
            RegistryInv(World(m.rings[c := Written(m.rings[c], id, event)],
                              m.producers[tid := p.(published := id, lastTouchTick := touched)],
                              m.histories[c := m.histories[c] + [event.(id := id)]]))
  {
    var p := m.producers[tid];
    var c, id := p.ring.value, p.published + 1;
    var w' := World(m.rings[c := Written(m.rings[c], id, event)],
                    m.producers[tid := p.(published := id, lastTouchTick := touched)],
                    m.histories[c := m.histories[c] + [event.(id := id)]]);
    assert OwnerKnows(m, c);
    WrittenHolds(m.rings[c], m.histories[c], event);
    forall i | 0 <= i < MAX_RINGS
      ensures Holds(w'.rings[i], w'.histories[i]) && OwnerKnows(w', i)
    {
      assert Holds(m.rings[i], m.histories[i]) && OwnerKnows(m, i);
    }
  }

  lemma PublishKeepsInv(w: World, tid: nat, event: Event)
    requires RegistryInv(w)
    ensures RegistryInv(Regained(w, tid, event.tick))
    ensures RegistryInv(AfterOp(w, Publish(tid, event)))
  {
    RegainedKeepsInv(w, tid, event.tick);
    var m := Regained(w, tid, event.tick);
    var w' := AfterOp(w, Publish(tid, event));
    if m.producers[tid].ring.Some? {
      StoreKeepsInv(m, tid, event, w'.producers[tid].lastTouchTick);
    }
    assert w.producers[tid := w'.producers[tid]] == m.producers[tid := w'.producers[tid]];
  }

  lemma OpKeepsInv(w: World, op: Op)
    requires RegistryInv(w)
    ensures RegistryInv(AfterOp(w, op))
  {
    var w' := AfterOp(w, op);
    match op {
      case Claim(tid, now, staleTicks) =>
        ClaimKeepsInv(w, tid, ProducerOf(w, tid), now, staleTicks, w'.rings, w'.producers[tid]);
      case Publish(tid, event) =>
        PublishKeepsInv(w, tid, event);
      case Release(tid) =>
        forall i | 0 <= i < MAX_RINGS
          ensures Holds(w'.rings[i], w'.histories[i]) && OwnerKnows(w', i)
        {
          assert Holds(w.rings[i], w.histories[i]) && OwnerKnows(w, i);
        }
      case Drain(r) =>
        forall i | 0 <= i < MAX_RINGS
          ensures Holds(w'.rings[i], w'.histories[i]) && OwnerKnows(w', i)
        {
          assert OwnerKnows(w, i);
          DrainDeliversTheSuffix(w.rings[i], w.histories[i]);
        }
    }
  }

  // ---------------------------------------------------------------- runs

  /** A session as InitialiseSession leaves it: every ring free, its cursors at zero. */
  ghost predicate Initial(w: World) {
    && |w.rings| == MAX_RINGS && |w.histories| == MAX_RINGS && w.producers == map[]
    && forall i :: 0 <= i < MAX_RINGS ==>
         && 0 < |w.rings[i].slots| && w.histories[i] == []
         && w.rings[i].ownerThread == w.rings[i].writeSeq == w.rings[i].readSeq == 0
  }

  ghost predicate IsRun(worlds: seq<World>, ops: seq<Op>) {
    && |worlds| == |ops| + 1
    && Initial(worlds[0])
    && forall i :: 0 <= i < |ops| ==> WellFormed(worlds[i]) && worlds[i + 1] == AfterOp(worlds[i], ops[i])
  }

  lemma {:induction false} RunKeepsInv(worlds: seq<World>, ops: seq<Op>, n: nat)
    requires IsRun(worlds, ops) && n < |worlds|
    ensures RegistryInv(worlds[n])
  {
    if n == 0 {
    } else {
      RunKeepsInv(worlds, ops, n - 1);
      OpKeepsInv(worlds[n - 1], ops[n - 1]);
    }
  }

  /** In every run a thread owns at most one ring, and its producer agrees with that ring on
      the number of records published. */
  lemma AtMostOneRingPerThread(worlds: seq<World>, ops: seq<Op>, n: nat, i: nat, j: nat)
    requires IsRun(worlds, ops) && n < |worlds| && i < MAX_RINGS && j < MAX_RINGS
    ensures |worlds[n].rings| == MAX_RINGS
    ensures var w := worlds[n];
            var owner := w.rings[i].ownerThread;
            && (owner != 0 && owner == w.rings[j].ownerThread ==> i == j)
            && (owner != 0 ==> owner in w.producers && w.producers[owner].published == w.rings[i].writeSeq)
  {
    RunKeepsInv(worlds, ops, n);
    assert OwnerKnows(worlds[n], i) && OwnerKnows(worlds[n], j);
  }

  /** What may happen to ring `i` in one operation. */
  predicate OwnersDoing(r: RingState, r': RingState, op: Op) {
    && (r'.slots != r.slots ==> op.Publish? && op.tid == r'.ownerThread)
    && (r'.writeSeq != r.writeSeq ==> !op.Drain? && op.tid == r'.ownerThread)
    && (r'.ownerThread == 0 && r.ownerThread != 0 ==> op == Release(r.ownerThread))
  }

  lemma ClaimOrReleaseIsTheOwners(w: World, op: Op, i: nat)
    requires RegistryInv(w) && i < MAX_RINGS && (op.Claim? || op.Release?)
    ensures |AfterOp(w, op).rings| == MAX_RINGS
    ensures OwnersDoing(w.rings[i], AfterOp(w, op).rings[i], op)
  {
    assert OwnerKnows(w, i);
  }

  lemma PublishIsTheOwners(w: World, tid: nat, event: Event, i: nat)
    requires RegistryInv(w) && i < MAX_RINGS
    ensures |AfterOp(w, Publish(tid, event)).rings| == MAX_RINGS
    ensures OwnersDoing(w.rings[i], AfterOp(w, Publish(tid, event)).rings[i], Publish(tid, event))
  {
    PublishKeepsInv(w, tid, event);
    var m := Regained(w, tid, event.tick);
    assert OwnerKnows(w, i) && OwnerKnows(m, i) && OwnerKnows(AfterOp(w, Publish(tid, event)), i);
  }

  /** Nobody writes into a ring that is not its own: if an operation changes a ring's slots
      or its write cursor, it is a Publish by the thread that owns the ring afterwards, or a
      claim by that thread; and a release never frees a ring owned by another thread. */
  lemma OnlyTheOwnerWrites(worlds: seq<World>, ops: seq<Op>, n: nat, i: nat)
    requires IsRun(worlds, ops) && n < |ops| && i < MAX_RINGS
    ensures |worlds[n].rings| == MAX_RINGS == |worlds[n + 1].rings|
    ensures OwnersDoing(worlds[n].rings[i], worlds[n + 1].rings[i], ops[n])
  {
    RunKeepsInv(worlds, ops, n);
    match ops[n] {
      case Publish(tid, event) => PublishIsTheOwners(worlds[n], tid, event, i);
      case Drain(_) =>
      case _ => ClaimOrReleaseIsTheOwners(worlds[n], ops[n], i);
    }
  }

  /** The operation that takes ring `r` over: a claim, or a publish that has to claim again,
      by thread `taker`, for whose window of staleness the touch tick of `r` is too old. */
  ghost predicate TakesOver(w: World, op: Op, r: RingState, taker: nat)
    requires WellFormed(w)
  {
    match op
    case Claim(tid, now, staleTicks) => tid == taker && Stale(r, now, staleTicks)
    case Publish(tid, event) => tid == taker && Stale(r, event.tick, ProducerOf(w, tid).staleTicks)
    case _ => false
  }

  /** A ring changes from one owner to another only when all 64 are busy with other threads,
      and then only to the thread whose operation it is and only if the owner's last touch, made
      at the claim and at every 4096th record, is older than that thread's own staleness window.
      RegistryTakeover says when the owner has been silent for as long. */
  lemma TakeOverOnlyWhenAllBusy(worlds: seq<World>, ops: seq<Op>, n: nat, i: nat)
    requires IsRun(worlds, ops) && n < |ops| && i < MAX_RINGS
    requires |worlds[n].rings| == MAX_RINGS == |worlds[n + 1].rings|
    requires worlds[n].rings[i].ownerThread != 0
    requires worlds[n + 1].rings[i].ownerThread !in {0, worlds[n].rings[i].ownerThread}
    ensures forall k :: 0 <= k < MAX_RINGS ==>
              worlds[n].rings[k].ownerThread !in {0, worlds[n + 1].rings[i].ownerThread}
    ensures TakesOver(worlds[n], ops[n], worlds[n].rings[i], worlds[n + 1].rings[i].ownerThread)
  {
    RunKeepsInv(worlds, ops, n);
    var w := worlds[n];
    match ops[n] {
      case Claim(tid, now, staleTicks) =>
        assert Choose(w.rings, tid, now, staleTicks) == Some(i);
      case Publish(tid, event) =>
        var p := ProducerOf(w, tid);
        assert Choose(w.rings, p.threadId, event.tick, p.staleTicks) == Some(i);
      case _ =>
    }
  }

  /** There is a ring to be had: a free one, or one whose touch tick is too old for the taker. */
  ghost predicate RingToBeHad(rings: seq<RingState>, now: nat, staleTicks: nat) {
    || (exists i :: 0 <= i < |rings| && rings[i].ownerThread == 0)
    || (exists i :: 0 <= i < |rings| && Stale(rings[i], now, staleTicks))
  }

  lemma ChoosesIfItCan(rings: seq<RingState>, tid: nat, now: nat, staleTicks: nat)
    requires forall i :: 0 <= i < |rings| ==> rings[i].ownerThread != tid
    ensures Choose(rings, tid, now, staleTicks).Some? <==> tid != 0 && RingToBeHad(rings, now, staleTicks)
  {
    if exists i :: 0 <= i < |rings| && rings[i].ownerThread == 0 {
      var i :| 0 <= i < |rings| && rings[i].ownerThread == 0;
      assert FirstStop(rings, tid, 0) <= i;
    }
  }

  lemma NobodyElse(w: World, tid: nat)
    requires RegistryInv(w)
    requires var p := ProducerOf(w, tid); p.ring.Some? ==> w.rings[p.ring.value].ownerThread != tid
    ensures forall i :: 0 <= i < MAX_RINGS ==> tid != 0 ==> w.rings[i].ownerThread != tid
  {
    forall i | 0 <= i < MAX_RINGS
      ensures tid != 0 ==> w.rings[i].ownerThread != tid
    {
      assert OwnerKnows(w, i);
    }
  }

  /** A claim succeeds exactly when the thread has a ring already or there is one to be had. */
  lemma ClaimSucceedsIff(worlds: seq<World>, ops: seq<Op>, n: nat, tid: nat, now: nat, staleTicks: nat)
    requires IsRun(worlds, ops) && n < |ops| && ops[n] == Claim(tid, now, staleTicks)
    ensures var w, w' := worlds[n], worlds[n + 1];
            && tid in w'.producers
            && (w'.producers[tid].ring.Some? <==>
                  ProducerOf(w, tid).ring.Some? || (tid != 0 && RingToBeHad(w.rings, now, staleTicks)))
  {
    RunKeepsInv(worlds, ops, n);
    var w := worlds[n];
    if ProducerOf(w, tid).ring.None? && tid != 0 {
      NobodyElse(w, tid);
      ChoosesIfItCan(w.rings, tid, now, staleTicks);
    }
  }

  /** After a publish the thread has a ring, with its event in it, exactly when it had one before
      that is still its own or, when that was taken from it, there is another one to be had;
      otherwise its event is dropped. */
  lemma PublishFindsARingIff(worlds: seq<World>, ops: seq<Op>, n: nat, tid: nat, event: Event)
    requires IsRun(worlds, ops) && n < |ops| && ops[n] == Publish(tid, event)
    ensures var w, w', p := worlds[n], worlds[n + 1], ProducerOf(worlds[n], tid);
            && |w.rings| == MAX_RINGS && tid in w'.producers && (p.ring.Some? ==> p.ring.value < MAX_RINGS)
            && (w'.producers[tid].ring.Some? <==>
                  p.ring.Some? && (w.rings[p.ring.value].ownerThread == tid
                                   || RingToBeHad(w.rings, event.tick, p.staleTicks)))
            && (w'.producers[tid].ring.None? ==> w'.histories == w.histories)
  {
    RunKeepsInv(worlds, ops, n);
    var w, p := worlds[n], ProducerOf(worlds[n], tid);
    if p.ring.Some? && w.rings[p.ring.value].ownerThread != tid {
      NobodyElse(w, tid);
      ChoosesIfItCan(w.rings, tid, event.tick, p.staleTicks);
    }
  }

  /** Generation isolation: in every run, draining ring `i` delivers a suffix of exactly the
      events published into it since it was last claimed, minus the whole laps it lost. */
  lemma DrainSeesOnlyTheCurrentOwnersEvents(worlds: seq<World>, ops: seq<Op>, n: nat, i: nat)
    requires IsRun(worlds, ops) && n < |worlds| && i < MAX_RINGS
    ensures |worlds[n].rings| == MAX_RINGS == |worlds[n].histories| && 0 < |worlds[n].rings[i].slots|
    ensures var r, history := worlds[n].rings[i], worlds[n].histories[i];
            var lost := Gap(r.readSeq, r.writeSeq, |r.slots|);
            && r.readSeq + lost <= |history|
            && DrainFrom(r, r.readSeq + FIRST_SEQ) == Drained(history[r.readSeq + lost..], lost, 0, |history| + 1)
  {
    RunKeepsInv(worlds, ops, n);
    DrainDeliversTheSuffix(worlds[n].rings[i], worlds[n].histories[i]);
  }

  /** What a Publish does to the histories: the event is appended, under the next id, to the
      history of the ring the thread owns afterwards, or the thread ends without a ring. */
  lemma PublishAppends(worlds: seq<World>, ops: seq<Op>, n: nat, tid: nat, event: Event)
    requires IsRun(worlds, ops) && n < |ops| && ops[n] == Publish(tid, event)
    ensures var w' := worlds[n + 1];
            && tid in w'.producers
            && (w'.producers[tid].ring.Some? ==>
                  var i := w'.producers[tid].ring.value;
                  && i < |w'.rings| && i < |w'.histories| && w'.rings[i].ownerThread == tid
                  && w'.histories[i] != []
                  && w'.histories[i][|w'.histories[i]| - 1] == event.(id := |w'.histories[i]|))
  {
    RunKeepsInv(worlds, ops, n);
    PublishKeepsInv(worlds[n], tid, event);
    var m := Regained(worlds[n], tid, event.tick);
    if m.producers[tid].ring.Some? {
      assert OwnerKnows(m, m.producers[tid].ring.value);
    }
  }
}
