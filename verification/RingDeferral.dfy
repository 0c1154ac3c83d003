/** What becomes of a record that a drain defers (DrainRing in src/Ipc/ShmRing.cpp): it is never
    delivered, because its slot is already being taken by a later record. */
module RingDeferral {
  import opened ShmLayout
  import opened RingProtocol

  /** The slot of record `id` has gone to a later record, and the sink has not got it. */
  ghost predicate GoneUndelivered(r: Ring, id: Id) {
    && id + |r.slots| <= |r.now.history|
    && forall k :: 0 <= k < |r.now.delivered| ==> r.now.delivered[k][0] != id
  }

  /** So it is for the `period`-th ownership of the ring, or that ownership is over. */
  ghost predicate GoneIn(r: Ring, period: nat, id: Id) {
    && period <= |r.past|
    && (period == |r.past| ==> id <= r.writeSeq && GoneUndelivered(r, id))
  }

  lemma StepKeepsGone(r: Ring, step: Step, period: nat, id: Id)
    requires Inv(r) && Enabled(r, step) && GoneIn(r, period, id)
    ensures GoneIn(Apply(r, step), period, id)
  {
    if period == |r.past| && step.Recheck? && r.At(r.consumer.d.next).version == r.consumer.v1 {
      ResidentIffInWindow(r, id);
      VersionSeen(r);
      assert Assembled(r.consumer.loaded) == r.now.history[r.consumer.d.next - 1];
    }
  }

  /** Within one ownership, a record that is gone stays gone. */
  lemma {:induction false} GoneForGood(states: seq<Ring>, steps: seq<Step>, i: nat, j: nat, period: nat, id: Id)
    requires IsRun(states, steps) && i <= j < |states| && GoneIn(states[i], period, id)
    ensures GoneIn(states[j], period, id)
    decreases j
  {
    if i == j {
    } else {
      GoneForGood(states, steps, i, j - 1, period, id);
      RunKeepsInv(states, steps, j - 1);
      StepKeepsGone(states[j - 1], steps[j - 1], period, id);
    }
  }

  /** A deferral is a loss put off: whatever the producer and later drains do, the record at
      which a drain was cut short is not delivered in this ownership of the ring. */
  lemma DeferredRecordIsNeverDelivered(states: seq<Ring>, steps: seq<Step>, i: nat, j: nat)
    requires IsRun(states, steps) && i < j < |states| && steps[i].LoadVersion? && states[i + 1].consumer.Leaving?
    requires |states[j].past| == |states[i].past|
    ensures forall k :: 0 <= k < |states[j].now.delivered| ==>
              states[j].now.delivered[k][0] != states[i].consumer.d.next
  {
    DeferralMeansInFlight(states, steps, i);
    RunKeepsInv(states, steps, i);
    GoneForGood(states, steps, i, j, |states[i].past|, states[i].consumer.d.next);
  }

  // ---------------------------------------------------------------- a drain that defers

  const CAPACITY: nat := 64

  function Fresh(): Ring {
    Ring(seq(CAPACITY, i => Slot(0, [0, 0, 0, 0, 0, 0, 0, 0])), 0, 0, 0, 0, 0, Idle, Resting, Epoch([], [], 0, 0), [])
  }

  lemma Take(states: seq<Ring>, steps: seq<Step>, step: Step) returns (states': seq<Ring>, steps': seq<Step>)
    requires IsRun(states, steps) && Enabled(states[|steps|], step)
    ensures steps' == steps + [step] && states' == states + [Apply(states[|steps|], step)]
    ensures IsRun(states', steps')
  {
    RunKeepsInv(states, steps, |steps|);
    StepKeepsInv(states[|steps|], step);
    states', steps' := states + [Apply(states[|steps|], step)], steps + [step];
  }

  /** A producer between two records, a consumer between two drains of a ring nobody has drained. */
  ghost predicate Undrained(r: Ring, published: nat) {
    && |r.slots| == CAPACITY && r.producer.Idle? && r.consumer.Resting?
    && r.published == r.writeSeq == published && r.readSeq == 0 && r.now.delivered == [] && r.past == []
  }

  lemma PublishOne(states: seq<Ring>, steps: seq<Step>, event: Record) returns (states': seq<Ring>, steps': seq<Step>)
    requires IsRun(states, steps) && Undrained(states[|steps|], states[|steps|].published)
    ensures IsRun(states', steps') && Undrained(states'[|steps'|], states[|steps|].published + 1)
  {
    ghost var n := states[|steps|].published;
    states', steps' := Take(states, steps, Invalidate(event));
    var j := 0;
    while j < WORDS
      invariant j <= WORDS && IsRun(states', steps')
      invariant var r := states'[|steps'|];
                && |r.slots| == CAPACITY && r.consumer.Resting? && r.past == []
                && r.published == r.writeSeq == n && r.readSeq == 0 && r.now.delivered == []
                && r.producer.Storing? && forall i :: 0 <= i < WORDS ==> (i in r.producer.stored <==> i < j)
    {
      states', steps' := Take(states', steps', StoreWord(j));
      j := j + 1;
    }
    states', steps' := Take(states', steps', PublishVersion);
    states', steps' := Take(states', steps', PublishSeq);
  }

  /** 64 records are published into 64 slots, a drain begins, the producer begins the 65th record,
      and the drain is cut short at record 1, which was published long before. */
  lemma DrainDefersAPublishedRecord() returns (states: seq<Ring>, steps: seq<Step>)
    ensures IsRun(states, steps)
    ensures var r := states[|steps|];
            && r.consumer.Leaving? && r.consumer.d.deferred == 1 && r.consumer.d.next == 1
            && 1 <= r.writeSeq == CAPACITY <= |r.now.history| && r.now.delivered == [] && !Resident(r, 1)
  {
    states, steps := [Fresh()], [];
    var event: Record := [0, 0, 0, 0, 0, 0, 0, 0];
    var n := 0;
    while n < CAPACITY
      invariant n <= CAPACITY && IsRun(states, steps) && Undrained(states[|steps|], n)
    {
      states, steps := PublishOne(states, steps, event);
      n := n + 1;
    }
    states, steps := Take(states, steps, StartDrain);
    states, steps := Take(states, steps, LoadWriteSeq);
    states, steps := Take(states, steps, Invalidate(event));
    RunKeepsInv(states, steps, |steps|);
    assert SlotIndex(1, CAPACITY) == SlotIndex(65, CAPACITY);
    states, steps := Take(states, steps, LoadVersion);
    DeferralMeansInFlight(states, steps, |steps| - 1);
  }
}
