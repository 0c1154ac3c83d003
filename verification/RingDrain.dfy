/** How far a drain reads (DrainRing in src/Ipc/ShmRing.cpp): under any interleaving, up to what
    was published when it began unless it is cut short; and beside an idle producer it is the
    sequential drain of TraceRing. */
module RingDrain {
  import opened ShmLayout
  import opened RingProtocol
  import TraceRing

  /** A drain leaves its loop at a load of the write cursor exactly when every record up to that
      cursor is behind it. */
  lemma LeavesIffAllIsBehind(states: seq<Ring>, steps: seq<Step>, i: nat)
    requires IsRun(states, steps) && i < |steps| && steps[i].LoadWriteSeq?
    ensures states[i].consumer.Looping? && states[i].consumer.d.next <= states[i].writeSeq + 1
    ensures states[i + 1].consumer.Leaving? <==> states[i].consumer.d.next == states[i].writeSeq + 1
    ensures !states[i + 1].consumer.Leaving? ==> states[i + 1].consumer == Checked(states[i].consumer.d)
  {
    RunKeepsInv(states, steps, i);
  }

  /** Step `i` begins the drain that step `j` ends. */
  ghost predicate IsDrain(states: seq<Ring>, steps: seq<Step>, i: nat, j: nat) {
    && IsRun(states, steps) && i < j < |steps| && steps[i].StartDrain? && steps[j].WriteBack?
    && forall k :: i < k < j ==> !steps[k].WriteBack?
  }

  // ---------------------------------------------------------------- under any interleaving

  /** Inside the drain that began in `s`: cut short exactly when it has counted a deferral. */
  ghost predicate Covering(s: Ring, r: Ring) {
    && !r.consumer.Resting? && s.writeSeq <= r.writeSeq && r.past == s.past
    && r.consumer.d.deferred <= (if r.consumer.Leaving? then 1 else 0)
    && (r.consumer.Leaving? && r.consumer.d.deferred == 0 ==> s.writeSeq < r.consumer.d.next)
    && (r.consumer.d.deferred == 1 ==> r.consumer.d.next + |r.slots| <= |r.now.history|)
  }

  lemma StepKeepsCovering(s: Ring, r: Ring, step: Step)
    requires Inv(r) && Covering(s, r) && Enabled(r, step) && !step.WriteBack?
    ensures Covering(s, Apply(r, step))
  {
    if step.LoadVersion? {
      WritingMeansInFlight(r);
    }
  }

  lemma {:induction false} DrainCovers(states: seq<Ring>, steps: seq<Step>, i: nat, j: nat, k: nat)
    requires IsDrain(states, steps, i, j) && i < k <= j
    ensures Covering(states[i], states[k])
  {
    RunKeepsInv(states, steps, k - 1);
    if k == i + 1 {
    } else {
      DrainCovers(states, steps, i, j, k - 1);
      StepKeepsCovering(states[i], states[k - 1], steps[k - 1]);
    }
  }

  /** Whatever its producer does meanwhile, a drain either passes every record that was published
      when it began, or has counted one deferral and stands at a record that is gone. */
  lemma DrainPassesWhatWasPublished(states: seq<Ring>, steps: seq<Step>, i: nat, j: nat)
    requires IsDrain(states, steps, i, j)
    ensures states[j].consumer.Leaving? && states[j].consumer.d.deferred <= 1
    ensures states[j + 1].readSeq == states[j].consumer.d.next - 1
    ensures states[j].consumer.d.deferred == 0 ==>
              states[i].writeSeq <= states[j + 1].readSeq <= states[j + 1].writeSeq
    ensures states[j].consumer.d.deferred == 1 ==>
              var next: Id := states[j + 1].readSeq + FIRST_SEQ;
              next + |states[j].slots| <= |states[j].now.history| && !Resident(states[j], next)
  {
    DrainCovers(states, steps, i, j, j);
    RunKeepsInv(states, steps, j);
    if states[j].consumer.d.deferred == 1 {
      ResidentIffInWindow(states[j], states[j].consumer.d.next);
    }
  }

  // ---------------------------------------------------------------- beside an idle producer

  /** The first record a drain of the resting ring `s` can read. */
  function Start(s: Ring): Id
    requires 0 < |s.slots|
  {
    s.readSeq + TraceRing.Gap(s.readSeq, s.writeSeq, |s.slots|) + FIRST_SEQ
  }

  /** Inside the drain that began in `s`, its producer idle ever since: it stands at its first
      record, or has delivered everything from record `Start(s)` up to where it stands. */
  ghost predicate Midway(s: Ring, r: Ring)
    requires 0 < |s.slots|
  {
    && r.producer.Idle? && !r.consumer.Resting?
    && r.slots == s.slots && r.writeSeq == s.writeSeq && r.readSeq == s.readSeq && r.drops == s.drops
    && r.now.history == s.now.history
    && Start(s) - 1 <= |s.now.history|
    && var d := r.consumer.d;
       && d.deferred == 0 && d.next <= |s.now.history| + 1
       && (r.consumer.Leaving? ==> d.next == s.writeSeq + 1)
       && (if d.next < Start(s)
           then d.next == s.readSeq + FIRST_SEQ && !r.consumer.Loading? && r.now.delivered == s.now.delivered
           else r.now.delivered == s.now.delivered + s.now.history[Start(s) - 1..d.next - 1])
  }

  /** What an idle producer has left in the slot of a published record. */
  lemma IdleSlot(r: Ring, id: Id)
    requires Inv(r) && r.producer.Idle? && id <= r.writeSeq
    ensures var last := id + TraceRing.Gap(id - 1, r.writeSeq, |r.slots|);
            last <= r.writeSeq && r.At(id).version == VersionFor(last, false)
  {
    var latest := LatestInSlot(r, id);
    assert SlotShows(r.At(latest), latest, r.now.history, r.producer);
    LatestIsAfterTheGap(id, latest, r.writeSeq, |r.slots|);
  }

  lemma LatestIsAfterTheGap(id: Id, latest: Id, written: nat, capacity: nat)
    requires 0 < capacity && id <= latest <= written < latest + capacity
    requires SlotIndex(id, capacity) == SlotIndex(latest, capacity)
    ensures latest == id + TraceRing.Gap(id - 1, written, capacity)
  {
    var last := LastOfSlot(id, written, capacity);
    if last < latest {
      NearbyRecordsUseDistinctSlots(last, latest, capacity);
    } else if latest < last {
      NearbyRecordsUseDistinctSlots(latest, last, capacity);
    }
  }

  /** So, looking at record `next`, the drain finds the first one it can read, or `next` itself. */
  lemma VersionMidway(s: Ring, r: Ring)
    requires Inv(s) && Inv(r) && Midway(s, r) && (r.consumer.Checked? || r.consumer.Loading?)
    ensures var next := r.consumer.d.next;
            r.At(next).version == VersionFor(if next < Start(s) then Start(s) else next, false)
  {
    var next := r.consumer.d.next;
    IdleSlot(r, next);
    TraceRing.GapReachesTheWindow(s.readSeq, s.writeSeq, |s.slots|);
    var read: nat := r.consumer.d.next - 1;
    TraceRing.LosslessIffWithinOneLap(read, s.writeSeq, |s.slots|);
  }

  lemma LoadKeepsMidway(s: Ring, r: Ring, step: Step)
    requires Inv(s) && Inv(r) && Midway(s, r) && Enabled(r, step)
    requires step.LoadWriteSeq? || step.LoadVersion? || step.LoadWord?
    ensures Midway(s, Apply(r, step))
  {
    if step.LoadVersion? {
      VersionMidway(s, r);
    }
  }

  lemma RecheckKeepsMidway(s: Ring, r: Ring)
    requires Inv(s) && Inv(r) && Midway(s, r) && Enabled(r, Recheck)
    ensures Midway(s, Apply(r, Recheck))
  {
    var next, history := r.consumer.d.next, s.now.history;
    VersionMidway(s, r);
    assert Assembled(r.consumer.loaded) == history[next - 1];
    assert history[Start(s) - 1..next] == history[Start(s) - 1..next - 1] + [history[next - 1]];
  }

  lemma StepKeepsMidway(s: Ring, r: Ring, step: Step, r': Ring)
    requires Inv(s) && Midway(s, r) && QuietStep(r, step, r')
    ensures Midway(s, r')
  {
    if step.Recheck? {
      RecheckKeepsMidway(s, r);
    } else {
      LoadKeepsMidway(s, r, step);
    }
  }

  lemma DrainBegins(s: Ring)
    requires Inv(s) && s.producer.Idle? && Enabled(s, StartDrain)
    ensures Midway(s, Apply(s, StartDrain))
  {
  }

  ghost predicate IdleFrom(states: seq<Ring>, i: nat, j: nat)
    requires j < |states|
  {
    forall k :: i <= k <= j ==> states[k].producer.Idle?
  }

  /** One step inside a drain beside an idle producer. */
  ghost predicate QuietStep(r: Ring, step: Step, r': Ring) {
    Inv(r) && !step.WriteBack? && Enabled(r, step) && r' == Apply(r, step) && r'.producer.Idle?
  }

  lemma DrainStep(states: seq<Ring>, steps: seq<Step>, i: nat, j: nat, k: nat)
    requires IsDrain(states, steps, i, j) && i <= k < j && IdleFrom(states, i, j)
    ensures QuietStep(states[k], steps[k], states[k + 1])
  {
    RunKeepsInv(states, steps, k);
  }

  ghost predicate QuietRun(states: seq<Ring>, steps: seq<Step>, i: nat, j: nat)
    requires j < |states| && j <= |steps|
  {
    forall k :: i <= k < j ==> QuietStep(states[k], steps[k], states[k + 1])
  }

  lemma {:induction false} DrainStaysMidway(states: seq<Ring>, steps: seq<Step>, i: nat, j: nat, k: nat)
    requires j < |states| && j <= |steps| && QuietRun(states, steps, i, j)
    requires i < k <= j && steps[i].StartDrain? && states[i].producer.Idle?
    ensures Inv(states[i]) && Midway(states[i], states[k])
  {
    assert QuietStep(states[i], steps[i], states[i + 1]);
    if k == i + 1 {
      DrainBegins(states[i]);
    } else {
      DrainStaysMidway(states, steps, i, j, k - 1);
      StepKeepsMidway(states[i], states[k - 1], steps[k - 1], states[k]);
    }
  }

  lemma DrainEndsMidway(states: seq<Ring>, steps: seq<Step>, i: nat, j: nat)
    requires IsDrain(states, steps, i, j) && IdleFrom(states, i, j)
    ensures Inv(states[i]) && Midway(states[i], states[j])
  {
    forall k | i <= k < j
      ensures QuietStep(states[k], steps[k], states[k + 1])
    {
      DrainStep(states, steps, i, j, k);
    }
    DrainStaysMidway(states, steps, i, j, j);
  }

  /** Beside an idle producer a drain reads to the end: it loses exactly the whole laps between
      the cursors, as the sequential drain of TraceRing does, and delivers every record after
      them, in order. */
  lemma IdleDrainReadsToTheEnd(states: seq<Ring>, steps: seq<Step>, i: nat, j: nat)
    requires IsDrain(states, steps, i, j) && IdleFrom(states, i, j)
    ensures var r, r' := states[i], states[j + 1];
            var lost := TraceRing.Gap(r.readSeq, r.writeSeq, |r.slots|);
            && r.readSeq + lost <= r.writeSeq == |r.now.history|
            && r'.readSeq == r'.writeSeq == r.writeSeq
            && r'.drops == r.drops + lost
            && r'.now.delivered == r.now.delivered + r.now.history[r.readSeq + lost..]
  {
    DrainEndsMidway(states, steps, i, j);
    RunKeepsInv(states, steps, j);
  }
}
