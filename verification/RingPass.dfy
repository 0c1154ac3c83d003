/** What one complete pass over a session's rings reaches (DrainAll in src/Ipc/ShmRing.cpp), with
    every producer running freely meanwhile. */
module RingPass {
  import opened ShmLayout
  import opened RingProtocol
  import opened RingSession
  import opened RingDrain

  /** How far the pass has come with ring `k`, which was `r0` when it began: nothing is claimed
      about a ring that has changed hands since. */
  ghost predicate OnPass(r0: Ring, s: Session, k: nat) {
    && s.helper.Draining? && k < |s.rings| && r0.past <= s.rings[k].past
    && (r0.past == s.rings[k].past ==> RingOnPass(r0, s.rings[k], s.helper, k))
  }

  ghost predicate RingOnPass(r0: Ring, r: Ring, h: Helper, k: nat)
    requires h.Draining?
  {
    && r0.writeSeq <= r.writeSeq
    && (h.ring == k && !r.consumer.Resting? ==> Covering(r0, r))
    && (k < h.ring && h.deferred == 0 ==> r0.writeSeq <= r.readSeq)
  }

  lemma ProducerKeepsOnPass(r0: Ring, r: Ring, step: Step, h: Helper, k: nat)
    requires RingProtocol.Inv(r) && Enabled(r, step) && !IsHelperStep(step) && h.Draining?
    requires r0.past <= r.past && (r0.past == r.past ==> RingOnPass(r0, r, h, k))
    ensures r0.past <= Apply(r, step).past
    ensures r0.past == Apply(r, step).past ==> RingOnPass(r0, Apply(r, step), h, k)
  {
    if r0.past == r.past && h.ring == k && !r.consumer.Resting? {
      StepKeepsCovering(r0, r, step);
    }
  }

  lemma HelperKeepsOnPass(r0: Ring, r: Ring, step: Step, h: Helper)
    requires RingProtocol.Inv(r) && Enabled(r, step) && IsHelperStep(step) && h.Draining?
    requires r0.past == r.past && RingOnPass(r0, r, h, h.ring)
    ensures var h' := if step.WriteBack? then Draining(h.ring + 1, 0, 0, h.deferred + r.consumer.d.deferred) else h;
            Apply(r, step).past == r.past && RingOnPass(r0, Apply(r, step), h', h.ring)
  {
    if !step.StartDrain? && !step.WriteBack? {
      StepKeepsCovering(r0, r, step);
    }
  }

  lemma StepKeepsOnPass(r0: Ring, s: Session, step: SessionStep, k: nat)
    requires SessionInv(s) && CanStep(s, step) && OnPass(r0, s, k) && !step.EndPass?
    ensures OnPass(r0, Next(s, step), k)
  {
    match step {
      case ByProducer(i, act) =>
        if i == k {
          ProducerKeepsOnPass(r0, s.rings[k], act, s.helper, k);
        }
      case ByHelper(act) =>
        if s.helper.ring == k {
          if r0.past == s.rings[k].past {
            HelperKeepsOnPass(r0, s.rings[k], act, s.helper);
          }
        } else {
          assert Next(s, step).rings[k] == s.rings[k];
          assert !(s.helper.Draining? && s.helper.ring == k) ==> s.rings[k].consumer.Resting?;
        }
    }
  }

  // ---------------------------------------------------------------- complete passes

  ghost predicate Moves(s: Session, step: SessionStep, s': Session) {
    SessionInv(s) && CanStep(s, step) && s' == Next(s, step)
  }

  /** Step `i` begins the pass that step `j` ends. */
  ghost predicate IsPass(states: seq<Session>, steps: seq<SessionStep>, i: nat, j: nat) {
    && IsSessionRun(states, steps) && i < j < |steps| && steps[i].BeginPass? && steps[j].EndPass?
    && forall m :: i < m < j ==> !steps[m].EndPass?
  }

  ghost predicate InsidePass(states: seq<Session>, steps: seq<SessionStep>, i: nat, j: nat) {
    && i <= j < |states| && j <= |steps|
    && forall m :: i <= m < j ==> Moves(states[m], steps[m], states[m + 1]) && !steps[m].EndPass?
  }

  lemma {:induction false} StaysOnPass(
    r0: Ring, states: seq<Session>, steps: seq<SessionStep>, i: nat, j: nat, k: nat)
    requires InsidePass(states, steps, i, j) && OnPass(r0, states[i], k)
    ensures OnPass(r0, states[j], k)
    decreases j - i
  {
    if i == j {
    } else {
      assert Moves(states[i], steps[i], states[i + 1]);
      StepKeepsOnPass(r0, states[i], steps[i], k);
      StaysOnPass(r0, states, steps, i + 1, j, k);
    }
  }

  lemma PassBegins(s: Session, k: nat)
    requires SessionInv(s) && CanStep(s, BeginPass) && k < |s.rings|
    ensures OnPass(s.rings[k], Next(s, BeginPass), k)
  {
  }

  lemma PassEnds(r0: Ring, s: Session, k: nat)
    requires CanStep(s, EndPass) && OnPass(r0, s, k)
    ensures var s' := Next(s, EndPass);
            && s'.rings == s.rings && r0.past <= s'.rings[k].past
            && (r0.past == s'.rings[k].past && s'.deferredRings == 0 ==> r0.writeSeq <= s'.rings[k].readSeq)
  {
  }

  /** A pass leaves out no ring and no record: when it returns without a deferral, every ring that
      has not changed hands since it began has been read up to where its producer stood then, at
      least. */
  lemma PassReadsEveryRing(states: seq<Session>, steps: seq<SessionStep>, i: nat, j: nat, k: nat)
    requires IsPass(states, steps, i, j) && k < MAX_RINGS
    ensures |states[i].rings| == MAX_RINGS == |states[j + 1].rings|
    ensures var r, r' := states[i].rings[k], states[j + 1].rings[k];
            && r.past <= r'.past
            && (r.past == r'.past && states[j + 1].deferredRings == 0 ==> r.writeSeq <= r'.readSeq)
  {
    RingsStay(states, steps, i);
    RingsStay(states, steps, j + 1);
    forall m | i <= m < j
      ensures Moves(states[m], steps[m], states[m + 1])
    {
      SessionRunKeepsInv(states, steps, m);
    }
    assert Moves(states[i], steps[i], states[i + 1]);
    PassBegins(states[i], k);
    assert InsidePass(states, steps, i + 1, j);
    StaysOnPass(states[i].rings[k], states, steps, i + 1, j, k);
    PassEnds(states[i].rings[k], states[j], k);
  }

  lemma {:induction false} RingsStay(states: seq<Session>, steps: seq<SessionStep>, n: nat)
    requires IsSessionRun(states, steps) && n < |states|
    ensures |states[n].rings| == MAX_RINGS
  {
    if n == 0 {
    } else {
      RingsStay(states, steps, n - 1);
      assert CanStep(states[n - 1], steps[n - 1]);
    }
  }
}
