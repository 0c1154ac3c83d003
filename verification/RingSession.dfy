/** All 64 rings of a session and the helper that drains them (DrainAll in
    src/Ipc/ShmRing.cpp), with every producer running freely in between. */
module RingSession {
  import opened ShmLayout
  import opened RingProtocol

  /** Where the helper is: between passes, or inside DrainAll at ring `ring` with the
      totals of the rings it has finished in this pass. */
  datatype Helper = Waiting | Draining(ring: nat, consumed: nat, dropped: nat, deferred: nat)

  /** The rings, the helper, the two counters of the header, and the number of deferred rings
      that the last DrainAll has returned. */
  datatype Session = Session(
    rings: seq<Ring>,
    helper: Helper,
    eventsConsumed: nat,
    eventsDropped: nat,
    deferredRings: nat)

  datatype SessionStep =
    | ByProducer(ring: nat, step: Step)  // any owner of any ring, or a take-over of it
    | BeginPass
    | ByHelper(step: Step)               // the helper, in the ring it is draining
    | EndPass

  predicate IsHelperStep(step: Step) {
    step.StartDrain? || step.LoadWriteSeq? || step.LoadVersion? || step.LoadWord? || step.Recheck? || step.WriteBack?
  }

  ghost predicate CanStep(s: Session, step: SessionStep) {
    match step
    case ByProducer(i, act) =>
      i < |s.rings| && !IsHelperStep(act) && 0 < |s.rings[i].slots| && Enabled(s.rings[i], act)
    case BeginPass => s.helper.Waiting?
    case ByHelper(act) =>
      && s.helper.Draining? && s.helper.ring < |s.rings|
      && IsHelperStep(act) && 0 < |s.rings[s.helper.ring].slots| && Enabled(s.rings[s.helper.ring], act)
    case EndPass => s.helper.Draining? && s.helper.ring == |s.rings|
  }

  ghost function Next(s: Session, step: SessionStep): Session
    requires CanStep(s, step)
  {
    match step
    case ByProducer(i, act) =>
      s.(rings := s.rings[i := Apply(s.rings[i], act)])
    case BeginPass =>
      s.(helper := Draining(0, 0, 0, 0))
    case ByHelper(act) =>
      var Draining(i, consumed, dropped, deferred) := s.helper;
      var moved := s.(rings := s.rings[i := Apply(s.rings[i], act)]);
      if act.WriteBack?
      then
        var d := s.rings[i].consumer.d;
        moved.(helper := Draining(i + 1, consumed + d.consumed, dropped + d.dropped, deferred + d.deferred))
      else moved
    case EndPass =>
      Session(s.rings, Waiting, s.eventsConsumed + s.helper.consumed, s.eventsDropped + s.helper.dropped,
              s.helper.deferred)
  }

  // ---------------------------------------------------------------- what has become of every record

  /** The records of a period that is over, or of one at rest, that the read cursor has passed
      and the sink has not got. */
  ghost function GivenUp(e: Epoch): set<Id> {
    set id: Id | id <= e.cursor && !HasGot(e, id)
  }

  ghost predicate HasGot(e: Epoch, id: Id) {
    exists k :: 0 <= k < |e.delivered| && e.delivered[k][0] == id
  }

  function DeliveredIn(periods: seq<Epoch>): nat {
    if periods == [] then 0
    else DeliveredIn(periods[..|periods| - 1]) + |periods[|periods| - 1].delivered|
  }

  ghost function GivenUpIn(periods: seq<Epoch>): nat {
    if periods == [] then 0
    else GivenUpIn(periods[..|periods| - 1]) + |GivenUp(periods[|periods| - 1])|
  }

  /** Every ownership of a ring that no drain is looking at, the current one included. */
  function Periods(r: Ring): seq<Epoch> {
    r.past + [r.now.(cursor := r.readSeq)]
  }

  /** What finished drains of a ring have handed to the sink, and what they have given up. */
  function Got(r: Ring): int {
    DeliveredIn(r.past) + |r.now.delivered| - if r.consumer.Resting? then 0 else r.consumer.d.consumed
  }

  ghost function Missed(r: Ring): int {
    GivenUpIn(r.past) + r.drops
  }

  lemma {:induction false} IdsUpTo(n: nat) returns (ids: set<Id>)
    ensures |ids| == n && forall id: Id :: id in ids <==> id <= n
  {
    if n == 0 {
      ids := {};
    } else {
      ids := IdsUpTo(n - 1);
      ids := ids + {n};
    }
  }

  /** The first `n` delivered records have `n` different ids. */
  lemma {:induction false} DeliveredIds(e: Epoch, n: nat) returns (ids: set<Id>)
    requires Faithful(e, e.cursor) && n <= |e.delivered|
    ensures |ids| == n
    ensures forall id: Id :: id in ids <==> exists k :: 0 <= k < n && e.delivered[k][0] == id
  {
    if n == 0 {
      ids := {};
    } else {
      var before := DeliveredIds(e, n - 1);
      assert IsRecordOf(e.delivered[n - 1], e.history);
      var last: Id := e.delivered[n - 1][0];
      assert last !in before;
      ids := before + {last};
    }
  }

  lemma GivenUpIsTheRest(e: Epoch)
    requires Faithful(e, e.cursor)
    ensures |GivenUp(e)| == e.cursor - |e.delivered|
  {
    var all := IdsUpTo(e.cursor);
    var delivered := DeliveredIds(e, |e.delivered|);
    forall id: Id | id in delivered
      ensures id in all
    {
      var k :| 0 <= k < |e.delivered| && e.delivered[k][0] == id;
      assert IsRecordOf(e.delivered[k], e.history);
    }
    assert GivenUp(e) == all - delivered;
    assert |all| == |all - delivered| + |delivered| by {
      assert all == (all - delivered) + delivered;
    }
  }

  /** What a ring at rest has lost in its current period is what its drop counter says. */
  lemma DropsAreGivenUp(r: Ring)
    requires RingProtocol.Inv(r) && r.consumer.Resting?
    ensures |GivenUp(r.now.(cursor := r.readSeq))| == r.drops
    ensures Got(r) == DeliveredIn(Periods(r)) && Missed(r) == GivenUpIn(Periods(r))
  {
    var e := r.now.(cursor := r.readSeq);
    assert Faithful(e, e.cursor) by {
      assert Faithful(r.now, r.readSeq);
    }
    GivenUpIsTheRest(e);
    assert Periods(r)[..|r.past|] == r.past;
  }

  // ---------------------------------------------------------------- sums over the rings

  ghost function Total(rings: seq<Ring>, of: Ring -> int): int {
    if rings == [] then 0 else Total(rings[..|rings| - 1], of) + of(rings[|rings| - 1])
  }

  lemma {:induction false} TotalAfterUpdate(rings: seq<Ring>, of: Ring -> int, i: nat, r: Ring)
    requires i < |rings|
    ensures Total(rings[i := r], of) + of(rings[i]) == Total(rings, of) + of(r)
  {
    var n := |rings| - 1;
    if i < n {
      TotalAfterUpdate(rings[..n], of, i, r);
      assert rings[i := r][..n] == rings[..n][i := r];
    } else {
      assert rings[i := r][..n] == rings[..n];
    }
  }

  lemma {:induction false} TotalsAgree(rings: seq<Ring>, f: Ring -> int, g: Ring -> int)
    requires forall i :: 0 <= i < |rings| ==> f(rings[i]) == g(rings[i])
    ensures Total(rings, f) == Total(rings, g)
  {
    if rings == [] {
    } else {
      TotalsAgree(rings[..|rings| - 1], f, g);
    }
  }

  lemma {:induction false} TotalOfZeroes(rings: seq<Ring>, f: Ring -> int)
    requires forall i :: 0 <= i < |rings| ==> f(rings[i]) == 0
    ensures Total(rings, f) == 0
  {
    if rings == [] {
    } else {
      TotalOfZeroes(rings[..|rings| - 1], f);
    }
  }

  lemma {:induction false} TotalsAdd(rings: seq<Ring>, f: Ring -> int, g: Ring -> int, sum: Ring -> int)
    requires forall i :: 0 <= i < |rings| ==> f(rings[i]) + g(rings[i]) == sum(rings[i])
    ensures Total(rings, f) + Total(rings, g) == Total(rings, sum)
  {
    if rings == [] {
    } else {
      TotalsAdd(rings[..|rings| - 1], f, g, sum);
    }
  }

  // ---------------------------------------------------------------- invariant

  /** What the pass in progress has counted and not yet added to the counters. */
  function ConsumedInPass(h: Helper): nat {
    if h.Draining? then h.consumed else 0
  }

  function DroppedInPass(h: Helper): nat {
    if h.Draining? then h.dropped else 0
  }

  ghost predicate SessionInv(s: Session) {
    && (forall i :: 0 <= i < |s.rings| ==> RingProtocol.Inv(s.rings[i]))
    && (forall i :: 0 <= i < |s.rings| && !(s.helper.Draining? && s.helper.ring == i) ==> s.rings[i].consumer.Resting?)
    && s.eventsConsumed + ConsumedInPass(s.helper) == Total(s.rings, Got)
    && s.eventsDropped + DroppedInPass(s.helper) == Total(s.rings, Missed)
    && (s.helper.Draining? ==> s.helper.ring <= |s.rings|)
  }

  ghost predicate SessionInit(s: Session) {
    && |s.rings| == MAX_RINGS
    && (forall i :: 0 <= i < |s.rings| ==> RingProtocol.Init(s.rings[i]))
    && s.helper == Waiting && s.eventsConsumed == 0 && s.eventsDropped == 0
  }

  /** Replacing one ring keeps the invariant when the helper accounts for the difference. */
  lemma RingReplaced(s: Session, i: nat, r: Ring, helper: Helper)
    requires SessionInv(s) && i < |s.rings| && RingProtocol.Inv(r)
    requires helper.Draining? == s.helper.Draining?
    requires helper.Draining? ==> helper.ring <= |s.rings| && (helper.ring == s.helper.ring || helper.ring == i + 1)
    requires helper.Draining? && helper.ring != s.helper.ring ==> s.helper.ring == i
    requires !(helper.Draining? && helper.ring == i) ==> r.consumer.Resting?
    requires ConsumedInPass(helper) + Got(s.rings[i]) == ConsumedInPass(s.helper) + Got(r)
    requires DroppedInPass(helper) + Missed(s.rings[i]) == DroppedInPass(s.helper) + Missed(r)
    ensures SessionInv(s.(rings := s.rings[i := r], helper := helper))
  {
    TotalAfterUpdate(s.rings, Got, i, r);
    TotalAfterUpdate(s.rings, Missed, i, r);
  }

  lemma TakeOverClosesThePeriod(r: Ring)
    requires RingProtocol.Inv(r) && Enabled(r, TakeOver)
    ensures Got(Apply(r, TakeOver)) == Got(r) && Missed(Apply(r, TakeOver)) == Missed(r)
  {
    DropsAreGivenUp(r);
    var r' := Apply(r, TakeOver);
    var e := r.now.(cursor := r.readSeq);
    assert GivenUp(r'.past[|r.past|]) == GivenUp(e);
    assert r'.past[..|r.past|] == r.past;
  }

  lemma StepEffect(r: Ring, step: Step)
    requires RingProtocol.Inv(r) && Enabled(r, step)
    ensures RingProtocol.Inv(Apply(r, step))
    ensures if IsHelperStep(step)
            then Apply(r, step).consumer.Resting? <==> step.WriteBack?
            else Apply(r, step).consumer == r.consumer
    ensures Got(Apply(r, step)) == Got(r) + if step.WriteBack? then r.consumer.d.consumed else 0
    ensures Missed(Apply(r, step)) == Missed(r) + if step.WriteBack? then r.consumer.d.dropped else 0
  {
    StepKeepsInv(r, step);
    if step.TakeOver? {
      TakeOverClosesThePeriod(r);
    }
  }

  lemma SessionStepKeepsInv(s: Session, step: SessionStep)
    requires SessionInv(s) && CanStep(s, step)
    ensures SessionInv(Next(s, step))
  {
    match step {
      case ByProducer(i, act) =>
        StepEffect(s.rings[i], act);
        RingReplaced(s, i, Apply(s.rings[i], act), s.helper);
      case ByHelper(act) =>
        var i := s.helper.ring;
        StepEffect(s.rings[i], act);
        RingReplaced(s, i, Apply(s.rings[i], act), Next(s, step).helper);
      case _ =>
    }
  }

  ghost predicate IsSessionRun(states: seq<Session>, steps: seq<SessionStep>) {
    && |states| == |steps| + 1
    && SessionInit(states[0])
    && forall i :: 0 <= i < |steps| ==> CanStep(states[i], steps[i]) && states[i + 1] == Next(states[i], steps[i])
  }

  lemma {:induction false} SessionRunKeepsInv(states: seq<Session>, steps: seq<SessionStep>, i: nat)
    requires IsSessionRun(states, steps) && i < |states|
    ensures SessionInv(states[i])
  {
    if 0 < i {
      SessionRunKeepsInv(states, steps, i - 1);
      SessionStepKeepsInv(states[i - 1], steps[i - 1]);
    } else {
      TotalOfZeroes(states[0].rings, Got);
      TotalOfZeroes(states[0].rings, Missed);
    }
  }

  // ---------------------------------------------------------------- what the counters mean

  function AllDelivered(r: Ring): int {
    DeliveredIn(Periods(r))
  }

  ghost function AllGivenUp(r: Ring): int {
    GivenUpIn(Periods(r))
  }

  function CursorsIn(periods: seq<Epoch>): nat {
    if periods == [] then 0 else CursorsIn(periods[..|periods| - 1]) + periods[|periods| - 1].cursor
  }

  function AllCursors(r: Ring): int {
    CursorsIn(Periods(r))
  }

  /** After every completed DrainAll, eventsConsumed is the number of records the sink has ever
      got, from every ring and every ownership of it, and eventsDropped is the number of those
      it has not got although a read cursor has passed them. */
  lemma SessionCountersBalance(states: seq<Session>, steps: seq<SessionStep>, i: nat)
    requires IsSessionRun(states, steps) && i < |states| && states[i].helper.Waiting?
    ensures states[i].eventsConsumed == Total(states[i].rings, AllDelivered)
    ensures states[i].eventsDropped == Total(states[i].rings, AllGivenUp)
  {
    SessionRunKeepsInv(states, steps, i);
    forall k | 0 <= k < |states[i].rings|
      ensures Got(states[i].rings[k]) == AllDelivered(states[i].rings[k])
      ensures Missed(states[i].rings[k]) == AllGivenUp(states[i].rings[k])
    {
      DropsAreGivenUp(states[i].rings[k]);
    }
    TotalsAgree(states[i].rings, Got, AllDelivered);
    TotalsAgree(states[i].rings, Missed, AllGivenUp);
  }

  lemma {:induction false} CursorsSplit(periods: seq<Epoch>)
    requires forall k :: 0 <= k < |periods| ==> Faithful(periods[k], periods[k].cursor)
    ensures DeliveredIn(periods) + GivenUpIn(periods) == CursorsIn(periods)
  {
    if periods == [] {
    } else {
      var n := |periods| - 1;
      CursorsSplit(periods[..n]);
      GivenUpIsTheRest(periods[n]);
    }
  }

  lemma RingCursorsSplit(r: Ring)
    requires RingProtocol.Inv(r) && r.consumer.Resting?
    ensures AllDelivered(r) + AllGivenUp(r) == AllCursors(r)
  {
    forall k | 0 <= k < |Periods(r)|
      ensures Faithful(Periods(r)[k], Periods(r)[k].cursor)
    {
      assert Faithful(r.now, r.readSeq);
    }
    CursorsSplit(Periods(r));
  }

  /** Together they are where the read cursors stand, and where they stood when past owners
      lost their rings. */
  lemma SessionCountersAreReadCursors(states: seq<Session>, steps: seq<SessionStep>, i: nat)
    requires IsSessionRun(states, steps) && i < |states| && states[i].helper.Waiting?
    ensures states[i].eventsConsumed + states[i].eventsDropped == Total(states[i].rings, AllCursors)
  {
    SessionRunKeepsInv(states, steps, i);
    SessionCountersBalance(states, steps, i);
    forall k | 0 <= k < |states[i].rings|
      ensures AllDelivered(states[i].rings[k]) + AllGivenUp(states[i].rings[k]) == AllCursors(states[i].rings[k])
    {
      RingCursorsSplit(states[i].rings[k]);
    }
    TotalsAdd(states[i].rings, AllDelivered, AllGivenUp, AllCursors);
  }
}
