/** Who owns which ring (ClaimRing, ReleaseRing and RingProducer in src/Ipc/ShmRing.cpp):
    64 rings, one producer object per thread, each call taken as one step. */
module RingRegistry {
  import opened ShmLayout
  import opened TraceRing
  import opened Wrappers

  // ---------------------------------------------------------------- specification

  /** The first ring from `i` on that ends the scan: a free one, or one of the caller's own. */
  function FirstStop(rings: seq<RingState>, tid: nat, i: nat): (k: nat)
    requires i <= |rings|
    ensures i <= k <= |rings|
    ensures forall j :: i <= j < k ==> rings[j].ownerThread != 0 && rings[j].ownerThread != tid
    ensures k < |rings| ==> rings[k].ownerThread == 0 || rings[k].ownerThread == tid
    decreases |rings| - i
  {
    if i == |rings| || rings[i].ownerThread == 0 || rings[i].ownerThread == tid then i
    else FirstStop(rings, tid, i + 1)
  }

  predicate Stale(r: RingState, now: nat, staleTicks: nat) {
    staleTicks > 0 && now > r.lastActiveTick && now - r.lastActiveTick > staleTicks
  }

  function FirstStale(rings: seq<RingState>, now: nat, staleTicks: nat, i: nat): (k: nat)
    requires i <= |rings|
    ensures i <= k <= |rings|
    ensures forall j :: i <= j < k ==> !Stale(rings[j], now, staleTicks)
    ensures k < |rings| ==> Stale(rings[k], now, staleTicks)
    decreases |rings| - i
  {
    if i == |rings| || Stale(rings[i], now, staleTicks) then i
    else FirstStale(rings, now, staleTicks, i + 1)
  }

  /** The ring a claim takes, if any: the first free one, unless the thread already owns an
      earlier one; a silent owner's only when every ring is busy. */
  function Choose(rings: seq<RingState>, tid: nat, now: nat, staleTicks: nat): (choice: Option<nat>)
    ensures choice.Some? ==> choice.value < |rings| && tid != 0
  {
    var stop := FirstStop(rings, tid, 0);
    var stale := FirstStale(rings, now, staleTicks, 0);
    if tid == 0 then None
    else if stop < |rings| then (if rings[stop].ownerThread == 0 then Some(stop) else None)
    else if stale < |rings| then Some(stale)
    else None
  }

  function Claimed(rings: seq<RingState>, i: nat, tid: nat, now: nat): seq<RingState>
    requires i < |rings|
  {
    rings[i := Renewed(rings[i].(ownerThread := tid), now)]
  }

  function Released(rings: seq<RingState>, i: nat, tid: nat): seq<RingState> {
    if i < |rings| && rings[i].ownerThread == tid then rings[i := rings[i].(ownerThread := 0)] else rings
  }

  /** The fields of a RingProducer; `ring` is None for kNoRing. */
  datatype Producer = Producer(ring: Option<nat>, threadId: nat, published: nat, staleTicks: nat, lastTouchTick: nat)

  const FRESH_PRODUCER := Producer(None, 0, 0, 0, 0)

  function AfterClaim(rings: seq<RingState>, p: Producer, tid: nat, now: nat, staleTicks: nat)
    : (seq<RingState>, Producer)
  {
    var choice := Choose(rings, tid, now, staleTicks);
    if p.ring.Some? || choice.None? then (rings, p)
    else
      var rings' := Claimed(rings, choice.value, tid, now);
      (rings', Producer(choice, tid, rings'[choice.value].writeSeq, staleTicks, now))
  }

  function AfterRelease(rings: seq<RingState>, p: Producer): (seq<RingState>, Producer) {
    if p.ring.None? then (rings, p)
    else (Released(rings, p.ring.value, p.threadId), p.(ring := None))
  }

  ghost predicate Usable(rings: seq<RingState>, p: Producer) {
    && (forall i :: 0 <= i < |rings| ==> 0 < |rings[i].slots|)
    && (p.ring.Some? ==> p.ring.value < |rings|)
  }

  /** A producer whose ring is no longer its own lets go of it and claims another one. */
  function AfterReclaim(rings: seq<RingState>, p: Producer, now: nat): (seq<RingState>, Producer)
    requires p.ring.Some? ==> p.ring.value < |rings|
  {
    if p.ring.Some? && rings[p.ring.value].ownerThread != p.threadId
    then AfterClaim(rings, p.(ring := None), p.threadId, now, p.staleTicks)
    else (rings, p)
  }

  ghost function AfterPublish(rings: seq<RingState>, p: Producer, event: Event): (seq<RingState>, Producer)
    requires Usable(rings, p)
  {
    var (rings', p') := AfterReclaim(rings, p, event.tick);
    if p'.ring.None? then (rings', p')
    else
      var i, id := p'.ring.value, p'.published + 1;
      (rings'[i := Written(rings'[i], id, event)],
       p'.(published := id, lastTouchTick := if id % TOUCH_INTERVAL == 0 then event.tick else p'.lastTouchTick))
  }

  // ---------------------------------------------------------------- the objects

  /** The mapped region: the rings by index. */
  class Session {
    const rings: seq<Ring>

    ghost predicate Valid()
      reads this
    {
      && (forall i :: 0 <= i < |rings| ==> 0 < rings[i].slots.Length)
      && (forall i, j :: 0 <= i < j < |rings| ==> rings[i] != rings[j] && rings[i].slots != rings[j].slots)
    }

    ghost function Footprint(): set<object> {
      (set i | 0 <= i < |rings| :: rings[i]) + (set i | 0 <= i < |rings| :: rings[i].slots)
    }

    ghost function Views(): (views: seq<RingState>)
      reads Footprint()
      ensures |views| == |rings|
      ensures forall i :: 0 <= i < |rings| ==> views[i] == rings[i].View()
    {
      seq(|rings|, i requires 0 <= i < |rings| reads Footprint() => rings[i].View())
    }

    /** The exchange of the owner and the fresh generation after it. */
    method TakeRing(i: nat, tid: nat, now: nat)
      requires Valid() && i < |rings|
      modifies rings[i]
      ensures Views() == Claimed(old(Views()), i, tid, now)
    {
      ghost var views := Views();
      assert views[i] == rings[i].View();
      rings[i].ownerThread := tid;
      rings[i].BeginGeneration(now);
      assert Views() == Claimed(views, i, tid, now);
    }

    method ClaimRing(tid: nat, now: nat, staleTicks: nat) returns (choice: Option<nat>)
      requires Valid()
      modifies Footprint()
      ensures choice == Choose(old(Views()), tid, now, staleTicks)
      ensures Views() == if choice.Some? then Claimed(old(Views()), choice.value, tid, now) else old(Views())
    {
      ghost var views := Views();
      if tid == 0 {
        return None;
      }
      var candidate := None;
      var i := 0;
      while i < |rings|
        invariant i <= |rings| && Views() == views
        invariant FirstStop(views, tid, 0) == FirstStop(views, tid, i)
        invariant candidate.None? ==> FirstStale(views, now, staleTicks, 0) == FirstStale(views, now, staleTicks, i)
        invariant candidate.Some? ==>
                    candidate.value < |rings| && candidate.value == FirstStale(views, now, staleTicks, 0)
      {
        var ring := rings[i];
        assert views[i] == ring.View();
        if ring.ownerThread == 0 {
          TakeRing(i, tid, now);
          return Some(i);
        }
        if ring.ownerThread == tid {
          return None;
        }
        if candidate.None? && staleTicks > 0 && now > ring.lastActiveTick && now - ring.lastActiveTick > staleTicks {
          candidate := Some(i);
        }
        i := i + 1;
      }
      if candidate.Some? {
        TakeRing(candidate.value, tid, now);
      }
      return candidate;
    }

    method ReleaseRing(i: nat, tid: nat)
      requires Valid()
      modifies Footprint()
      ensures Views() == Released(old(Views()), i, tid)
    {
      ghost var views := Views();
      if i < |rings| {
        var ring := rings[i];
        assert views[i] == ring.View();
        if ring.ownerThread == tid {
          ring.ownerThread := 0;
        }
      }
      assert Views() == Released(views, i, tid);
    }
  }

  class RingProducer {
    var ring: Option<nat>
    var threadId: nat
    var published: nat
    var staleTicks: nat
    var lastTouchTick: nat

    ghost function View(): Producer
      reads this
    {
      Producer(ring, threadId, published, staleTicks, lastTouchTick)
    }

    constructor ()
      ensures View() == FRESH_PRODUCER
    {
      ring, threadId, published, staleTicks, lastTouchTick := None, 0, 0, 0, 0;
    }

    method Claim(s: Session, tid: nat, now: nat, staleTicks: nat) returns (ok: bool)
      requires s.Valid()
      modifies this, s.Footprint()
      ensures (s.Views(), View()) == AfterClaim(old(s.Views()), old(View()), tid, now, staleTicks)
      ensures ok <==> ring.Some?
    {
      if ring.Some? {
        return true;
      }
      assert this !in s.Footprint();
      var choice := s.ClaimRing(tid, now, staleTicks);
      if choice.None? {
        return false;
      }
      ring := choice;
      threadId := tid;
      this.staleTicks := staleTicks;
      published := s.rings[choice.value].writeSeq;
      lastTouchTick := now;
      return true;
    }

    method Release(s: Session)
      requires s.Valid()
      modifies this, s.Footprint()
      ensures (s.Views(), View()) == AfterRelease(old(s.Views()), old(View()))
    {
      if ring.None? {
        return;
      }
      s.ReleaseRing(ring.value, threadId);
      ring := None;
    }

    /** The first half of Publish: a ring that was taken over is let go of and replaced. */
    method Reclaim(s: Session, now: nat)
      requires s.Valid() && (ring.Some? ==> ring.value < |s.rings|)
      modifies this, s.Footprint()
      ensures (s.Views(), View()) == AfterReclaim(old(s.Views()), old(View()), now)
    {
      if ring.Some? && s.rings[ring.value].ownerThread != threadId {
        ring := None;
        var _ := Claim(s, threadId, now, staleTicks);
      }
    }

    /** The second half: one record into the ring the producer believes it owns. */
    method Append(s: Session, event: Event)
      requires s.Valid() && ring.Some? && ring.value < |s.rings|
      modifies this, s.Footprint()
      ensures var i, id := old(ring.value), old(published) + 1;
              && s.Views() == old(s.Views())[i := Written(old(s.Views())[i], id, event)]
              && View() == old(View()).(published := id,
                   lastTouchTick := if id % TOUCH_INTERVAL == 0 then event.tick else old(lastTouchTick))
    {
      ghost var views := s.Views();
      var id := published + 1;
      var target := s.rings[ring.value];
      assert views[ring.value] == target.View();
      target.Store(id, event);
      published := id;
      if id % TOUCH_INTERVAL == 0 {
        lastTouchTick := event.tick;
      }
      assert s.Views() == views[ring.value := Written(views[ring.value], id, event)];
    }

    method Publish(s: Session, event: Event)
      requires s.Valid() && (ring.Some? ==> ring.value < |s.rings|)
      modifies this, s.Footprint()
      ensures (s.Views(), View()) == AfterPublish(old(s.Views()), old(View()), event)
    {
      if ring.None? {
        return;
      }
      Reclaim(s, event.tick);
      if ring.None? {
        return;  // every ring is busy: the record is dropped
      }
      Append(s, event);
    }
  }
}
