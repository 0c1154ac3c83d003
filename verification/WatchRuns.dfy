/** What runs of the arming protocol (module WatchProtocol) do to one slot and to one thread:
    a slot that has been retired goes dark whatever else happens meanwhile, and a stamped
    thread is exactly up to date unless it is a new thread under an old id. */
module WatchRuns {
  import opened WatchEncoding
  import opened WatchSlots
  import opened WatchProtocol

  /** Slot `k` is not to be watched: empty, busy, released or tripped. */
  ghost predicate Retired(s: State, k: Slot) {
    |s.table| == SLOTS && !s.table[k].Armable()
  }

  ghost predicate Armed(s: State, k: Slot, address: Address) {
    |s.table| == SLOTS && s.table[k].Armable() && s.table[k].address == address
  }

  // ---------------------------------------------------------------- what one sweep arms

  /** At state `i` of a run that goes on to state `j`, a sweep has begun and read nothing yet. */
  ghost predicate IsSweep(states: seq<State>, steps: seq<Step>, i: nat, j: nat) {
    IsRun(states, steps) && i <= j < |states| && states[i].sweeper.Starting?
  }

  ghost predicate WasArmed(states: seq<State>, i: nat, j: nat, k: Slot, address: Address)
    requires i <= j < |states|
  {
    exists m :: i <= m <= j && Armed(states[m], k, address)
  }

  ghost predicate Sees(sw: Sweeper, k: Slot, address: Address) {
    HasGeneration(sw) && k < |Seen(sw)| && Seen(sw)[k] == address
  }

  lemma SeenStep(s: State, step: Step, k: Slot, address: Address)
    requires Inv(s) && Enabled(s, step) && address != 0
    requires Sees(Apply(s, step).sweeper, k, address)
    ensures Sees(s.sweeper, k, address) || Armed(s, k, address)
  {
  }

  lemma SeenBefore(states: seq<State>, steps: seq<Step>, j: nat, k: Slot, address: Address)
    requires IsRun(states, steps) && 0 < j < |states| && address != 0 && Sees(states[j].sweeper, k, address)
    ensures Sees(states[j - 1].sweeper, k, address) || Armed(states[j - 1], k, address)
  {
    RunKeepsInv(states, steps, j - 1);
    SeenStep(states[j - 1], steps[j - 1], k, address);
  }

  /** An address only gets into the copy from the table, one step before. */
  ghost predicate CopiedFromTheTable(states: seq<State>, i: nat, j: nat, k: Slot, address: Address)
    requires i <= j < |states|
  {
    forall m {:trigger states[m]} :: i < m <= j && Sees(states[m].sweeper, k, address) ==>
      Sees(states[m - 1].sweeper, k, address) || Armed(states[m - 1], k, address)
  }

  lemma {:induction false} FirstSeenWhenArmed(states: seq<State>, i: nat, j: nat, k: Slot, address: Address)
    requires i <= j < |states| && CopiedFromTheTable(states, i, j, k, address)
    requires !Sees(states[i].sweeper, k, address) && Sees(states[j].sweeper, k, address)
    ensures WasArmed(states, i, j, k, address)
    decreases j
  {
    assert i < j;
    if Armed(states[j - 1], k, address) {
    } else {
      FirstSeenWhenArmed(states, i, j - 1, k, address);
    }
  }

  /** Whatever changes the table meanwhile, an address in the sweeper's copy was in that slot,
      armable, at some point since the sweep began. */
  lemma SeenWasInTheTable(states: seq<State>, steps: seq<Step>, i: nat, j: nat, k: Slot, address: Address)
    requires IsSweep(states, steps, i, j) && address != 0 && Sees(states[j].sweeper, k, address)
    ensures WasArmed(states, i, j, k, address)
  {
    forall m | i < m <= j && Sees(states[m].sweeper, k, address)
      ensures Sees(states[m - 1].sweeper, k, address) || Armed(states[m - 1], k, address)
    {
      SeenBefore(states, steps, m, k, address);
    }
    FirstSeenWhenArmed(states, i, j, k, address);
  }

  /** What a sweep leaves enabled on the thread it has just armed was armable, under that very
      address, at some point since the sweep began; so a slot that has been retired since then
      is off, whatever frees, traps and generation bumps for other slots happen meanwhile. */
  lemma ArmingRemovesRetiredWatches(states: seq<State>, steps: seq<Step>, i: nat, j: nat, k: Slot)
    requires IsSweep(states, steps, i, j)
    requires states[j].sweeper.Wrote? && states[j].sweeper.tid in states[j].threads
    ensures var r := states[j].threads[states[j].sweeper.tid];
            && (SlotEnabled(r.dr7, k) ==> WasArmed(states, i, j, k, r.dr[k]))
            && ((forall m :: i <= m <= j ==> Retired(states[m], k)) ==> !SlotEnabled(r.dr7, k))
  {
    RunKeepsInv(states, steps, j);
    var s := states[j];
    if s.sweeper.snap[k] != 0 {
      SeenWasInTheTable(states, steps, i, j, k, s.sweeper.snap[k]);
    }
    assert Watches(s.threads[s.sweeper.tid], k, s.sweeper.snap[k],
                   s.sweeper.gen == s.generation && s.sweeper.tid !in s.reused);
  }

  // ---------------------------------------------------------------- what a newer stamp means

  /** Nothing newer than generation `g` watches slot `k`: neither the sweeper's copy, nor the
      thread it has just armed, nor any thread stamped later. */
  ghost predicate OffSince(s: State, g: nat, k: Slot) {
    && (HasGeneration(s.sweeper) && s.sweeper.gen > g && k < |Seen(s.sweeper)| ==> Seen(s.sweeper)[k] == 0)
    && (s.sweeper.Wrote? && s.sweeper.gen > g && s.sweeper.tid in s.threads ==>
          !SlotEnabled(s.threads[s.sweeper.tid].dr7, k))
    && (forall t :: t in s.threads ==> OffFor(s, g, k, t))
  }

  ghost predicate OffFor(s: State, g: nat, k: Slot, t: Tid)
    requires t in s.threads
  {
    Tracked(s, t) && EntryOf(s, t).generation > g ==> !SlotEnabled(s.threads[t].dr7, k)
  }

  lemma EntryAfterUpdate(s: State, t: Tid, e: Entry, u: Tid)
    requires Tracked(s, t) && e.tid == t
    ensures Tracked(UpdateEntry(s, t, e), u) <==> Tracked(s, u)
    ensures Tracked(s, u) ==> EntryOf(UpdateEntry(s, t, e), u) == if u == t then e else EntryOf(s, u)
  {
    FindAfterUpdate(s.entries, FindThread(s.entries, t), e, u);
  }

  lemma AddEntryKeepsOff(s: State, u: Tid, g: nat, k: Slot)
    requires Inv(s) && Enabled(s, AddEntry(u)) && OffSince(s, g, k)
    ensures OffSince(Apply(s, AddEntry(u)), g, k)
  {
    forall t | t in s.threads
      ensures OffFor(Apply(s, AddEntry(u)), g, k, t)
    {
      assert OffFor(s, g, k, t);
      FindAfterAppend(s.entries, Entry(u, 0, {}, [0, 0, 0, 0]), t);
    }
  }

  /** Steps that change entries keep a retired slot off. */
  lemma EntryStepKeepsOff(s: State, step: Step, g: nat, k: Slot)
    requires Inv(s) && Enabled(s, step) && OffSince(s, g, k)
    requires step.OpenFailed? || step.RecordArms? || step.Stamp?
    ensures OffSince(Apply(s, step), g, k)
  {
    var s' := Apply(s, step);
    forall t | t in s'.threads
      ensures OffFor(s', g, k, t)
    {
      assert OffFor(s, g, k, t);
      match step {
        case OpenFailed(u) => EntryAfterUpdate(s, u, EntryOf(s, u).(generation := 0), t);
        case RecordArms(u) => EntryAfterUpdate(s, u, Recording(EntryOf(s, u), s.sweeper.snap), t);
        case Stamp => EntryAfterUpdate(s, s.sweeper.tid, EntryOf(s, s.sweeper.tid).(generation := s.sweeper.gen), t);
      }
    }
  }

  lemma SpawnKeepsOff(s: State, step: Step, g: nat, k: Slot)
    requires Inv(s) && Enabled(s, step) && OffSince(s, g, k)
    requires step.Spawn? || step.Exit?
    ensures OffSince(Apply(s, step), g, k)
  {
    var s' := Apply(s, step);
    NothingEnabledWhenClear(CLEAR.dr7, k);
    forall t | t in s'.threads
      ensures OffFor(s', g, k, t)
    {
      if t in s.threads {
        assert OffFor(s, g, k, t);
      }
    }
  }

  /** So do steps that change the registers of threads. */
  lemma ThreadStepKeepsOff(s: State, step: Step, g: nat, k: Slot)
    requires Inv(s) && Enabled(s, step) && OffSince(s, g, k)
    requires step.ArmSucceeds? || step.Trap?
    ensures OffSince(Apply(s, step), g, k)
  {
    var s' := Apply(s, step);
    if step.ArmSucceeds? {
      Dr7EnablesExactlyTheWatches(s.sweeper.snap, k);
    } else {
      TrapClearsStopped(s, step.tid, step.triggered, step.recorded, k);
    }
    forall t | t in s'.threads
      ensures OffFor(s', g, k, t)
    {
      assert OffFor(s, g, k, t);
    }
  }

  /** And the rest, as long as the slot stays retired. */
  lemma OtherStepKeepsOff(s: State, step: Step, g: nat, k: Slot)
    requires Inv(s) && Enabled(s, step) && OffSince(s, g, k) && Retired(s, k)
    requires !(step.AddEntry? || step.OpenFailed? || step.RecordArms? || step.Stamp?)
    requires !(step.Spawn? || step.Exit? || step.ArmSucceeds? || step.Trap?)
    ensures OffSince(Apply(s, step), g, k)
  {
    var s' := Apply(s, step);
    assert s'.threads == s.threads && s'.entries == s.entries;
    forall t | t in s'.threads
      ensures OffFor(s', g, k, t)
    {
      assert OffFor(s, g, k, t);
    }
  }

  lemma StepKeepsOff(s: State, step: Step, g: nat, k: Slot)
    requires Inv(s) && Enabled(s, step) && OffSince(s, g, k) && Retired(s, k)
    ensures OffSince(Apply(s, step), g, k)
  {
    if step.AddEntry? {
      AddEntryKeepsOff(s, step.tid, g, k);
    } else if step.OpenFailed? || step.RecordArms? || step.Stamp? {
      EntryStepKeepsOff(s, step, g, k);
    } else if step.Spawn? || step.Exit? {
      SpawnKeepsOff(s, step, g, k);
    } else if step.ArmSucceeds? || step.Trap? {
      ThreadStepKeepsOff(s, step, g, k);
    } else {
      OtherStepKeepsOff(s, step, g, k);
    }
  }

  lemma NothingIsNewerThanNow(s: State, k: Slot)
    requires Inv(s)
    ensures OffSince(s, s.generation, k)
  {
    forall t | t in s.threads
      ensures OffFor(s, s.generation, k, t)
    {
    }
  }

  /** A slot that is retired from state `a` on is off on every thread whose stamp is newer
      than the generation of state `a`, whatever else has changed since: other slots, bumps,
      traps, failed arms, new threads under old ids. The bump that follows every release makes
      each later sweep such a stamp. */
  lemma {:induction false} RetiredSlotStaysOff(states: seq<State>, steps: seq<Step>, a: nat, j: nat, k: Slot)
    requires IsRun(states, steps) && a <= j < |states|
    requires forall m :: a <= m <= j ==> Retired(states[m], k)
    ensures OffSince(states[j], states[a].generation, k)
    decreases j
  {
    if a == j {
      RunKeepsInv(states, steps, a);
      NothingIsNewerThanNow(states[a], k);
    } else {
      RetiredSlotStaysOff(states, steps, a, j - 1, k);
      RunKeepsInv(states, steps, j - 1);
      StepKeepsOff(states[j - 1], steps[j - 1], states[a].generation, k);
    }
  }

  /** A forced sweep passes over a tracked thread only when the thread needs nothing: a slot
      retired since before the generation this sweep has read is off on it. */
  lemma ForcedSweepSkipsOnlyCleanThreads(
    states: seq<State>, steps: seq<Step>, a: nat, j: nat, t: Tid, k: Slot)
    requires IsRun(states, steps) && a <= j < |states|
    requires forall m :: a <= m <= j ==> Retired(states[m], k)
    requires states[j].sweeper.Arming? && states[j].sweeper.open && states[a].generation < states[j].sweeper.gen
    requires t in states[j].threads && Tracked(states[j], t)
    requires !Eligible(EntryOf(states[j], t), states[j].sweeper.gen, states[j].sweeper.open)
    ensures !SlotEnabled(states[j].threads[t].dr7, k)
  {
    RetiredSlotStaysOff(states, steps, a, j, k);
    assert OffFor(states[j], states[a].generation, k, t);
  }

  // ---------------------------------------------------------------- new threads under old ids

  /** If `t` was handed out again and its thread not armed since, the thread watches nothing. */
  ghost predicate Bare(s: State, t: Tid, k: Slot) {
    t in s.threads && t in s.reused ==> !SlotEnabled(s.threads[t].dr7, k)
  }

  lemma BareStep(s: State, step: Step, t: Tid, k: Slot)
    requires Inv(s) && Enabled(s, step) && Bare(s, t, k)
    ensures Bare(Apply(s, step), t, k)
  {
    NothingEnabledWhenClear(CLEAR.dr7, k);
    if step.Trap? {
      TrapClearsStopped(s, step.tid, step.triggered, step.recorded, k);
    }
  }

  lemma {:induction false} ReusedThreadsAreBare(states: seq<State>, steps: seq<Step>, n: nat, t: Tid, k: Slot)
    requires IsRun(states, steps) && n < |states|
    ensures Bare(states[n], t, k)
  {
    if n == 0 {
      RunKeepsInv(states, steps, 0);
      InitIsBare(states[0], t, k);
    } else {
      ReusedThreadsAreBare(states, steps, n - 1, t, k);
      RunKeepsInv(states, steps, n - 1);
      BareStep(states[n - 1], steps[n - 1], t, k);
    }
  }

  lemma InitIsBare(s: State, t: Tid, k: Slot)
    requires Init(s)
    ensures Bare(s, t, k)
  {
    if t in s.threads {
      NothingEnabledWhenClear(s.threads[t].dr7, k);
    }
  }

  /** Exactly when "stamped" means "armed with the current set": with no table change pending,
      a thread stamped with the current generation watches exactly the armable slots unless it
      is a new thread under an old id, not armed since, and there is something to arm. */
  lemma StampIsExactIffArmedSinceSpawn(states: seq<State>, steps: seq<Step>, n: nat, t: Tid)
    requires IsRun(states, steps) && n < |states|
    requires Quiet(states[n]) && t in states[n].threads && Tracked(states[n], t)
    requires EntryOf(states[n], t).generation == states[n].generation
    ensures |states[n].table| == SLOTS
    ensures (forall k: Slot :: SlotEnabled(states[n].threads[t].dr7, k) <==> states[n].table[k].Armable())
       <==> (t !in states[n].reused || forall k: Slot :: !states[n].table[k].Armable())
  {
    RunKeepsInv(states, steps, n);
    forall k: Slot
      ensures SlotEnabled(states[n].threads[t].dr7, k) ==> states[n].table[k].Armable()
      ensures t !in states[n].reused && states[n].table[k].Armable() ==> SlotEnabled(states[n].threads[t].dr7, k)
      ensures t in states[n].reused ==> !SlotEnabled(states[n].threads[t].dr7, k)
    {
      StampedThreadsMatchTheTable(states, steps, n, t, k);
      ReusedThreadsAreBare(states, steps, n, t, k);
    }
  }

  // ---------------------------------------------------------------- requests and retries

  ghost predicate Moves(s: State, step: Step, s': State) {
    Inv(s) && Enabled(s, step) && s' == Apply(s, step)
  }

  ghost predicate Chain(states: seq<State>, steps: seq<Step>, i: nat, j: nat) {
    && i <= j < |states| && j <= |steps|
    && forall k :: i <= k < j ==> Moves(states[k], steps[k], states[k + 1])
  }

  lemma RunIsChain(states: seq<State>, steps: seq<Step>, i: nat, j: nat)
    requires IsRun(states, steps) && i <= j < |states|
    ensures Chain(states, steps, i, j)
  {
    forall k | i <= k < j
      ensures Moves(states[k], steps[k], states[k + 1])
    {
      RunKeepsInv(states, steps, k);
    }
  }

  /** The sweep that begins with step `k` takes a request and is forced. */
  ghost predicate TakesRequest(states: seq<State>, steps: seq<Step>, k: nat)
    requires k < |steps| && k + 1 < |states|
  {
    steps[k].TakeForce? && states[k + 1].sweeper == Starting(true)
  }

  lemma MoveKeepsRequest(s: State, step: Step, s': State)
    requires Moves(s, step, s') && s.forceRearm
    ensures s'.forceRearm || (step.TakeForce? && s'.sweeper == Starting(true))
  {
  }

  lemma {:induction false} ChainKeepsRequest(states: seq<State>, steps: seq<Step>, i: nat, j: nat)
    requires Chain(states, steps, i, j) && states[i].forceRearm
    ensures states[j].forceRearm || exists k :: i <= k < j && TakesRequest(states, steps, k)
    decreases j - i
  {
    if i == j {
    } else {
      MoveKeepsRequest(states[i], steps[i], states[i + 1]);
      if TakesRequest(states, steps, i) {
      } else {
        ChainKeepsRequest(states, steps, i + 1, j);
      }
    }
  }

  /** A request for a forced sweep is never lost: it stands until a sweep takes it, and that
      sweep is forced. */
  lemma RequestIsHonoured(states: seq<State>, steps: seq<Step>, i: nat, j: nat)
    requires IsRun(states, steps) && i <= j < |states| && states[i].forceRearm
    ensures states[j].forceRearm || exists k :: i <= k < j && TakesRequest(states, steps, k)
  {
    RunIsChain(states, steps, i, j);
    ChainKeepsRequest(states, steps, i, j);
  }

  lemma MoveKeepsForced(s: State, step: Step, s': State)
    requires Moves(s, step, s') && !s.sweeper.Resting? && s.sweeper.open && !step.EndSweep?
    ensures !s'.sweeper.Resting? && s'.sweeper.open
  {
  }

  lemma {:induction false} ChainKeepsForced(states: seq<State>, steps: seq<Step>, i: nat, j: nat)
    requires Chain(states, steps, i, j) && !states[i].sweeper.Resting? && states[i].sweeper.open
    requires forall k :: i <= k < j ==> !steps[k].EndSweep?
    ensures !states[j].sweeper.Resting? && states[j].sweeper.open
    decreases j - i
  {
    if i == j {
    } else {
      MoveKeepsForced(states[i], steps[i], states[i + 1]);
      ChainKeepsForced(states, steps, i + 1, j);
    }
  }

  /** And it stays forced until it ends. */
  lemma ForcedSweepStaysForced(states: seq<State>, steps: seq<Step>, i: nat, j: nat)
    requires IsRun(states, steps) && i <= j < |states| && states[i].sweeper == Starting(true)
    requires forall k :: i <= k < j ==> !steps[k].EndSweep?
    ensures !states[j].sweeper.Resting? && states[j].sweeper.open
  {
    RunIsChain(states, steps, i, j);
    ChainKeepsForced(states, steps, i, j);
  }

  ghost predicate Unstamped(s: State, t: Tid) {
    Tracked(s, t) && EntryOf(s, t).generation == 0
  }

  predicate Stamps(s: State, step: Step, t: Tid) {
    step.Stamp? && s.sweeper.Wrote? && s.sweeper.tid == t
  }

  lemma MoveMakesUnstamped(s: State, step: Step, s': State, t: Tid)
    requires Moves(s, step, s') && (step == AddEntry(t) || step == OpenFailed(t))
    ensures Unstamped(s', t)
  {
    if step.AddEntry? {
      FindAfterAppend(s.entries, Entry(t, 0, {}, [0, 0, 0, 0]), t);
    } else {
      EntryAfterUpdate(s, t, EntryOf(s, t).(generation := 0), t);
    }
  }

  lemma MoveKeepsUnstamped(s: State, step: Step, s': State, t: Tid)
    requires Moves(s, step, s') && Unstamped(s, t) && !Stamps(s, step, t)
    ensures Unstamped(s', t)
  {
    match step {
      case AddEntry(u) => FindAfterAppend(s.entries, Entry(u, 0, {}, [0, 0, 0, 0]), t);
      case OpenFailed(u) => EntryAfterUpdate(s, u, EntryOf(s, u).(generation := 0), t);
      case RecordArms(u) => EntryAfterUpdate(s, u, Recording(EntryOf(s, u), s.sweeper.snap), t);
      case Stamp => EntryAfterUpdate(s, s.sweeper.tid, EntryOf(s, s.sweeper.tid).(generation := s.sweeper.gen), t);
      case _ =>
    }
  }

  lemma {:induction false} ChainKeepsUnstamped(states: seq<State>, steps: seq<Step>, i: nat, j: nat, t: Tid)
    requires Chain(states, steps, i, j) && Unstamped(states[i], t)
    requires forall k :: i <= k < j ==> !Stamps(states[k], steps[k], t)
    ensures Unstamped(states[j], t)
    decreases j - i
  {
    if i == j {
    } else {
      MoveKeepsUnstamped(states[i], steps[i], states[i + 1], t);
      ChainKeepsUnstamped(states, steps, i + 1, j, t);
    }
  }

  /** Whom a sweep may arm: while the throttle is closed only threads that are unstamped, and a
      forced sweep every thread that is not stamped with the generation it has read. */
  lemma WhoMayBeArmed(states: seq<State>, steps: seq<Step>, i: nat, t: Tid)
    requires IsRun(states, steps) && i < |states| && states[i].sweeper.Arming? && Tracked(states[i], t)
    ensures var s := states[i];
            Enabled(s, RecordArms(t)) <==>
              if s.sweeper.open then EntryOf(s, t).generation < s.sweeper.gen else Unstamped(s, t)
  {
    RunKeepsInv(states, steps, i);
  }

  /** A thread that is new to the sweeper, or could not be opened, is taken up by every sweep,
      throttled or not, until it has been armed and stamped. */
  lemma UnstampedIsTakenUp(states: seq<State>, steps: seq<Step>, i: nat, j: nat, t: Tid)
    requires IsRun(states, steps) && i < j < |states| && (steps[i] == AddEntry(t) || steps[i] == OpenFailed(t))
    requires forall k :: i < k < j ==> !Stamps(states[k], steps[k], t)
    ensures Unstamped(states[j], t)
    ensures states[j].sweeper.Arming? ==> Enabled(states[j], RecordArms(t))
  {
    RunIsChain(states, steps, i, i + 1);
    RunIsChain(states, steps, i + 1, j);
    MoveMakesUnstamped(states[i], steps[i], states[i + 1], t);
    ChainKeepsUnstamped(states, steps, i + 1, j, t);
  }
}
