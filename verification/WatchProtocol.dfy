/** The arming protocol of src/Core/Watchpoints.cpp as a step system: free hooks, rotation,
    promotion and the drainer change the four-slot table and bump a generation afterwards; a
    sweeper copies the table into every thread's debug registers; traps edit the registers of
    their own thread; threads come and go, and thread ids may be used again. */
module WatchProtocol {
  import opened WatchEncoding
  import opened WatchSlots

  type Tid = nat

  /** One thread's DR0-DR3 and DR7. */
  datatype Registers = Registers(dr: Addresses, dr7: bv64)

  const CLEAR := Registers([0, 0, 0, 0], 0)

  /** What the sweeper remembers about a thread it has tracked. */
  datatype Entry = Entry(tid: Tid, generation: nat, everArmed: set<Slot>, arms: Addresses)

  datatype Sweeper =
    | Resting
    | Starting(open: bool)                                          // a sweep has begun, nothing read
    | Snapping(gen: nat, open: bool, partial: seq<Address>)         // reading the table slot by slot
    | Arming(gen: nat, open: bool, snap: Addresses)                 // between two threads
    | Recorded(gen: nat, open: bool, snap: Addresses, tid: Tid)     // arm records written, hardware not
    | Wrote(gen: nat, open: bool, snap: Addresses, tid: Tid)        // hardware written, entry not stamped

  datatype State = State(
    table: seq<WatchSlot>,
    writing: map<Slot, Tid>,      // who has claimed each busy slot
    unbumped: set<Tid>,           // who has changed the table and not bumped the generation yet
    threads: map<Tid, Registers>,
    seen: set<Tid>,               // every thread id that has ever been live
    reused: set<Tid>,             // ids handed out again whose thread has not been armed since
    entries: seq<Entry>,
    maxThreads: nat,
    generation: nat,
    forceRearm: bool,
    everProgrammed: bool,
    sweeper: Sweeper)

  /** No table change is in progress or waiting for its generation bump. */
  ghost predicate Quiet(s: State) {
    s.writing == map[] && s.unbumped == {}
  }

  // ---------------------------------------------------------------- the trap handler

  function ViewOf(s: WatchSlot): TableView {
    if s.busy || s.address == 0 then NoSlot else InTable(s.address, s.released)
  }

  function FindThread(entries: seq<Entry>, tid: Tid): (i: nat)
    ensures i <= |entries|
    ensures i < |entries| ==> entries[i].tid == tid
    ensures forall k :: 0 <= k < i ==> entries[k].tid != tid
  {
    if entries == [] || entries[0].tid == tid then 0 else 1 + FindThread(entries[1..], tid)
  }

  /** The owner HandleDebugException finds for DR `slot` of the trapping thread. */
  function OwnerOf(s: State, tid: Tid, slot: Slot): TrapOwner
    requires |s.table| == SLOTS && tid in s.threads
  {
    var r := s.threads[tid];
    var i := FindThread(s.entries, tid);
    var everArmed := i < |s.entries| && slot in s.entries[i].everArmed;
    ClassifyTrapOwner(SlotEnabled(r.dr7, slot), r.dr[slot], everArmed,
                      if everArmed then s.entries[i].arms[slot] else 0, ViewOf(s.table[slot]))
  }

  predicate Stops(s: State, tid: Tid, triggered: set<Slot>, recorded: set<Slot>, slot: Slot)
    requires |s.table| == SLOTS && tid in s.threads
  {
    slot in triggered && OwnerOf(s, tid, slot).IsOurs() && (OwnerOf(s, tid, slot).IsStale() || slot in recorded)
  }

  /** DR7 after the loop over the triggered slots: a stale arm, or a write that is recorded as
      a possible degradation, stops the watch on this thread. */
  function Dr7AfterTrap(s: State, tid: Tid, triggered: set<Slot>, recorded: set<Slot>): bv64
    requires |s.table| == SLOTS && tid in s.threads
  {
    ClearSlots(s.threads[tid].dr7, (set k: Slot | k in triggered && Stops(s, tid, triggered, recorded, k)), SLOTS)
  }

  /** A trap asks for a forced sweep when some thread was left behind. */
  predicate AsksForSweep(s: State, tid: Tid, triggered: set<Slot>)
    requires |s.table| == SLOTS && tid in s.threads
  {
    exists k: Slot :: k in triggered && (OwnerOf(s, tid, k).IsStale() || OwnerOf(s, tid, k).TableReleased?)
  }

  // ---------------------------------------------------------------- steps

  datatype Step =
    | BeginChange(writer: Tid, slot: Slot)
    | Publish(slot: Slot, content: WatchSlot)
    | Bump(writer: Tid, force: bool)
    | Spawn(tid: Tid)
    | Exit(tid: Tid)
    | TakeForce(elapsed: bool)          // the periodic sweep takes _forceRearm
    | ArmNow                            // the trigger's forced sweep, which leaves it alone
    | ReadGeneration
    | ReadTableSlot
    | TearTableSlot
    | EndSnapshot
    | AddEntry(tid: Tid)
    | OpenFailed(tid: Tid)
    | RecordArms(tid: Tid)
    | ArmSucceeds
    | ArmFails
    | Stamp
    | EndSweep
    | Trap(tid: Tid, triggered: set<Slot>, recorded: set<Slot>)

  /** An entry the sweep does not skip. */
  predicate Eligible(e: Entry, gen: nat, open: bool) {
    e.generation == 0 || (e.generation != gen && open)
  }

  predicate Tracked(s: State, tid: Tid) {
    FindThread(s.entries, tid) < |s.entries|
  }

  /** The version of slot `k` has moved while the sweeper copied it: its writer is inside the
      slot, has yet to bump the generation, or has bumped it since the sweeper read it. */
  predicate MayBeTorn(s: State, k: nat)
    requires s.sweeper.Snapping?
  {
    k in s.writing || s.unbumped != {} || s.sweeper.gen < s.generation
  }

  ghost predicate Enabled(s: State, step: Step) {
    match step
    case BeginChange(_, k) => |s.table| == SLOTS && !s.table[k].busy && k !in s.writing
    case Publish(k, content) => |s.table| == SLOTS && k in s.writing && !content.busy
    case Bump(w, _) => w in s.unbumped && w !in s.writing.Values
    case Spawn(t) => t !in s.threads
    case Exit(t) => t in s.threads
    case TakeForce(_) => s.sweeper.Resting?
    case ArmNow => s.sweeper.Resting?
    case ReadGeneration => s.sweeper.Starting?
    case ReadTableSlot => s.sweeper.Snapping? && |s.sweeper.partial| < SLOTS && |s.table| == SLOTS
    case TearTableSlot => s.sweeper.Snapping? && |s.sweeper.partial| < SLOTS && MayBeTorn(s, |s.sweeper.partial|)
    case EndSnapshot => s.sweeper.Snapping? && |s.sweeper.partial| == SLOTS
    case AddEntry(t) => s.sweeper.Arming? && t in s.seen && !Tracked(s, t) && |s.entries| < s.maxThreads
    case OpenFailed(t) =>
      s.sweeper.Arming? && Tracked(s, t) && Eligible(s.entries[FindThread(s.entries, t)], s.sweeper.gen, s.sweeper.open)
    case RecordArms(t) =>
      s.sweeper.Arming? && Tracked(s, t) && Eligible(s.entries[FindThread(s.entries, t)], s.sweeper.gen, s.sweeper.open)
    case ArmSucceeds => s.sweeper.Recorded? && s.sweeper.tid in s.threads
    case ArmFails => s.sweeper.Recorded?
    case Stamp => s.sweeper.Wrote? && Tracked(s, s.sweeper.tid)
    case EndSweep => s.sweeper.Arming?
    case Trap(t, triggered, _) => |s.table| == SLOTS && t in s.threads && s.everProgrammed
  }

  function UpdateEntry(s: State, tid: Tid, e: Entry): State
    requires Tracked(s, tid)
  {
    s.(entries := s.entries[FindThread(s.entries, tid) := e])
  }

  /** The arm record of a thread about to be armed: what was there, plus the new set. */
  function Recording(e: Entry, snap: Addresses): Entry {
    e.(everArmed := e.everArmed + (set k: Slot | k < SLOTS && snap[k] != 0),
       arms := seq(SLOTS, k requires 0 <= k < SLOTS => if snap[k] != 0 then snap[k] else e.arms[k]))
  }

  ghost function Apply(s: State, step: Step): State
    requires Enabled(s, step)
  {
    match step
    case BeginChange(w, k) =>
      s.(table := s.table[k := s.table[k].(busy := true)], writing := s.writing[k := w])
    case Publish(k, content) =>
      s.(table := s.table[k := content], writing := s.writing - {k}, unbumped := s.unbumped + {s.writing[k]})
    case Bump(w, force) =>
      s.(unbumped := s.unbumped - {w}, generation := s.generation + 1, forceRearm := s.forceRearm || force)
    case Spawn(t) =>
      s.(threads := s.threads[t := CLEAR], seen := s.seen + {t},
         reused := if t in s.seen then s.reused + {t} else s.reused)
    case Exit(t) => s.(threads := s.threads - {t})
    case TakeForce(elapsed) => s.(sweeper := Starting(s.forceRearm || elapsed), forceRearm := false)
    case ArmNow => s.(sweeper := Starting(true))
    case ReadGeneration => s.(sweeper := Snapping(s.generation, s.sweeper.open, []))
    case ReadTableSlot =>
      s.(sweeper := s.sweeper.(partial := s.sweeper.partial + [SnapAddress(s.table[|s.sweeper.partial|])]))
    case TearTableSlot => s.(sweeper := s.sweeper.(partial := s.sweeper.partial + [0]))
    case EndSnapshot =>
      s.(sweeper := Arming(s.sweeper.gen, s.sweeper.open, s.sweeper.partial),
         everProgrammed := s.everProgrammed || exists k :: 0 <= k < SLOTS && s.sweeper.partial[k] != 0)
    case AddEntry(t) => s.(entries := s.entries + [Entry(t, 0, {}, [0, 0, 0, 0])])
    case OpenFailed(t) => UpdateEntry(s, t, s.entries[FindThread(s.entries, t)].(generation := 0))
    case RecordArms(t) =>
      UpdateEntry(s, t, Recording(s.entries[FindThread(s.entries, t)], s.sweeper.snap))
      .(sweeper := Recorded(s.sweeper.gen, s.sweeper.open, s.sweeper.snap, t))
    case ArmSucceeds =>
      var Recorded(gen, open, snap, t) := s.sweeper;
      s.(threads := s.threads[t := Registers(snap, BuildDr7(snap))], reused := s.reused - {t},
         sweeper := Wrote(gen, open, snap, t))
    case ArmFails => s.(sweeper := Arming(s.sweeper.gen, s.sweeper.open, s.sweeper.snap))
    case Stamp =>
      var Wrote(gen, open, snap, t) := s.sweeper;
      UpdateEntry(s, t, s.entries[FindThread(s.entries, t)].(generation := gen)).(sweeper := Arming(gen, open, snap))
    case EndSweep => s.(sweeper := Resting)
    case Trap(t, triggered, recorded) =>
      s.(threads := s.threads[t := s.threads[t].(dr7 := Dr7AfterTrap(s, t, triggered, recorded))],
         generation := s.generation + 1,
         forceRearm := s.forceRearm || AsksForSweep(s, t, triggered))
  }

  // ---------------------------------------------------------------- invariants

  function EntryOf(s: State, tid: Tid): Entry
    requires Tracked(s, tid)
  {
    s.entries[FindThread(s.entries, tid)]
  }

  predicate HasSnapshot(sw: Sweeper) {
    sw.Arming? || sw.Recorded? || sw.Wrote?
  }

  predicate HasGeneration(sw: Sweeper) {
    sw.Snapping? || HasSnapshot(sw)
  }

  predicate AtThread(sw: Sweeper) {
    sw.Recorded? || sw.Wrote?
  }

  function Seen(sw: Sweeper): seq<Address>
    requires HasGeneration(sw)
  {
    if sw.Snapping? then sw.partial else sw.snap
  }

  ghost predicate Sane(s: State) {
    && |s.table| == SLOTS
    && (forall k: Slot :: s.table[k].busy <==> k in s.writing)
    && 1 <= s.generation
    && s.threads.Keys <= s.seen
    && (forall i :: 0 <= i < |s.entries| ==> s.entries[i].tid in s.seen && s.entries[i].generation <= s.generation)
    && (HasGeneration(s.sweeper) ==>
          && 1 <= s.sweeper.gen <= s.generation
          && |Seen(s.sweeper)| <= SLOTS
          && (forall i :: 0 <= i < |s.entries| ==> s.entries[i].generation <= s.sweeper.gen))
    && (AtThread(s.sweeper) ==> Tracked(s, s.sweeper.tid) && EntryOf(s, s.sweeper.tid).generation != s.sweeper.gen)
  }

  /** Every watch in hardware has been recorded first: the process-wide flag and the
      thread's own mask cover it. */
  ghost predicate Covered(s: State, t: Tid, k: Slot)
    requires t in s.threads
  {
    SlotEnabled(s.threads[t].dr7, k) ==>
      && s.threads[t].dr[k] != 0 && s.everProgrammed
      && Tracked(s, t) && k in EntryOf(s, t).everArmed
  }

  ghost predicate SnapshotCovered(s: State) {
    && (HasSnapshot(s.sweeper) ==> forall k: Slot :: s.sweeper.snap[k] != 0 ==> s.everProgrammed)
    && (AtThread(s.sweeper) ==>
          && Tracked(s, s.sweeper.tid)
          && forall k: Slot :: s.sweeper.snap[k] != 0 ==>
               k in EntryOf(s, s.sweeper.tid).everArmed && EntryOf(s, s.sweeper.tid).arms[k] == s.sweeper.snap[k])
  }

  ghost predicate AllCovered(s: State) {
    && SnapshotCovered(s)
    && forall t, k: Slot :: t in s.threads ==> Covered(s, t, k)
  }

  /** Thread `t` watches nothing in DR `k` but `address`; and, when `exact`, does watch it. */
  predicate Watches(r: Registers, k: Slot, address: Address, exact: bool) {
    && (SlotEnabled(r.dr7, k) ==> r.dr[k] == address && address != 0)
    && (exact && address != 0 ==> SlotEnabled(r.dr7, k) && r.dr[k] == address)
  }

  /** While the generation the sweeper read is still current and no change awaits its bump,
      what it has read of the table is still what the table holds. */
  ghost predicate SnapshotCurrent(s: State)
    requires |s.table| == SLOTS
  {
    HasGeneration(s.sweeper) && s.sweeper.gen == s.generation && s.unbumped == {} ==>
      forall k: Slot :: k < |Seen(s.sweeper)| && k !in s.writing ==> Seen(s.sweeper)[k] == SnapAddress(s.table[k])
  }

  /** The thread the sweeper has just armed holds the sweeper's set, less what its own traps
      have cleared since. */
  ghost predicate WroteSnapshot(s: State) {
    s.sweeper.Wrote? && s.sweeper.tid in s.threads ==>
      forall k: Slot ::
        Watches(s.threads[s.sweeper.tid], k, s.sweeper.snap[k],
                s.sweeper.gen == s.generation && s.sweeper.tid !in s.reused)
  }

  /** An entry stamped with the current generation belongs to a thread that watches the
      current table. */
  ghost predicate EntryCurrent(s: State, t: Tid, k: Slot)
    requires |s.table| == SLOTS && t in s.threads && Tracked(s, t)
  {
    EntryOf(s, t).generation == s.generation && s.unbumped == {} && k !in s.writing ==>
      Watches(s.threads[t], k, SnapAddress(s.table[k]), t !in s.reused)
  }

  ghost predicate AllCurrent(s: State)
    requires |s.table| == SLOTS
  {
    && SnapshotCurrent(s)
    && WroteSnapshot(s)
    && forall t, k: Slot :: t in s.threads && Tracked(s, t) ==> EntryCurrent(s, t, k)
  }

  ghost predicate Inv(s: State) {
    Sane(s) && AllCovered(s) && AllCurrent(s)
  }

  ghost predicate Init(s: State) {
    && |s.table| == SLOTS && (forall k: Slot :: !s.table[k].busy)
    && s.writing == map[] && s.unbumped == {}
    && s.threads.Keys <= s.seen && (forall t :: t in s.threads ==> s.threads[t].dr7 == 0)
    && s.entries == [] && s.generation == 1 && !s.everProgrammed && s.sweeper.Resting?
  }

  // ---------------------------------------------------------------- preservation

  lemma {:induction false} FindAfterUpdate(entries: seq<Entry>, i: nat, e: Entry, tid: Tid)
    requires i < |entries| && e.tid == entries[i].tid
    ensures FindThread(entries[i := e], tid) == FindThread(entries, tid)
  {
    if entries[0].tid != tid && 0 < i {
      FindAfterUpdate(entries[1..], i - 1, e, tid);
      assert entries[i := e][1..] == entries[1..][i - 1 := e];
    } else if entries[0].tid != tid {
      assert entries[i := e][1..] == entries[1..];
    }
  }

  lemma {:induction false} FindAfterAppend(entries: seq<Entry>, e: Entry, tid: Tid)
    ensures FindThread(entries, tid) < |entries| ==> FindThread(entries + [e], tid) == FindThread(entries, tid)
    ensures FindThread(entries, tid) == |entries| ==>
              FindThread(entries + [e], tid) == |entries| + if e.tid == tid then 0 else 1
  {
    if entries != [] && entries[0].tid != tid {
      FindAfterAppend(entries[1..], e, tid);
      assert (entries + [e])[1..] == entries[1..] + [e];
    } else if entries == [] {
      assert (entries + [e])[1..] == [];
    }
  }

  /** DR7 after a trap: the slots that were enabled, less those the handler stopped. */
  lemma TrapClearsStopped(s: State, t: Tid, triggered: set<Slot>, recorded: set<Slot>, k: Slot)
    requires |s.table| == SLOTS && t in s.threads
    ensures SlotEnabled(Dr7AfterTrap(s, t, triggered, recorded), k)
       <==> SlotEnabled(s.threads[t].dr7, k) && !Stops(s, t, triggered, recorded, k)
  {
    var stopped := set i: Slot | i in triggered && Stops(s, t, triggered, recorded, i);
    ClearSlotsClearsExactly(s.threads[t].dr7, stopped, SLOTS, k);
  }

  lemma TableStepKeepsInv(s: State, step: Step)
    requires Inv(s) && Enabled(s, step)
    requires step.BeginChange? || step.Publish? || step.Bump?
    ensures Inv(Apply(s, step))
  {
    var s' := Apply(s, step);
    assert s'.entries == s.entries && s'.threads == s.threads && s'.sweeper == s.sweeper;
    forall t, k: Slot | t in s'.threads
      ensures Covered(s', t, k)
    {
      assert Covered(s, t, k);
    }
    forall t, k: Slot | t in s'.threads && Tracked(s', t)
      ensures EntryCurrent(s', t, k)
    {
      assert EntryCurrent(s, t, k);
    }
  }

  lemma ThreadStepKeepsInv(s: State, step: Step)
    requires Inv(s) && Enabled(s, step)
    requires step.Spawn? || step.Exit?
    ensures Inv(Apply(s, step))
  {
    var s' := Apply(s, step);
    assert s'.entries == s.entries && s'.sweeper == s.sweeper && s'.table == s.table;
    forall t, k: Slot | t in s'.threads
      ensures Covered(s', t, k)
    {
      if t in s.threads {
        assert Covered(s, t, k);
      }
    }
    forall t, k: Slot | t in s'.threads && Tracked(s', t)
      ensures EntryCurrent(s', t, k)
    {
      if t in s.threads {
        assert EntryCurrent(s, t, k);
      }
    }
  }

  /** A sweeper that only moves on, touching neither threads nor entries nor the table. */
  lemma SweeperMoves(s: State, sweeper: Sweeper, everProgrammed: bool, force: bool)
    requires Inv(s) && (s.everProgrammed ==> everProgrammed)
    requires !AtThread(sweeper)
    requires HasGeneration(sweeper) ==>
               && 1 <= sweeper.gen <= s.generation && |Seen(sweeper)| <= SLOTS
               && (forall i :: 0 <= i < |s.entries| ==> s.entries[i].generation <= sweeper.gen)
    requires HasSnapshot(sweeper) ==> forall k: Slot :: sweeper.snap[k] != 0 ==> everProgrammed
    requires SnapshotCurrent(s.(sweeper := sweeper))
    ensures Inv(s.(sweeper := sweeper, everProgrammed := everProgrammed, forceRearm := force))
  {
    var s' := s.(sweeper := sweeper, everProgrammed := everProgrammed, forceRearm := force);
    forall t, k: Slot | t in s'.threads
      ensures Covered(s', t, k)
    {
      assert Covered(s, t, k);
    }
    forall t, k: Slot | t in s'.threads && Tracked(s', t)
      ensures EntryCurrent(s', t, k)
    {
      assert EntryCurrent(s, t, k);
    }
  }

  lemma SweeperStepKeepsInv(s: State, step: Step)
    requires Inv(s) && Enabled(s, step)
    requires step.TakeForce? || step.ArmNow? || step.ReadGeneration? || step.ReadTableSlot?
             || step.TearTableSlot? || step.EndSnapshot? || step.ArmFails? || step.EndSweep?
    ensures Inv(Apply(s, step))
  {
    var s' := Apply(s, step);
    SweeperMoves(s, s'.sweeper, s'.everProgrammed, s'.forceRearm);
  }

  /** Replacing the entry of thread `t` by one that remembers at least as much, and that is
      stamped with an old generation or with one its thread lives up to. */
  lemma EntryReplaced(s: State, t: Tid, e: Entry, sweeper: Sweeper)
    requires Inv(s) && Tracked(s, t) && e.tid == t && EntryOf(s, t).everArmed <= e.everArmed
    requires HasSnapshot(s.sweeper) && HasSnapshot(sweeper) && !sweeper.Wrote?
    requires sweeper.gen == s.sweeper.gen && sweeper.snap == s.sweeper.snap
    requires AtThread(sweeper) ==>
               && sweeper.tid == t && e.generation != sweeper.gen
               && forall k: Slot :: sweeper.snap[k] != 0 ==> k in e.everArmed && e.arms[k] == sweeper.snap[k]
    requires e.generation <= s.sweeper.gen
    requires t in s.threads && e.generation == s.generation && s.unbumped == {} ==>
               forall k: Slot :: k !in s.writing ==> Watches(s.threads[t], k, SnapAddress(s.table[k]), t !in s.reused)
    ensures Inv(UpdateEntry(s, t, e).(sweeper := sweeper))
  {
    var s' := UpdateEntry(s, t, e).(sweeper := sweeper);
    var i := FindThread(s.entries, t);
    forall u
      ensures FindThread(s'.entries, u) == FindThread(s.entries, u)
      ensures Tracked(s', u) ==> EntryOf(s', u) == if u == t then e else EntryOf(s, u)
    {
      FindAfterUpdate(s.entries, i, e, u);
    }
    forall u, k: Slot | u in s'.threads
      ensures Covered(s', u, k)
    {
      assert Covered(s, u, k);
    }
    forall u, k: Slot | u in s'.threads && Tracked(s', u)
      ensures EntryCurrent(s', u, k)
    {
      assert EntryCurrent(s, u, k);
    }
  }

  lemma EntryStepKeepsInv(s: State, step: Step)
    requires Inv(s) && Enabled(s, step)
    requires step.OpenFailed? || step.RecordArms? || step.Stamp?
    ensures Inv(Apply(s, step))
  {
    match step {
      case OpenFailed(t) =>
        EntryReplaced(s, t, EntryOf(s, t).(generation := 0), s.sweeper);
      case RecordArms(t) =>
        var Arming(gen, open, snap) := s.sweeper;
        EntryReplaced(s, t, Recording(EntryOf(s, t), snap), Recorded(gen, open, snap, t));
      case Stamp =>
        var Wrote(gen, open, snap, t) := s.sweeper;
        EntryReplaced(s, t, EntryOf(s, t).(generation := gen), Arming(gen, open, snap));
    }
  }

  lemma AddEntryKeepsInv(s: State, t: Tid)
    requires Inv(s) && Enabled(s, AddEntry(t))
    ensures Inv(Apply(s, AddEntry(t)))
  {
    var s' := Apply(s, AddEntry(t));
    forall u
      ensures Tracked(s, u) ==> Tracked(s', u) && EntryOf(s', u) == EntryOf(s, u)
      ensures Tracked(s', u) && !Tracked(s, u) ==> u == t && EntryOf(s', u).generation == 0
    {
      FindAfterAppend(s.entries, Entry(t, 0, {}, [0, 0, 0, 0]), u);
    }
    forall u, k: Slot | u in s'.threads
      ensures Covered(s', u, k)
    {
      assert Covered(s, u, k);
    }
    forall u, k: Slot | u in s'.threads && Tracked(s', u)
      ensures EntryCurrent(s', u, k)
    {
      if Tracked(s, u) {
        assert EntryCurrent(s, u, k);
      }
    }
  }

  lemma ArmKeepsInv(s: State)
    requires Inv(s) && Enabled(s, ArmSucceeds)
    ensures Inv(Apply(s, ArmSucceeds))
  {
    var s' := Apply(s, ArmSucceeds);
    var Recorded(gen, open, snap, t) := s.sweeper;
    forall k: Slot
      ensures SlotEnabled(BuildDr7(snap), k) <==> snap[k] != 0
    {
      Dr7EnablesExactlyTheWatches(snap, k);
    }
    forall u, k: Slot | u in s'.threads
      ensures Covered(s', u, k)
    {
      assert u in s.threads && Covered(s, u, k);
    }
    forall u, k: Slot | u in s'.threads && Tracked(s', u)
      ensures EntryCurrent(s', u, k)
    {
      assert EntryCurrent(s, u, k);
    }
  }

  lemma TrapKeepsInv(s: State, t: Tid, triggered: set<Slot>, recorded: set<Slot>)
    requires Inv(s) && Enabled(s, Trap(t, triggered, recorded))
    ensures Inv(Apply(s, Trap(t, triggered, recorded)))
  {
    var s' := Apply(s, Trap(t, triggered, recorded));
    forall k: Slot
      ensures SlotEnabled(s'.threads[t].dr7, k) ==> SlotEnabled(s.threads[t].dr7, k)
    {
      TrapClearsStopped(s, t, triggered, recorded, k);
    }
    forall u, k: Slot | u in s'.threads
      ensures Covered(s', u, k)
    {
      assert Covered(s, u, k);
    }
    if s.sweeper.Wrote? && s.sweeper.tid in s.threads {
      forall k: Slot
        ensures Watches(s'.threads[s.sweeper.tid], k, s.sweeper.snap[k], false)
      {
        assert Watches(s.threads[s.sweeper.tid], k, s.sweeper.snap[k],
                       s.sweeper.gen == s.generation && s.sweeper.tid !in s.reused);
      }
    }
  }

  lemma StepKeepsInv(s: State, step: Step)
    requires Inv(s) && Enabled(s, step)
    ensures Inv(Apply(s, step))
  {
    if step.BeginChange? || step.Publish? || step.Bump? {
      TableStepKeepsInv(s, step);
    } else if step.Spawn? || step.Exit? {
      ThreadStepKeepsInv(s, step);
    } else if step.OpenFailed? || step.RecordArms? || step.Stamp? {
      EntryStepKeepsInv(s, step);
    } else if step.AddEntry? {
      AddEntryKeepsInv(s, step.tid);
    } else if step.ArmSucceeds? {
      ArmKeepsInv(s);
    } else if step.Trap? {
      TrapKeepsInv(s, step.tid, step.triggered, step.recorded);
    } else {
      SweeperStepKeepsInv(s, step);
    }
  }

  lemma NothingEnabledWhenClear(dr7: bv64, k: Slot)
    requires dr7 == 0
    ensures !SlotEnabled(dr7, k)
  {
  }

  lemma InitEstablishesInv(s: State)
    requires Init(s)
    ensures Inv(s)
  {
    forall t, k: Slot | t in s.threads
      ensures Covered(s, t, k)
    {
      NothingEnabledWhenClear(s.threads[t].dr7, k);
    }
  }

  // ---------------------------------------------------------------- runs

  ghost predicate IsRun(states: seq<State>, steps: seq<Step>) {
    && |states| == |steps| + 1
    && Init(states[0])
    && forall i :: 0 <= i < |steps| ==> Enabled(states[i], steps[i]) && states[i + 1] == Apply(states[i], steps[i])
  }

  lemma {:induction false} RunKeepsInv(states: seq<State>, steps: seq<Step>, i: nat)
    requires IsRun(states, steps) && i < |states|
    ensures Inv(states[i])
  {
    if 0 < i {
      RunKeepsInv(states, steps, i - 1);
      StepKeepsInv(states[i - 1], steps[i - 1]);
    } else {
      InitEstablishesInv(states[0]);
    }
  }

  /** Whenever no table change is in progress or awaiting its bump, a tracked thread stamped
      with the current generation watches nothing but the current table, and watches exactly
      the armable part of it unless its id was handed out again and not armed since. */
  lemma StampedThreadsMatchTheTable(states: seq<State>, steps: seq<Step>, i: nat, t: Tid, k: Slot)
    requires IsRun(states, steps) && i < |states|
    requires Quiet(states[i]) && t in states[i].threads && Tracked(states[i], t)
    requires EntryOf(states[i], t).generation == states[i].generation
    ensures |states[i].table| == SLOTS
    ensures var r, armed := states[i].threads[t], states[i].table[k];
            && (SlotEnabled(r.dr7, k) ==> armed.Armable() && r.dr[k] == armed.address)
            && (t !in states[i].reused && armed.Armable() ==> SlotEnabled(r.dr7, k))
  {
    RunKeepsInv(states, steps, i);
    assert EntryCurrent(states[i], t, k);
  }

  /** Survival: whatever the table has moved on to, a debug register that is enabled on any
      thread was recorded before it was written, so its trap is consumed and is attributed
      to this process. */
  lemma EveryArmedTrapIsOurs(states: seq<State>, steps: seq<Step>, i: nat, t: Tid, k: Slot)
    requires IsRun(states, steps) && i < |states|
    requires t in states[i].threads && SlotEnabled(states[i].threads[t].dr7, k)
    ensures |states[i].table| == SLOTS
    ensures states[i].everProgrammed
    ensures Tracked(states[i], t) && k in EntryOf(states[i], t).everArmed
    ensures OwnerOf(states[i], t, k).IsOurs()
  {
    RunKeepsInv(states, steps, i);
    assert Covered(states[i], t, k);
  }

  /** The table still has the block that DR `k` of thread `t` watches. */
  predicate StillInTable(s: State, t: Tid, k: Slot)
    requires |s.table| == SLOTS && t in s.threads
  {
    !s.table[k].busy && s.table[k].address == s.threads[t].dr[k]
  }

  /** Of the enabled watches of the trapping thread, a trap stops exactly those that triggered
      and are recorded or no longer in the table. */
  lemma TrapClearsExactly(s: State, t: Tid, triggered: set<Slot>, recorded: set<Slot>, k: Slot)
    requires Inv(s) && t in s.threads
    ensures SlotEnabled(Dr7AfterTrap(s, t, triggered, recorded), k)
       <==> SlotEnabled(s.threads[t].dr7, k) && (k !in triggered || (k !in recorded && StillInTable(s, t, k)))
  {
    assert Covered(s, t, k);
    TrapClearsStopped(s, t, triggered, recorded, k);
  }

  /** It asks for a forced sweep exactly when some enabled watch that triggered is no longer in
      the table, or is there as released. */
  lemma TrapAsksExactly(s: State, t: Tid, triggered: set<Slot>)
    requires Inv(s) && t in s.threads
    ensures AsksForSweep(s, t, triggered)
       <==> exists k: Slot :: k in triggered && SlotEnabled(s.threads[t].dr7, k)
                              && (!StillInTable(s, t, k) || s.table[k].released)
  {
    forall k: Slot | k in triggered
      ensures OwnerOf(s, t, k).IsStale() || OwnerOf(s, t, k).TableReleased?
         <==> SlotEnabled(s.threads[t].dr7, k) && (!StillInTable(s, t, k) || s.table[k].released)
    {
      assert Covered(s, t, k);
    }
  }

  /** A trap keeps the benign watches of its own thread, stops the triggered ones that are
      recorded or left behind by the table, and touches no other thread and no address; it always
      makes the entry out of date, so the next sweep looks at the thread again, and asks for a
      forced sweep when some thread may still watch a block that is gone. */
  lemma TrapEffect(states: seq<State>, steps: seq<Step>, i: nat, u: Tid, k: Slot)
    requires IsRun(states, steps) && i < |steps| && steps[i].Trap? && u in states[i].threads
    ensures |states[i].table| == SLOTS && u in states[i + 1].threads && steps[i].tid in states[i].threads
    ensures var s, s', t, triggered := states[i], states[i + 1], steps[i].tid, steps[i].triggered;
            && s'.threads[u].dr == s.threads[u].dr
            && (SlotEnabled(s'.threads[u].dr7, k) <==>
                  && SlotEnabled(s.threads[u].dr7, k)
                  && (u != t || k !in triggered || (k !in steps[i].recorded && StillInTable(s, t, k))))
            && (s'.forceRearm <==>
                  || s.forceRearm
                  || exists j: Slot :: j in triggered && SlotEnabled(s.threads[t].dr7, j)
                                       && (!StillInTable(s, t, j) || s.table[j].released))
    ensures Tracked(states[i + 1], u) ==> EntryOf(states[i + 1], u).generation != states[i + 1].generation
  {
    RunKeepsInv(states, steps, i);
    TrapClearsExactly(states[i], steps[i].tid, steps[i].triggered, steps[i].recorded, k);
    TrapAsksExactly(states[i], steps[i].tid, steps[i].triggered);
  }

  /** A successful arm puts the sweeper's copy into the registers of its thread, slot by slot,
      and every watch it enables has its address on record already: should the table move on, a
      trap of it is known for what it is. */
  lemma ArmFollowsItsRecord(states: seq<State>, steps: seq<Step>, i: nat, k: Slot)
    requires IsRun(states, steps) && i < |steps| && steps[i].ArmSucceeds?
    ensures |states[i + 1].table| == SLOTS && states[i].sweeper.Recorded?
    ensures var s', t, address := states[i + 1], states[i].sweeper.tid, states[i].sweeper.snap[k];
            && t in s'.threads && s'.threads[t].dr[k] == address
            && (SlotEnabled(s'.threads[t].dr7, k) <==> address != 0)
            && (address != 0 ==>
                  && Tracked(s', t) && k in EntryOf(s', t).everArmed && EntryOf(s', t).arms[k] == address
                  && (OwnerOf(s', t, k).StaleThreadArm? <==> !StillInTable(s', t, k)))
  {
    RunKeepsInv(states, steps, i);
    Dr7EnablesExactlyTheWatches(states[i].sweeper.snap, k);
  }
}
