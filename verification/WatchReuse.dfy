/** A concrete run of the arming protocol on which a thread is stamped as up to date and is
    not: its id was handed out again after the stamp. WatchRuns.StampIsExactIffArmedSinceSpawn
    says that this is the only way. */
module WatchReuse {
  import opened WatchEncoding
  import opened WatchSlots
  import opened WatchProtocol

  const TID: Tid := 7
  const BLOCK: WatchSlot := WatchSlot(false, 64, 0, 0, 0, 0, 0, 0, 1, 7, true, false, false)

  /** One thread, an empty table, nothing armed. */
  function Beginning(): State {
    State([EMPTY_SLOT, EMPTY_SLOT, EMPTY_SLOT, EMPTY_SLOT], map[], {}, map[TID := CLEAR], {TID}, {}, [], 4, 1,
          false, false, Resting)
  }

  /** The same with one watch in the table, before the sweep that arms it. */
  function Watching(): State {
    Beginning().(table := [BLOCK, EMPTY_SLOT, EMPTY_SLOT, EMPTY_SLOT], generation := 2, forceRearm := true)
  }

  /** The sweep has copied the table. */
  function Copied(): State {
    Watching().(forceRearm := false, everProgrammed := true, sweeper := Arming(2, true, [64, 0, 0, 0]))
  }

  /** The sweep has armed and stamped the thread. */
  function Stamped(): State {
    Copied().(sweeper := Resting,
              threads := map[TID := Registers([64, 0, 0, 0], BuildDr7([64, 0, 0, 0]))],
              entries := [Entry(TID, 2, {0}, [64, 0, 0, 0])])
  }

  /** The thread has exited and a new one has got its id. */
  function Reissued(): State {
    Stamped().(threads := map[TID := CLEAR], reused := {TID})
  }

  /** `steps` lead from `s` to `end`. */
  ghost predicate Leads(s: State, steps: seq<Step>, end: State)
    decreases |steps|
  {
    if steps == [] then s == end
    else Enabled(s, steps[0]) && Leads(Apply(s, steps[0]), steps[1..], end)
  }

  lemma {:induction false} LeadsOn(s: State, a: seq<Step>, middle: State, b: seq<Step>, end: State)
    requires Leads(s, a, middle) && Leads(middle, b, end)
    ensures Leads(s, a + b, end)
    decreases |a|
  {
    if a == [] {
      assert a + b == b;
    } else {
      LeadsOn(Apply(s, a[0]), a[1..], middle, b, end);
      assert (a + b)[1..] == a[1..] + b;
    }
  }

  lemma {:induction false} RunOf(states: seq<State>, taken: seq<Step>, steps: seq<Step>, end: State)
    returns (all: seq<State>)
    requires IsRun(states, taken) && Leads(states[|taken|], steps, end)
    ensures IsRun(all, taken + steps) && all[|taken + steps|] == end
    decreases |steps|
  {
    if steps == [] {
      assert taken + steps == taken;
      all := states;
    } else {
      var next := Apply(states[|taken|], steps[0]);
      assert IsRun(states + [next], taken + [steps[0]]);
      all := RunOf(states + [next], taken + [steps[0]], steps[1..], end);
      assert taken + [steps[0]] + steps[1..] == taken + steps;
    }
  }

  lemma LeadsOne(s: State, step: Step, end: State)
    requires Enabled(s, step) && Apply(s, step) == end
    ensures Leads(s, [step], end)
  {
    assert [step][1..] == [];
  }

  lemma WatchIsClaimed()
    ensures Leads(Beginning(), [BeginChange(1, 0)] + [Publish(0, BLOCK)] + [Bump(1, true)], Watching())
  {
    var s := Beginning();
    var s1 := s.(table := s.table[0 := EMPTY_SLOT.(busy := true)], writing := map[0 := 1]);
    var s2 := s.(table := s.table[0 := BLOCK], unbumped := {1});
    LeadsOne(s, BeginChange(1, 0), s1);
    assert s1.writing - {0} == map[];
    assert Apply(s1, Publish(0, BLOCK)) == s2;
    LeadsOne(s1, Publish(0, BLOCK), s2);
    LeadsOne(s2, Bump(1, true), Watching());
    LeadsOn(s, [BeginChange(1, 0)], s1, [Publish(0, BLOCK)], s2);
    LeadsOn(s, [BeginChange(1, 0)] + [Publish(0, BLOCK)], s2, [Bump(1, true)], Watching());
  }

  lemma SlotIsRead(s: State, partial: seq<Address>, address: Address)
    requires |s.table| == SLOTS && |partial| < SLOTS && SnapAddress(s.table[|partial|]) == address
    ensures Leads(s.(sweeper := Snapping(2, true, partial)), [ReadTableSlot],
                  s.(sweeper := Snapping(2, true, partial + [address])))
  {
    LeadsOne(s.(sweeper := Snapping(2, true, partial)), ReadTableSlot,
             s.(sweeper := Snapping(2, true, partial + [address])));
  }

  /** Four reads, one slot after the other. */
  lemma FourReads(s: State)
    requires s.table == Watching().table
    ensures Leads(s.(sweeper := Snapping(2, true, [])),
                  [ReadTableSlot] + [ReadTableSlot] + [ReadTableSlot] + [ReadTableSlot],
                  s.(sweeper := Snapping(2, true, [64, 0, 0, 0])))
  {
    var start := s.(sweeper := Snapping(2, true, []));
    SlotIsRead(s, [], 64);
    SlotIsRead(s, [64], 0);
    SlotIsRead(s, [64, 0], 0);
    SlotIsRead(s, [64, 0, 0], 0);
    assert [] + [64] == [64] && [64] + [0] == [64, 0];
    assert [64, 0] + [0] == [64, 0, 0] && [64, 0, 0] + [0] == [64, 0, 0, 0];
    var one := [ReadTableSlot];
    var two := one + [ReadTableSlot];
    var three := two + [ReadTableSlot];
    LeadsOn(start, one, s.(sweeper := Snapping(2, true, [64])), one, s.(sweeper := Snapping(2, true, [64, 0])));
    LeadsOn(start, two, s.(sweeper := Snapping(2, true, [64, 0])), one, s.(sweeper := Snapping(2, true, [64, 0, 0])));
    LeadsOn(start, three, s.(sweeper := Snapping(2, true, [64, 0, 0])), one,
            s.(sweeper := Snapping(2, true, [64, 0, 0, 0])));
  }

  function ReadSteps(): seq<Step> {
    [ReadTableSlot] + [ReadTableSlot] + [ReadTableSlot] + [ReadTableSlot]
  }

  function CopySteps(): seq<Step> {
    [TakeForce(false)] + [ReadGeneration] + ReadSteps() + [EndSnapshot]
  }

  lemma TableIsCopied()
    ensures Leads(Watching(), CopySteps(), Copied())
  {
    var s := Watching().(forceRearm := false);
    var s0 := s.(sweeper := Starting(true));
    var s1 := s.(sweeper := Snapping(2, true, []));
    var s5 := s.(sweeper := Snapping(2, true, [64, 0, 0, 0]));
    LeadsOne(Watching(), TakeForce(false), s0);
    LeadsOne(s0, ReadGeneration, s1);
    FourReads(s);
    assert s5.sweeper.partial[0] != 0;
    LeadsOne(s5, EndSnapshot, Copied());
    LeadsOn(Watching(), [TakeForce(false)], s0, [ReadGeneration], s1);
    LeadsOn(Watching(), [TakeForce(false)] + [ReadGeneration], s1, ReadSteps(), s5);
    LeadsOn(Watching(), [TakeForce(false)] + [ReadGeneration] + ReadSteps(), s5, [EndSnapshot], Copied());
  }

  /** The sweep has the thread's entry and its arm record, and has not touched the hardware. */
  function Recording64(): State {
    Copied().(entries := [Entry(TID, 0, {0}, [64, 0, 0, 0])], sweeper := Recorded(2, true, [64, 0, 0, 0], TID))
  }

  lemma ArmIsRecorded()
    ensures Leads(Copied(), [AddEntry(TID)] + [RecordArms(TID)], Recording64())
  {
    var fresh64 := Entry(TID, 0, {}, [0, 0, 0, 0]);
    var s1 := Copied().(entries := [fresh64]);
    LeadsOne(Copied(), AddEntry(TID), s1);
    assert Recording(fresh64, [64, 0, 0, 0]) == Entry(TID, 0, {0}, [64, 0, 0, 0]);
    LeadsOne(s1, RecordArms(TID), Recording64());
    LeadsOn(Copied(), [AddEntry(TID)], s1, [RecordArms(TID)], Recording64());
  }

  lemma ThreadIsStamped()
    ensures Leads(Recording64(), [ArmSucceeds] + [Stamp] + [EndSweep], Stamped())
  {
    var snap: Addresses := [64, 0, 0, 0];
    var s3 := Recording64().(threads := map[TID := Registers(snap, BuildDr7(snap))],
                             sweeper := Wrote(2, true, snap, TID));
    var s4 := s3.(entries := [Entry(TID, 2, {0}, snap)], sweeper := Arming(2, true, snap));
    LeadsOne(Recording64(), ArmSucceeds, s3);
    LeadsOne(s3, Stamp, s4);
    LeadsOne(s4, EndSweep, Stamped());
    LeadsOn(Recording64(), [ArmSucceeds], s3, [Stamp], s4);
    LeadsOn(Recording64(), [ArmSucceeds] + [Stamp], s4, [EndSweep], Stamped());
  }

  lemma IdIsReissued()
    ensures Leads(Stamped(), [Exit(TID)] + [Spawn(TID)], Reissued())
  {
    var s1 := Stamped().(threads := map[]);
    LeadsOne(Stamped(), Exit(TID), s1);
    LeadsOne(s1, Spawn(TID), Reissued());
    LeadsOn(Stamped(), [Exit(TID)], s1, [Spawn(TID)], Reissued());
  }

  function ClaimSteps(): seq<Step> {
    [BeginChange(1, 0)] + [Publish(0, BLOCK)] + [Bump(1, true)]
  }

  function ArmSteps(): seq<Step> {
    [AddEntry(TID)] + [RecordArms(TID)] + ([ArmSucceeds] + [Stamp] + [EndSweep])
  }

  function AllSteps(): seq<Step> {
    ClaimSteps() + CopySteps() + ArmSteps() + ([Exit(TID)] + [Spawn(TID)])
  }

  lemma ReissuedIsReached()
    ensures Leads(Beginning(), AllSteps(), Reissued())
  {
    WatchIsClaimed();
    TableIsCopied();
    ArmIsRecorded();
    ThreadIsStamped();
    IdIsReissued();
    LeadsOn(Copied(), [AddEntry(TID)] + [RecordArms(TID)], Recording64(),
            [ArmSucceeds] + [Stamp] + [EndSweep], Stamped());
    LeadsOn(Beginning(), ClaimSteps(), Watching(), CopySteps(), Copied());
    LeadsOn(Beginning(), ClaimSteps() + CopySteps(), Copied(), ArmSteps(), Stamped());
    LeadsOn(Beginning(), ClaimSteps() + CopySteps() + ArmSteps(), Stamped(), [Exit(TID)] + [Spawn(TID)], Reissued());
  }

  lemma RunFrom(s: State, steps: seq<Step>, end: State) returns (states: seq<State>)
    requires Init(s) && Leads(s, steps, end)
    ensures IsRun(states, steps) && states[|steps|] == end
  {
    assert [] + steps == steps;
    states := RunOf([s], [], steps, end);
  }

  /** Thread TID is stamped, slot 0 is armable, no change is pending, and TID does not watch it. */
  ghost predicate StampedAndBare(s: State) {
    && Quiet(s) && TID in s.threads && TID in s.reused
    && Tracked(s, TID) && EntryOf(s, TID).generation == s.generation
    && |s.table| == SLOTS && s.table[0].Armable() && !SlotEnabled(s.threads[TID].dr7, 0)
  }

  lemma EndsOfTheRun()
    ensures Init(Beginning()) && StampedAndBare(Reissued())
  {
    NothingEnabledWhenClear(CLEAR.dr7, 0);
  }

  /** The exact half of the stamp's meaning fails when an id is handed out again before the
      next arm: this run gets there. */
  lemma ReusedIdKeepsItsStamp() returns (states: seq<State>, steps: seq<Step>)
    ensures IsRun(states, steps) && StampedAndBare(states[|steps|])
  {
    EndsOfTheRun();
    ReissuedIsReached();
    steps := AllSteps();
    states := RunFrom(Beginning(), steps, Reissued());
  }
}
