/** Readers of the ledger that run while a writer is inside an entry (Claim, Publish and Find
    in src/Core/ShadowLedger.cpp), as a step system. Writers are taken one at a time; the
    reader's loads and the writer's stores of the key and of each field of the record are
    steps of their own, in any order the claim and the two version checks allow. */
module LedgerSeqlock {
  import opened Hashing
  import opened LedgerShard

  /** An AllocationInfo as its fifteen fields. */
  const FIELDS: nat := 15

  type Fields = f: seq<nat> | |f| == FIELDS witness seq(FIELDS, i => 0)

  datatype Cell = Cell(version: nat, key: Key, fields: Fields)

  /** What a writer does to the entry it has claimed. */
  datatype Change =
    | Store(ptr: Key, fields: Fields)   // InsertAtVictim: key and record
    | Update(fields: Fields)            // Insert on a key that is present: the record only
    | Remove                            // Erase: the key only

  datatype Writer =
    | Outside
    | Inside(cell: nat, change: Change, keyDone: bool, fieldsDone: set<nat>)

  datatype Outcome = Found(fields: Fields) | NotFound

  datatype Reader =
    | Probing                                               // between two entries
    | Versioned(cell: nat, v1: nat)                         // even version loaded
    | SawEmpty(cell: nat, v1: nat)                          // empty key loaded
    | Copying(cell: nat, v1: nat, copied: map<nat, nat>)    // key matched, copying the record
    | Returned(outcome: Outcome)

  /** One pointer being looked up, `probe` entries of its path behind. `published` lists, in
      order, what Inserts have stored. */
  datatype State = State(
    cells: seq<Cell>, hash: Hash, writer: Writer, reader: Reader, wanted: Key, probe: nat,
    published: seq<(Key, Fields)>)

  datatype Step =
    | ClaimCell(cell: nat, change: Change)
    | StoreKey
    | StoreField(j: nat)
    | PublishCell
    | LoadVersion
    | LoadKey
    | RecheckEmpty
    | LoadField(k: nat)
    | Recheck
    | GiveUp
    | Restart(ptr: Key)

  /** The entry the lookup has come to. */
  function Current(s: State): (i: nat)
    requires 0 < |s.cells|
    ensures i < |s.cells|
  {
    Probe(s.hash, s.wanted, s.probe, |s.cells|)
  }

  predicate Busy(version: nat) {
    version % 2 == 1
  }

  /** The key a change leaves behind in `c`. */
  function NewKey(c: Cell, change: Change): Key {
    match change
    case Store(ptr, _) => ptr
    case Update(_) => c.key
    case Remove => TOMBSTONE
  }

  ghost predicate Enabled(s: State, step: Step) {
    match step
    case ClaimCell(i, change) =>
      && s.writer.Outside? && i < |s.cells| && !Busy(s.cells[i].version)
      && (change.Store? ==> TOMBSTONE < change.ptr)
      && (change.Update? ==> TOMBSTONE < s.cells[i].key)
    case StoreKey => s.writer.Inside? && s.writer.cell < |s.cells| && !s.writer.keyDone
    case StoreField(j) =>
      && s.writer.Inside? && s.writer.cell < |s.cells| && !s.writer.change.Remove?
      && j < FIELDS && j !in s.writer.fieldsDone
    case PublishCell =>
      && s.writer.Inside? && s.writer.cell < |s.cells| && s.writer.keyDone
      && (s.writer.change.Remove? || forall j :: 0 <= j < FIELDS ==> j in s.writer.fieldsDone)
    case LoadVersion => s.reader.Probing? && s.probe < MAX_PROBE && 0 < |s.cells|
    case LoadKey => s.reader.Versioned? && s.reader.cell < |s.cells|
    case RecheckEmpty => s.reader.SawEmpty? && s.reader.cell < |s.cells|
    case LoadField(j) => s.reader.Copying? && s.reader.cell < |s.cells| && j < FIELDS && j !in s.reader.copied
    case Recheck =>
      && s.reader.Copying? && s.reader.cell < |s.cells|
      && forall j :: 0 <= j < FIELDS ==> j in s.reader.copied
    case GiveUp => s.reader.Probing? && s.probe == MAX_PROBE
    case Restart(ptr) => s.reader.Returned? && TOMBSTONE < ptr
  }

  function Copied(copied: map<nat, nat>): Fields
    requires forall j :: 0 <= j < FIELDS ==> j in copied
  {
    seq(FIELDS, j requires 0 <= j < FIELDS && j in copied => copied[j])
  }

  function WithCell(s: State, i: nat, c: Cell): State
    requires i < |s.cells|
  {
    s.(cells := s.cells[i := c])
  }

  function NextProbe(s: State): State {
    s.(reader := Probing, probe := s.probe + 1)
  }

  ghost function Apply(s: State, step: Step): State
    requires Enabled(s, step)
  {
    match step
    case ClaimCell(i, change) =>
      WithCell(s, i, s.cells[i].(version := s.cells[i].version + 1)).(writer := Inside(i, change, change.Update?, {}))
    case StoreKey =>
      var i := s.writer.cell;
      WithCell(s, i, s.cells[i].(key := NewKey(s.cells[i], s.writer.change))).(writer := s.writer.(keyDone := true))
    case StoreField(j) =>
      var i, c := s.writer.cell, s.cells[s.writer.cell];
      WithCell(s, i, c.(fields := c.fields[j := s.writer.change.fields[j]]))
      .(writer := s.writer.(fieldsDone := s.writer.fieldsDone + {j}))
    case PublishCell =>
      var i, c := s.writer.cell, s.cells[s.writer.cell];
      WithCell(s, i, c.(version := c.version + 1))
      .(writer := Outside,
        published := if s.writer.change.Remove? then s.published else s.published + [(c.key, s.writer.change.fields)])
    case LoadVersion =>
      var i := Current(s);
      var v1 := s.cells[i].version;
      if Busy(v1) then NextProbe(s) else s.(reader := Versioned(i, v1))
    case LoadKey =>
      var key := s.cells[s.reader.cell].key;
      if key == s.wanted then s.(reader := Copying(s.reader.cell, s.reader.v1, map[]))
      else if key == EMPTY then s.(reader := SawEmpty(s.reader.cell, s.reader.v1))
      else NextProbe(s)
    case RecheckEmpty =>
      if s.cells[s.reader.cell].version == s.reader.v1 then s.(reader := Returned(NotFound)) else NextProbe(s)
    case LoadField(j) =>
      s.(reader := s.reader.(copied := s.reader.copied[j := s.cells[s.reader.cell].fields[j]]))
    case Recheck =>
      s.(reader := Returned(
          if s.cells[s.reader.cell].version == s.reader.v1 then Found(Copied(s.reader.copied)) else NotFound))
    case GiveUp => s.(reader := Returned(NotFound))
    case Restart(ptr) => s.(wanted := ptr, reader := Probing, probe := 0)
  }

  // ---------------------------------------------------------------- invariant

  /** An entry no writer is inside of holds a record that an Insert has stored whole. */
  ghost predicate CellOk(s: State, i: nat)
    requires i < |s.cells|
  {
    var c := s.cells[i];
    if s.writer.Inside? && s.writer.cell == i then
      && Busy(c.version)
      && (s.writer.keyDone && s.writer.change.Store? ==> c.key == s.writer.change.ptr)
      && (s.writer.keyDone && s.writer.change.Remove? ==> c.key == TOMBSTONE)
      && (s.writer.change.Update? ==> s.writer.keyDone)
      && (!s.writer.change.Remove? ==>
            forall j :: j in s.writer.fieldsDone && j < FIELDS ==> c.fields[j] == s.writer.change.fields[j])
    else
      !Busy(c.version) && (TOMBSTONE < c.key ==> (c.key, c.fields) in s.published)
  }

  ghost predicate ReaderOk(s: State) {
    && (s.reader.Versioned? || s.reader.SawEmpty? || s.reader.Copying? ==>
          && s.probe < MAX_PROBE && 0 < |s.cells| && s.reader.cell == Current(s)
          && !Busy(s.reader.v1) && s.reader.v1 <= s.cells[s.reader.cell].version)
    && (s.reader.SawEmpty? && s.cells[s.reader.cell].version == s.reader.v1 ==>
          s.cells[s.reader.cell].key == EMPTY)
    && (s.reader.Copying? ==>
          var c := s.cells[s.reader.cell];
          c.version == s.reader.v1 ==>
            c.key == s.wanted && forall j :: j in s.reader.copied && j < FIELDS ==> s.reader.copied[j] == c.fields[j])
    && (s.reader.Returned? && s.reader.outcome.Found? ==>
          (s.wanted, s.reader.outcome.fields) in s.published)
    && TOMBSTONE < s.wanted
  }

  ghost predicate Inv(s: State) {
    && (s.writer.Inside? ==> s.writer.cell < |s.cells| && (s.writer.change.Store? ==> TOMBSTONE < s.writer.change.ptr))
    && (forall i :: 0 <= i < |s.cells| ==> CellOk(s, i))
    && ReaderOk(s)
  }

  ghost predicate Init(s: State) {
    && s.writer.Outside? && s.reader.Probing? && s.probe == 0 && s.published == [] && TOMBSTONE < s.wanted
    && forall i :: 0 <= i < |s.cells| ==> s.cells[i].version == 0 && s.cells[i].key == EMPTY
  }

  lemma WriterStepKeepsInv(s: State, step: Step)
    requires Inv(s) && Enabled(s, step)
    requires step.ClaimCell? || step.StoreKey? || step.StoreField? || step.PublishCell?
    ensures Inv(Apply(s, step))
  {
    var s' := Apply(s, step);
    forall i | 0 <= i < |s'.cells|
      ensures CellOk(s', i)
    {
      assert CellOk(s, i);
      if step.PublishCell? && i == s.writer.cell && !s.writer.change.Remove? {
        assert s.cells[i].fields == s.writer.change.fields;
      }
    }
    if s.reader.Versioned? || s.reader.SawEmpty? || s.reader.Copying? {
      assert CellOk(s, s.reader.cell);
    }
  }

  lemma ReaderStepKeepsInv(s: State, step: Step)
    requires Inv(s) && Enabled(s, step)
    requires step.LoadVersion? || step.LoadKey? || step.RecheckEmpty? || step.LoadField? || step.Recheck?
             || step.GiveUp? || step.Restart?
    ensures Inv(Apply(s, step))
  {
    var s' := Apply(s, step);
    forall i | 0 <= i < |s'.cells|
      ensures CellOk(s', i)
    {
      assert CellOk(s, i);
    }
    if step.Recheck? && s.cells[s.reader.cell].version == s.reader.v1 {
      assert Copied(s.reader.copied) == s.cells[s.reader.cell].fields;
      assert CellOk(s, s.reader.cell);
    }
  }

  ghost predicate IsRun(states: seq<State>, steps: seq<Step>) {
    && |states| == |steps| + 1
    && Init(states[0])
    && forall i :: 0 <= i < |steps| ==> Enabled(states[i], steps[i]) && states[i + 1] == Apply(states[i], steps[i])
  }

  lemma {:induction false} RunKeepsInv(states: seq<State>, steps: seq<Step>, n: nat)
    requires IsRun(states, steps) && n < |states|
    ensures Inv(states[n])
  {
    if n == 0 {
    } else {
      RunKeepsInv(states, steps, n - 1);
      var step := steps[n - 1];
      if step.ClaimCell? || step.StoreKey? || step.StoreField? || step.PublishCell? {
        WriterStepKeepsInv(states[n - 1], step);
      } else {
        ReaderStepKeepsInv(states[n - 1], step);
      }
    }
  }

  /** No torn record: whenever a lookup succeeds, the record it returns is, field for field,
      one that a single Insert stored for that very pointer and has published. */
  lemma FoundRecordWasStoredWhole(states: seq<State>, steps: seq<Step>, n: nat)
    requires IsRun(states, steps) && n < |states|
    requires states[n].reader.Returned? && states[n].reader.outcome.Found?
    ensures (states[n].wanted, states[n].reader.outcome.fields) in states[n].published
  {
    RunKeepsInv(states, steps, n);
  }

  /** Nor a stale one: at the second version check the entry is at rest and holds, under the
      wanted pointer, exactly the record that is returned. */
  lemma FoundRecordIsCurrent(states: seq<State>, steps: seq<Step>, n: nat)
    requires IsRun(states, steps) && n < |steps| && steps[n].Recheck?
    requires states[n + 1].reader.Returned? && states[n + 1].reader.outcome.Found?
    ensures states[n].reader.Copying? && states[n].reader.cell < |states[n].cells|
    ensures var c := states[n].cells[states[n].reader.cell];
            && c == states[n + 1].cells[states[n].reader.cell] && !Busy(c.version)
            && c.key == states[n + 1].wanted && c.fields == states[n + 1].reader.outcome.fields
            && (c.key, c.fields) in states[n].published
  {
    RunKeepsInv(states, steps, n);
    var s := states[n];
    assert CellOk(s, s.reader.cell);
    assert Copied(s.reader.copied) == s.cells[s.reader.cell].fields;
  }

  // ---------------------------------------------------------------- what "not found" means

  /** A lookup comes back empty-handed in three cases only: at an entry that is empty and at
      rest; at the wanted key, when a writer has been inside its entry during the copy; or after
      64 entries. A tombstone, another key or a busy entry never ends it. */
  lemma NotFoundMeans(states: seq<State>, steps: seq<Step>, n: nat)
    requires IsRun(states, steps) && n < |steps| && !states[n].reader.Returned?
    requires states[n + 1].reader == Returned(NotFound)
    ensures var s := states[n];
            || s.probe == MAX_PROBE
            || (s.reader.SawEmpty? && s.reader.cell < |s.cells|
                && s.cells[s.reader.cell].key == EMPTY && !Busy(s.cells[s.reader.cell].version))
            || (s.reader.Copying? && s.reader.cell < |s.cells| && s.cells[s.reader.cell].version > s.reader.v1)
  {
    RunKeepsInv(states, steps, n);
  }

  /** The wanted pointer is in entry `home` and nowhere else, and no writer is inside that entry. */
  ghost predicate Steady(s: State, home: nat) {
    && home < |s.cells| && s.cells[home].key == s.wanted
    && !(s.writer.Inside? && s.writer.cell == home)
    && forall j :: 0 <= j < |s.cells| && j != home ==> s.cells[j].key != s.wanted
  }

  /** Its path leads there in `p` probes over entries that are not empty. */
  ghost predicate PathLeads(s: State, home: nat, p: nat) {
    && 0 < |s.cells| && p < MAX_PROBE && Probe(s.hash, s.wanted, p, |s.cells|) == home
    && forall q :: 0 <= q < p ==> s.cells[Probe(s.hash, s.wanted, q, |s.cells|)].key != EMPTY
  }

  /** A lookup that cannot miss it: not past it yet, and if it looks at the entry, with its
      present version; once it is back, it has found it. */
  ghost predicate OnItsWay(s: State, home: nat, p: nat) {
    && Steady(s, home) && PathLeads(s, home, p) && s.probe <= p
    && !s.reader.SawEmpty?
    && (s.reader.Versioned? && s.reader.cell == home ==> s.reader.v1 == s.cells[home].version)
    && (s.reader.Copying? ==> s.reader.cell == home && s.reader.v1 == s.cells[home].version)
    && (s.reader.Returned? ==> s.reader.outcome == Found(s.cells[home].fields))
  }

  ghost predicate Moves(s: State, step: Step, s': State) {
    Inv(s) && Enabled(s, step) && !step.Restart? && s' == Apply(s, step)
  }

  lemma WriterKeepsItOnItsWay(s: State, step: Step, s': State, home: nat, p: nat)
    requires Moves(s, step, s') && OnItsWay(s, home, p) && Steady(s', home)
    requires step.ClaimCell? || step.StoreKey? || step.StoreField? || step.PublishCell?
    ensures OnItsWay(s', home, p)
  {
    assert s'.cells[home] == s.cells[home];
    forall q | 0 <= q < p
      ensures s'.cells[Probe(s'.hash, s'.wanted, q, |s'.cells|)].key != EMPTY
    {
      assert s.cells[Probe(s.hash, s.wanted, q, |s.cells|)].key != EMPTY;
    }
  }

  lemma ReaderStaysOnItsWay(s: State, step: Step, s': State, home: nat, p: nat)
    requires Moves(s, step, s') && OnItsWay(s, home, p)
    requires step.LoadVersion? || step.LoadKey? || step.RecheckEmpty? || step.LoadField? || step.Recheck?
             || step.GiveUp?
    ensures OnItsWay(s', home, p)
  {
    assert CellOk(s, home);
    if step.Recheck? {
      assert Copied(s.reader.copied) == s.cells[home].fields;
    }
  }

  ghost predicate Chain(states: seq<State>, steps: seq<Step>, a: nat, b: nat, home: nat) {
    && a <= b < |states| && b <= |steps|
    && (forall n :: a <= n < b ==> Moves(states[n], steps[n], states[n + 1]))
    && forall n :: a <= n <= b ==> Steady(states[n], home)
  }

  lemma {:induction false} ChainStaysOnItsWay(
    states: seq<State>, steps: seq<Step>, a: nat, b: nat, home: nat, p: nat)
    requires Chain(states, steps, a, b, home) && OnItsWay(states[a], home, p)
    ensures OnItsWay(states[b], home, p)
    decreases b - a
  {
    if a == b {
    } else {
      var step := steps[a];
      assert Moves(states[a], step, states[a + 1]) && Steady(states[a + 1], home);
      if step.ClaimCell? || step.StoreKey? || step.StoreField? || step.PublishCell? {
        WriterKeepsItOnItsWay(states[a], step, states[a + 1], home, p);
      } else {
        ReaderStaysOnItsWay(states[a], step, states[a + 1], home, p);
      }
      ChainStaysOnItsWay(states, steps, a + 1, b, home, p);
    }
  }

  /** A pointer that stays in its entry during a lookup is found, with the record that is there,
      whatever writers do to other entries meanwhile. `a` is where the lookup begins, and its path
      to the entry is as the ledger keeps every path: without an empty entry. */
  lemma SteadyPointerIsFound(states: seq<State>, steps: seq<Step>, a: nat, b: nat, home: nat, p: nat)
    requires IsRun(states, steps) && a <= b < |states|
    requires states[a].reader.Probing? && states[a].probe == 0
    requires forall n :: a <= n < b ==> !steps[n].Restart?
    requires forall n :: a <= n <= b ==> Steady(states[n], home)
    requires PathLeads(states[a], home, p)
    ensures home < |states[b].cells|
    ensures states[b].reader.Returned? ==> states[b].reader.outcome == Found(states[b].cells[home].fields)
  {
    assert Steady(states[a], home);
    forall n | a <= n < b
      ensures Moves(states[n], steps[n], states[n + 1])
    {
      RunKeepsInv(states, steps, n);
    }
    ChainStaysOnItsWay(states, steps, a, b, home, p);
  }
}
