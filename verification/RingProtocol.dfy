/** The lock-free protocol of one trace ring (src/Ipc/ShmRing.cpp): a producer that can be
    stopped at any point of Publish, and a consumer that drains the ring meanwhile, as a
    step system. Every load and store of a shared word is a step of its own; the payload
    words may be stored and loaded in any order. The ring may be taken over by another
    producer, at any point of its predecessor's Publish, whenever no drain is in flight. */
module RingProtocol {
  import opened ShmLayout

  /** A ShmEvent is eight 64-bit words; the first one is the record id. */
  const WORDS: nat := 8

  type Record = w: seq<nat> | |w| == WORDS witness [1, 0, 0, 0, 0, 0, 0, 0]

  datatype Slot = Slot(version: nat, words: Record)

  /** Where the producer is inside Publish. */
  datatype Producer =
    | Idle
    | Storing(record: Record, stored: set<nat>)  // slot invalidated, payload in progress
    | Published                                  // slot version is even again, writeSeq is not

  /** The locals of DrainRing. */
  datatype Drain = Drain(next: Id, generation: nat, consumed: nat, dropped: nat, deferred: nat)

  /** Where the consumer is inside DrainRing. */
  datatype Consumer =
    | Resting
    | Looping(d: Drain)                                  // about to load writeSeq
    | Checked(d: Drain)                                  // writeSeq covers d.next
    | Loading(d: Drain, v1: nat, loaded: map<nat, nat>)  // copying the payload
    | Leaving(d: Drain)                                  // about to write the progress back

  /** One ownership period of the ring: the records it has begun to publish, those the sink has
      got, and, once the period is over, how many were published to the end and where the read
      cursor stood. */
  datatype Epoch = Epoch(history: seq<Record>, delivered: seq<Record>, published: nat, cursor: nat)

  datatype Ring = Ring(
    slots: seq<Slot>,
    writeSeq: nat, readSeq: nat, drops: nat, generation: nat,
    published: nat,  // the producer's private _published
    producer: Producer, consumer: Consumer,
    now: Epoch, past: seq<Epoch>)
  {
    ghost predicate Shaped() {
      0 < |slots|
    }

    /** The slot of record `id`. */
    function At(id: Id): Slot
      requires 0 < |slots|
    {
      slots[SlotIndex(id, |slots|)]
    }

    function Put(id: Id, slot: Slot): Ring
      requires 0 < |slots|
    {
      this.(slots := slots[SlotIndex(id, |slots|) := slot])
    }
  }

  // ---------------------------------------------------------------- producer steps

  datatype Step =
    | Invalidate(event: Record)
    | StoreWord(i: nat)
    | PublishVersion
    | PublishSeq
    | StartDrain
    | LoadWriteSeq
    | LoadVersion
    | LoadWord(j: nat)
    | Recheck
    | WriteBack
    | TakeOver

  /** The record Publish writes: the caller's event under the producer's next id. */
  function Stamped(event: Record, id: nat): Record {
    event[0 := id]
  }

  predicate Enabled(r: Ring, step: Step)
    requires 0 < |r.slots|
  {
    match step
    case Invalidate(event) => r.producer.Idle?
    case StoreWord(i) => r.producer.Storing? && i < WORDS && i !in r.producer.stored
    case PublishVersion => r.producer.Storing? && forall i :: 0 <= i < WORDS ==> i in r.producer.stored
    case PublishSeq => r.producer.Published?
    case StartDrain => r.consumer.Resting?
    case LoadWriteSeq => r.consumer.Looping?
    case LoadVersion => r.consumer.Checked?
    case LoadWord(j) => r.consumer.Loading? && j < WORDS && j !in r.consumer.loaded
    case Recheck => r.consumer.Loading? && forall i :: 0 <= i < WORDS ==> i in r.consumer.loaded
    case WriteBack => r.consumer.Leaving?
    case TakeOver => r.consumer.Resting?
  }

  function AfterLoadVersion(d: Drain, version: nat): Consumer {
    var id := SeqOfVersion(version);
    if VersionIsWriting(version) then Leaving(d.(deferred := d.deferred + 1))
    else if id > d.next then Looping(d.(dropped := d.dropped + (id - d.next), next := id))
    else if id < d.next then Looping(d.(dropped := d.dropped + 1, next := d.next + 1))
    else Loading(d, version, map[])
  }

  function Apply(r: Ring, step: Step): Ring
    requires r.Shaped() && Enabled(r, step)
  {
    var id := r.published + 1;
    match step
    case Invalidate(event) =>
      var record := Stamped(event, id);
      r.Put(id, r.At(id).(version := VersionFor(id, true)))
       .(producer := Storing(record, {}), now := r.now.(history := r.now.history + [record]))
    case StoreWord(i) =>
      var slot := r.At(id);
      r.Put(id, slot.(words := slot.words[i := r.producer.record[i]]))
       .(producer := r.producer.(stored := r.producer.stored + {i}))
    case PublishVersion =>
      r.Put(id, r.At(id).(version := VersionFor(id, false))).(producer := Published)
    case PublishSeq =>
      r.(writeSeq := id, published := id, producer := Idle)
    case StartDrain =>
      r.(consumer := Looping(Drain(r.readSeq + FIRST_SEQ, r.generation, 0, 0, 0)))
    case LoadWriteSeq =>
      var d := r.consumer.d;
      r.(consumer := if d.next > r.writeSeq then Leaving(d) else Checked(d))
    case LoadVersion =>
      r.(consumer := AfterLoadVersion(r.consumer.d, r.At(r.consumer.d.next).version))
    case LoadWord(j) =>
      var slot := r.At(r.consumer.d.next);
      r.(consumer := r.consumer.(loaded := r.consumer.loaded[j := slot.words[j]]))
    case Recheck =>
      var d := r.consumer.d;
      if r.At(d.next).version != r.consumer.v1 then
        r.(consumer := Looping(d.(dropped := d.dropped + 1, next := d.next + 1)))
      else
        var copy := Assembled(r.consumer.loaded);
        r.(consumer := Looping(d.(consumed := d.consumed + 1, next := d.next + 1)),
           now := r.now.(delivered := r.now.delivered + [copy]))
    case WriteBack =>
      var d := r.consumer.d;
      var resting := r.(consumer := Resting);
      if r.generation == d.generation
      then resting.(readSeq := d.next - FIRST_SEQ, drops := r.drops + d.dropped)
      else resting
    case TakeOver =>
      r.(writeSeq := 0, readSeq := 0, drops := 0, generation := r.generation + 1,
         published := 0, producer := Idle,
         now := Epoch([], [], 0, 0), past := r.past + [r.now.(published := r.writeSeq, cursor := r.readSeq)])
  }

  /** The words of a finished copy, in order. */
  function Assembled(loaded: map<nat, nat>): Record
    requires forall i :: 0 <= i < WORDS ==> i in loaded
  {
    seq(WORDS, i requires 0 <= i < WORDS && i in loaded => loaded[i])
  }

  // ---------------------------------------------------------------- invariant

  /** Slot `s` is what record `id` of `history` leaves behind: complete, or half written
      when it is the newest record and the producer is still storing it. */
  ghost predicate SlotShows(s: Slot, id: Id, history: seq<Record>, p: Producer)
    requires id <= |history|
  {
    if p.Storing? && id == |history| then
      && s.version == VersionFor(id, true)
      && forall i :: i in p.stored && i < WORDS ==> s.words[i] == history[id - 1][i]
    else
      && s.version == VersionFor(id, false)
      && s.words == history[id - 1]
  }

  ghost predicate InWindow(r: Ring, id: Id) {
    id <= |r.now.history| < id + |r.slots|
  }

  ghost predicate WindowOk(r: Ring)
    requires r.Shaped()
  {
    forall id: Id :: InWindow(r, id) ==> SlotShows(r.At(id), id, r.now.history, r.producer)
  }

  ghost predicate ProducerOk(r: Ring) {
    && r.published == r.writeSeq
    && |r.now.history| == r.writeSeq + (if r.producer.Idle? then 0 else 1)
    && (forall k :: 0 <= k < |r.now.history| ==> r.now.history[k][0] == k + 1)
    && (r.producer.Storing? ==> r.producer.record == r.now.history[r.writeSeq])
  }

  /** Every delivered record is a whole record of `history`, and ids strictly increase
      and stay at or below `last`. */
  ghost predicate Faithful(e: Epoch, last: nat) {
    && (forall k :: 0 <= k < |e.delivered| ==> IsRecordOf(e.delivered[k], e.history) && e.delivered[k][0] <= last)
    && (forall j, k :: 0 <= j < k < |e.delivered| ==> e.delivered[j][0] < e.delivered[k][0])
  }

  ghost predicate IsRecordOf(record: Record, history: seq<Record>) {
    FIRST_SEQ <= record[0] <= |history| && record == history[record[0] - 1]
  }

  /** The consumer's last handled id, and how many records it has lost up to there. */
  function Reached(r: Ring): int {
    if r.consumer.Resting? then r.readSeq else r.consumer.d.next - 1
  }

  function Lost(r: Ring): nat {
    r.drops + if r.consumer.Resting? then 0 else r.consumer.d.dropped
  }

  ghost predicate DrainOk(r: Ring, d: Drain) {
    && d.generation == r.generation
    && r.readSeq + FIRST_SEQ <= d.next <= r.writeSeq + 1
    && d.next - FIRST_SEQ == r.readSeq + d.consumed + d.dropped
  }

  ghost predicate LoadingOk(r: Ring, c: Consumer)
    requires r.Shaped() && c.Loading? && c.d.next <= |r.now.history|
  {
    && c.v1 == VersionFor(c.d.next, false)
    && r.At(c.d.next).version >= c.v1
    && (r.At(c.d.next).version == c.v1 ==>
          forall j :: j in c.loaded && j < WORDS ==> c.loaded[j] == r.now.history[c.d.next - 1][j])
  }

  ghost predicate ConsumerOk(r: Ring)
    requires r.Shaped()
  {
    && r.readSeq <= r.writeSeq <= |r.now.history|
    && (!r.consumer.Resting? ==> DrainOk(r, r.consumer.d))
    && (r.consumer.Checked? || r.consumer.Loading? ==> r.consumer.d.next <= r.writeSeq)
    && (r.consumer.Loading? ==> LoadingOk(r, r.consumer))
    && Faithful(r.now, if r.consumer.Resting? then r.readSeq else r.consumer.d.next - 1)
    && |r.now.delivered| + Lost(r) == Reached(r)
  }

  ghost predicate PastOk(r: Ring) {
    forall k :: 0 <= k < |r.past| ==>
      r.past[k].cursor <= r.past[k].published <= |r.past[k].history| && Faithful(r.past[k], r.past[k].cursor)
  }

  ghost predicate Inv(r: Ring) {
    && r.Shaped() && ProducerOk(r) && WindowOk(r) && ConsumerOk(r) && PastOk(r)
    && r.generation == |r.past|
  }

  /** A ring as it is after its first claim: cursors at zero, nothing published yet, and
      anything at all left in the slots. */
  ghost predicate Init(r: Ring) {
    && r.Shaped()
    && r.writeSeq == r.readSeq == r.drops == r.generation == r.published == 0
    && r.producer.Idle? && r.consumer.Resting?
    && r.now == Epoch([], [], 0, 0) && r.past == []
  }

  /** The largest record of this epoch that lives in the slot of `id`. */
  lemma LatestInSlot(r: Ring, id: Id) returns (latest: Id)
    requires r.Shaped() && id <= |r.now.history|
    ensures InWindow(r, latest) && id <= latest
    ensures SlotIndex(latest, |r.slots|) == SlotIndex(id, |r.slots|)
  {
    latest := LastOfSlot(id, |r.now.history|, |r.slots|);
  }

  /** Writing the slot of the newest record leaves every other record in the window alone. */
  lemma OthersKeepTheirSlot(r: Ring, r': Ring, newest: Id, slot: Slot)
    requires r.Shaped()
    requires r'.slots == r.Put(newest, slot).slots
    ensures r'.Shaped() && r'.At(newest) == slot
    ensures forall id: Id :: id < newest < id + |r.slots| ==> r'.At(id) == r.At(id)
  {
    forall id: Id | id < newest < id + |r.slots|
      ensures r'.At(id) == r.At(id)
    {
      NearbyRecordsUseDistinctSlots(id, newest, |r.slots|);
    }
  }

  predicate IsProducerStep(step: Step) {
    step.Invalidate? || step.StoreWord? || step.PublishVersion? || step.PublishSeq?
  }

  lemma ProducerKeepsWindow(r: Ring, step: Step)
    requires Inv(r) && Enabled(r, step) && IsProducerStep(step)
    ensures ProducerOk(Apply(r, step)) && WindowOk(Apply(r, step))
  {
    var r' := Apply(r, step);
    var id := r.published + 1;
    if !step.PublishSeq? {
      OthersKeepTheirSlot(r, r', id, r'.At(id));
    }
    forall k: Id | InWindow(r', k)
      ensures SlotShows(r'.At(k), k, r'.now.history, r'.producer)
    {
      if k <= |r.now.history| {
        assert InWindow(r, k);
      }
    }
  }

  /** Steps of the producer keep the consumer's half-read copy good: the version of the
      slot it reads has moved on whenever the slot's payload may have. */
  lemma ProducerKeepsConsumer(r: Ring, step: Step)
    requires Inv(r) && Enabled(r, step) && IsProducerStep(step)
    ensures ConsumerOk(Apply(r, step))
  {
    var r' := Apply(r, step);
    var id := r.published + 1;
    if r.consumer.Loading? && !step.PublishSeq? {
      OthersKeepTheirSlot(r, r', id, r'.At(id));
      var next := r.consumer.d.next;
      if SlotIndex(next, |r.slots|) != SlotIndex(id, |r.slots|) {
        assert r'.At(next) == r.At(next);
      }
    }
  }

  lemma ProducerStepKeepsInv(r: Ring, step: Step)
    requires Inv(r) && Enabled(r, step) && IsProducerStep(step)
    ensures Inv(Apply(r, step))
  {
    ProducerKeepsWindow(r, step);
    ProducerKeepsConsumer(r, step);
  }

  /** What a load of the version of record `next` can observe. */
  lemma VersionSeen(r: Ring)
    requires Inv(r) && (r.consumer.Checked? || r.consumer.Loading?)
    ensures var next := r.consumer.d.next;
            var slot := r.At(next);
            && (!VersionIsWriting(slot.version) ==> next <= SeqOfVersion(slot.version) <= r.writeSeq + 1)
            && (slot.version == VersionFor(next, false) ==> slot.words == r.now.history[next - 1])
            && slot.version >= VersionFor(next, false)
  {
    var next := r.consumer.d.next;
    var latest := LatestInSlot(r, next);
    assert SlotShows(r.At(latest), latest, r.now.history, r.producer);
  }

  lemma DrainStepKeepsInv(r: Ring, step: Step)
    requires Inv(r) && Enabled(r, step)
    requires step.StartDrain? || step.LoadWriteSeq? || step.LoadVersion? || step.LoadWord? || step.WriteBack?
    ensures Inv(Apply(r, step))
  {
    var r' := Apply(r, step);
    if step.LoadVersion? || step.LoadWord? {
      VersionSeen(r);
    }
    assert forall k: Id :: InWindow(r', k) <==> InWindow(r, k);
  }

  lemma RecheckKeepsInv(r: Ring)
    requires Inv(r) && Enabled(r, Recheck)
    ensures Inv(Apply(r, Recheck))
  {
    var r' := Apply(r, Recheck);
    var next := r.consumer.d.next;
    VersionSeen(r);
    assert forall k: Id :: InWindow(r', k) <==> InWindow(r, k);
    if r.At(next).version == r.consumer.v1 {
      assert Assembled(r.consumer.loaded) == r.now.history[next - 1];
    }
  }

  lemma StepKeepsInv(r: Ring, step: Step)
    requires Inv(r) && Enabled(r, step)
    ensures Inv(Apply(r, step))
  {
    match step {
      case TakeOver =>
      case Invalidate(_) => ProducerStepKeepsInv(r, step);
      case StoreWord(_) => ProducerStepKeepsInv(r, step);
      case PublishVersion => ProducerStepKeepsInv(r, step);
      case PublishSeq => ProducerStepKeepsInv(r, step);
      case Recheck => RecheckKeepsInv(r);
      case _ => DrainStepKeepsInv(r, step);
    }
  }

  // ---------------------------------------------------------------- runs

  ghost predicate IsRun(states: seq<Ring>, steps: seq<Step>) {
    && |states| == |steps| + 1
    && Init(states[0])
    && (forall i :: 0 <= i < |states| ==> states[i].Shaped())
    && (forall i :: 0 <= i < |steps| ==> Enabled(states[i], steps[i]) && states[i + 1] == Apply(states[i], steps[i]))
  }

  lemma {:induction false} RunKeepsInv(states: seq<Ring>, steps: seq<Step>, i: nat)
    requires IsRun(states, steps) && i < |states|
    ensures Inv(states[i])
  {
    if i == 0 {
    } else {
      RunKeepsInv(states, steps, i - 1);
      StepKeepsInv(states[i - 1], steps[i - 1]);
    }
  }

  /** How many records the owner of period `epoch` has published to the end. */
  function PublishedIn(r: Ring, epoch: nat): nat {
    if epoch < |r.past| then r.past[epoch].published else r.writeSeq
  }

  /** Safety: whatever the interleaving, wherever a producer stops, and however often the
      ring changes hands, an event handed to the sink is exactly one whole record that the
      owner of that time has published to the end, and ids strictly increase within one
      ownership. A record whose Publish was cut short is never among them. */
  lemma SinkSeesWholeRecordsInOrder(states: seq<Ring>, steps: seq<Step>, i: nat, epoch: nat)
    requires IsRun(states, steps) && i < |states|
    requires epoch <= |states[i].past|
    ensures var e := if epoch < |states[i].past| then states[i].past[epoch] else states[i].now;
            && PublishedIn(states[i], epoch) <= |e.history|
            && (forall k :: 0 <= k < |e.delivered| ==>
                  && FIRST_SEQ <= e.delivered[k][0] <= PublishedIn(states[i], epoch)
                  && e.delivered[k] == e.history[e.delivered[k][0] - 1])
            && (forall j, k :: 0 <= j < k < |e.delivered| ==> e.delivered[j][0] < e.delivered[k][0])
  {
    RunKeepsInv(states, steps, i);
    if epoch < |states[i].past| {
      assert Faithful(states[i].past[epoch], states[i].past[epoch].cursor);
    }
  }

  /** The events the present owner of the ring has been asked to publish, in order. */
  function Given(steps: seq<Step>): seq<Record> {
    if steps == [] then []
    else
      match steps[|steps| - 1]
      case Invalidate(event) => Given(steps[..|steps| - 1]) + [event]
      case TakeOver => []
      case _ => Given(steps[..|steps| - 1])
  }

  /** Each record of `history` is the event given for it, under the record's own number. */
  ghost predicate IsStampedFrom(history: seq<Record>, given: seq<Record>) {
    && |history| == |given|
    && forall k :: 0 <= k < |history| ==>
         history[k][0] == k + 1 && forall j :: 1 <= j < WORDS ==> history[k][j] == given[k][j]
  }

  lemma StepStamps(r: Ring, step: Step, given: seq<Record>)
    requires Inv(r) && Enabled(r, step) && IsStampedFrom(r.now.history, given)
    ensures IsStampedFrom(Apply(r, step).now.history,
                          if step.Invalidate? then given + [step.event] else if step.TakeOver? then [] else given)
  {
  }

  lemma {:induction false} HistoryIsWhatWasGiven(states: seq<Ring>, steps: seq<Step>, i: nat)
    requires IsRun(states, steps) && i < |states|
    ensures IsStampedFrom(states[i].now.history, Given(steps[..i]))
  {
    if i == 0 {
    } else {
      HistoryIsWhatWasGiven(states, steps, i - 1);
      RunKeepsInv(states, steps, i - 1);
      StepStamps(states[i - 1], steps[i - 1], Given(steps[..i - 1]));
      assert steps[..i][..i - 1] == steps[..i - 1];
    }
  }

  /** So an event the sink has got under number `id` is, word for word, the `id`-th event that
      the ring's owner was asked to publish. */
  lemma SinkSeesWhatWasGiven(states: seq<Ring>, steps: seq<Step>, i: nat, k: nat)
    requires IsRun(states, steps) && i < |states| && k < |states[i].now.delivered|
    ensures var record, given := states[i].now.delivered[k], Given(steps[..i]);
            && 1 <= record[0] <= |given|
            && forall j :: 1 <= j < WORDS ==> record[j] == given[record[0] - 1][j]
  {
    SinkSeesWholeRecordsInOrder(states, steps, i, |states[i].past|);
    HistoryIsWhatWasGiven(states, steps, i);
  }

  /** Conservation: between drains the read cursor is the number of records delivered plus
      the number counted as lost, and it never passes the write cursor; the write-back of a
      drain moves it by exactly what that drain delivered and lost. */
  lemma CursorCountsDeliveredAndLost(states: seq<Ring>, steps: seq<Step>, i: nat)
    requires IsRun(states, steps) && i < |states|
    ensures states[i].readSeq <= states[i].writeSeq
    ensures states[i].consumer.Resting? ==> states[i].readSeq == |states[i].now.delivered| + states[i].drops
    ensures i < |steps| && steps[i].WriteBack? ==>
              states[i + 1].readSeq == states[i].readSeq + states[i].consumer.d.consumed + states[i].consumer.d.dropped
  {
    RunKeepsInv(states, steps, i);
  }

  // ---------------------------------------------------------------- what is given up

  /** Record `id` can still be read whole from its slot. */
  predicate Resident(r: Ring, id: Id)
    requires r.Shaped() && id <= |r.now.history|
  {
    r.At(id) == Slot(VersionFor(id, false), r.now.history[id - 1])
  }

  /** A published record is resident until a record a whole lap later begins to be stored; from
      then on its slot carries another version. */
  lemma ResidentIffInWindow(r: Ring, id: Id)
    requires Inv(r) && id <= r.writeSeq
    ensures Resident(r, id) <==> |r.now.history| < id + |r.slots|
    ensures !Resident(r, id) ==> r.At(id).version != VersionFor(id, false)
  {
    var latest := LatestInSlot(r, id);
    assert SlotShows(r.At(latest), latest, r.now.history, r.producer);
    if InWindow(r, id) {
      assert SlotShows(r.At(id), id, r.now.history, r.producer);
    }
  }

  /** What one load of a slot's version makes the consumer give up: whole laps, up to the record
      it finds there. */
  lemma VersionLoadSkipsWholeLaps(r: Ring)
    requires Inv(r) && r.consumer.Checked?
    ensures var next, c, h := r.consumer.d.next, |r.slots|, |r.now.history|;
            var version := r.At(next).version;
            var n := SeqOfVersion(version) - next;
            !VersionIsWriting(version) ==> 0 <= n && n % c == 0 && next + n <= h < next + n + c
  {
    var next := r.consumer.d.next;
    var latest := LatestInSlot(r, next);
    assert SlotShows(r.At(latest), latest, r.now.history, r.producer);
    SameSlotIffCongruent(next, latest, |r.slots|);
  }

  /** Exactly what is lost, step by step. When the consumer finds a later record in the slot it
      looks at, it gives up the n records before that one, n a whole number of laps; the first
      of them is gone, and all of them are exactly when the producer is one record short of
      overwriting the one found. When its copy is torn it gives up that one record, which is
      gone. */
  lemma LossesAreWholeLaps(states: seq<Ring>, steps: seq<Step>, i: nat)
    requires IsRun(states, steps) && i < |steps| && !steps[i].TakeOver?
    ensures Lost(states[i]) <= Lost(states[i + 1])
    ensures Lost(states[i]) < Lost(states[i + 1]) ==>
              var r, r' := states[i], states[i + 1];
              && (steps[i].LoadVersion? || steps[i].Recheck?)
              && !r.consumer.Resting? && !r'.consumer.Resting?
              && var next, n, c, h := r.consumer.d.next, Lost(r') - Lost(r), |r.slots|, |r.now.history|;
                 && r'.consumer.d.next == next + n <= h
                 && next + c <= h && !Resident(r, next)
                 && (steps[i].Recheck? ==> n == 1)
                 && (steps[i].LoadVersion? ==>
                       && n % c == 0 && h < next + n + c
                       && ((forall id: Id :: next <= id < next + n ==> !Resident(r, id)) <==> h == next + n + c - 1))
  {
    RunKeepsInv(states, steps, i);
    var r, r' := states[i], states[i + 1];
    if (steps[i].LoadVersion? || steps[i].Recheck?) && Lost(r) < Lost(r') {
      var next, n := r.consumer.d.next, Lost(r') - Lost(r);
      VersionSeen(r);
      forall id: Id | next <= id <= r.writeSeq
        ensures Resident(r, id) <==> |r.now.history| < id + |r.slots|
      {
        ResidentIffInWindow(r, id);
      }
      if steps[i].LoadVersion? {
        VersionLoadSkipsWholeLaps(r);
        LapIsLong(n, |r.slots|);
        if |r.now.history| < next + n + |r.slots| - 1 {
          assert Resident(r, next + n - 1);
        }
      }
    }
  }

  lemma LapIsLong(n: nat, c: nat)
    requires 0 < n && 0 < c && n % c == 0
    ensures c <= n
  {
  }

  /** What a load of an odd version means. */
  lemma WritingMeansInFlight(r: Ring)
    requires Inv(r) && r.consumer.Checked?
    ensures var next := r.consumer.d.next;
            && (VersionIsWriting(r.At(next).version) <==>
                  r.producer.Storing? && SlotIndex(next, |r.slots|) == SlotIndex(r.published + 1, |r.slots|))
            && (VersionIsWriting(r.At(next).version) ==> next + |r.slots| <= |r.now.history| && !Resident(r, next))
  {
    var next := r.consumer.d.next;
    var latest := LatestInSlot(r, next);
    assert SlotShows(r.At(latest), latest, r.now.history, r.producer);
    if latest < |r.now.history| {
      NearbyRecordsUseDistinctSlots(latest, |r.now.history|, |r.slots|);
    } else if next < latest < next + |r.slots| {
      NearbyRecordsUseDistinctSlots(next, latest, |r.slots|);
    }
    ResidentIffInWindow(r, next);
  }

  /** A drain is cut short exactly at a slot its producer is storing into. The record it defers
      is a published one, at least a lap older than the one being stored, so it is gone. */
  lemma DeferralMeansInFlight(states: seq<Ring>, steps: seq<Step>, i: nat)
    requires IsRun(states, steps) && i < |steps| && steps[i].LoadVersion?
    ensures states[i + 1].consumer.Leaving? <==>
              && states[i].producer.Storing?
              && SlotIndex(states[i].consumer.d.next, |states[i].slots|)
                 == SlotIndex(states[i].published + 1, |states[i].slots|)
    ensures states[i + 1].consumer.Leaving? ==>
              var next := states[i + 1].consumer.d.next;
              && next == states[i].consumer.d.next <= states[i].writeSeq
              && next + |states[i].slots| <= states[i].published + 1 == |states[i].now.history|
              && !Resident(states[i], next)
  {
    RunKeepsInv(states, steps, i);
    WritingMeansInFlight(states[i]);
  }
}
