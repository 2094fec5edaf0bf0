/**
 * Whole runs of the audit sink: records with any failures, archiving of devices, and restarts
 * (crates/ciphr-audit/src/device.rs, module documentation and `AuditSink`).
 */
module SinkRuns {
  import opened Basics
  import opened Chain
  import opened Sink
  import opened Verify
  import Hex

  /**
   * Beside records and restarts, devices lose their oldest records: all of them to a rotation that
   * archives the file, some of them to a cut of the store. A restart resumes the chain at a head that
   * it is given.
   */
  datatype Event =
    | Record(entry: Entry, nowMillis: int, accepting: set<nat>)
    | Drop(lost: map<nat, nat>)
    | Restart(at: Head, readable: set<nat>)

  /** The running sink, and every record it ever committed, in order. */
  datatype World = World(sink: SinkState, committed: seq<EncodedRecord>)

  /** Where a chain stands after these records. */
  function HeadOf(committed: seq<EncodedRecord>): Head {
    if committed == [] then START else HeadAfter(committed[|committed| - 1])
  }

  function Devices(slots: seq<Slot>): seq<Device> {
    seq(|slots|, i requires 0 <= i < |slots| => slots[i].device)
  }

  /** The slot after its device lost its first `n` records. */
  function Dropped(slot: Slot, n: nat): Slot {
    slot.(device := slot.device.(held := if n < |slot.device.held| then slot.device.held[n..] else []))
  }

  function LostBy(lost: map<nat, nat>, i: nat): nat {
    if i in lost then lost[i] else 0
  }

  function DroppedSlots(slots: seq<Slot>, lost: map<nat, nat>): (after: seq<Slot>)
    ensures |after| == |slots|
  {
    seq(|slots|, i requires 0 <= i < |slots| => Dropped(slots[i], LostBy(lost, i)))
  }

  function Step(w: Wire, world: World, e: Event): World {
    match e
    case Record(entry, nowMillis, accepting) =>
      var (sink, r) := Recorded(w, world.sink, entry, nowMillis, accepting);
      World(sink, if r.Ok? then world.committed + [NextRecord(w, world.sink.head, entry, nowMillis)] else world.committed)
    case Drop(lost) =>
      world.(sink := world.sink.(slots := DroppedSlots(world.sink.slots, lost)))
    case Restart(at, readable) =>
      world.(sink := Opened(Devices(world.sink.slots), at, readable))
  }

  function Run(w: Wire, world: World, events: seq<Event>): World
    decreases |events|
  {
    if events == [] then world else Run(w, Step(w, world, events[0]), events[1..])
  }

  // ----- what every step keeps

  /** `committed[i]` is a well-formed record that chains to the one before it. */
  predicate Chained(w: Wire, committed: seq<EncodedRecord>, i: nat)
    requires i < |committed|
  {
    var r := committed[i];
    && r.seqNo == i + 1
    && r.prevHash == (if i == 0 then GENESIS else committed[i - 1].hash)
    && r.hash == w.hash(r.payload)
    && w.parse(r.payload) == Some(Header(r.seqNo, Hex.Encoded(r.prevHash)))
  }

  predicate Trail(w: Wire, committed: seq<EncodedRecord>) {
    forall i :: 0 <= i < |committed| ==> Chained(w, committed, i)
  }

  /** The device holds the newest committed records, or nothing. */
  predicate InStep(held: seq<EncodedRecord>, committed: seq<EncodedRecord>) {
    |held| <= |committed| && held == committed[|committed| - |held|..]
  }

  /** The device holds committed records without a gap. */
  predicate HoldsRun(held: seq<EncodedRecord>, committed: seq<EncodedRecord>) {
    held == [] ||
    (var first := held[0].seqNo;
     1 <= first && first - 1 + |held| <= |committed| && held == committed[first - 1..first - 1 + |held|])
  }

  predicate SlotSafe(slot: Slot, committed: seq<EncodedRecord>) {
    && HoldsRun(slot.device.held, committed)
    && (slot.quarantined.None? ==> InStep(slot.device.held, committed))
  }

  predicate Safe(w: Wire, world: World) {
    && Trail(w, world.committed)
    && world.sink.head == HeadOf(world.committed)
    && forall i :: 0 <= i < |world.sink.slots| ==> SlotSafe(world.sink.slots[i], world.committed)
  }

  /** The head of every device that is not in step can be read. */
  predicate Readable(world: World, readable: set<nat>) {
    forall i :: 0 <= i < |world.sink.slots| ==>
      i in readable || InStep(world.sink.slots[i].device.held, world.committed)
  }

  predicate Admissible(world: World, e: Event) {
    e.Restart? ==> e.at == HeadOf(world.committed) && Readable(world, e.readable)
  }

  predicate AllAdmissible(w: Wire, world: World, events: seq<Event>)
    decreases |events|
  {
    events == [] || (Admissible(world, events[0]) && AllAdmissible(w, Step(w, world, events[0]), events[1..]))
  }

  lemma TrailGrowsIff(w: Wire, committed: seq<EncodedRecord>, record: EncodedRecord)
    requires Trail(w, committed)
    ensures Trail(w, committed + [record]) <==> Chained(w, committed + [record], |committed|)
  {
    forall i | 0 <= i < |committed| ensures Chained(w, committed + [record], i) {
      assert Chained(w, committed, i);
    }
  }

  lemma NextIsChainedIff(w: Wire, committed: seq<EncodedRecord>, head: Head, entry: Entry, nowMillis: int)
    requires w.Lawful()
    requires committed != [] ==> Chained(w, committed, |committed| - 1)
    ensures Chained(w, committed + [NextRecord(w, head, entry, nowMillis)], |committed|) <==> head == HeadOf(committed)
  {
    var record := NextRecord(w, head, entry, nowMillis);
    assert w.parse(record.payload) == Some(Header(record.seqNo, Hex.Encoded(record.prevHash)));
  }

  /** A record encoded at any head extends the trail exactly when that head is the trail's. */
  lemma RecordExtendsTrailIff(w: Wire, committed: seq<EncodedRecord>, head: Head, entry: Entry, nowMillis: int)
    requires w.Lawful() && Trail(w, committed)
    ensures Trail(w, committed + [NextRecord(w, head, entry, nowMillis)]) <==> head == HeadOf(committed)
  {
    var record := NextRecord(w, head, entry, nowMillis);
    TrailGrowsIff(w, committed, record);
    if committed != [] {
      assert Chained(w, committed, |committed| - 1);
    }
    NextIsChainedIff(w, committed, head, entry, nowMillis);
  }

  lemma {:induction false} RefusalsName(slots: seq<Slot>, accepting: set<nat>, n: nat)
    requires n <= |slots|
    ensures forall i :: 0 <= i < n && slots[i].quarantined.None? && i !in accepting ==>
              slots[i].device.name in Refusals(slots, accepting, n)
    ensures forall name :: name in Refusals(slots, accepting, n) ==>
              exists i :: 0 <= i < n && slots[i].quarantined.None? && i !in accepting && slots[i].device.name == name
  {
    if n > 0 {
      RefusalsName(slots, accepting, n - 1);
    }
  }

  lemma GrowthKeepsRun(held: seq<EncodedRecord>, committed: seq<EncodedRecord>, record: EncodedRecord)
    requires HoldsRun(held, committed)
    ensures HoldsRun(held, committed + [record])
  {
    if held != [] {
      var first, more := held[0].seqNo, committed + [record];
      assert more[first - 1..first - 1 + |held|] == committed[first - 1..first - 1 + |held|];
    }
  }

  lemma StepOfConcat(before: seq<EncodedRecord>, held: seq<EncodedRecord>, record: EncodedRecord)
    ensures InStep(held + [record], before + held + [record])
    ensures (held + [record])[0].seqNo == |before| + 1 ==> HoldsRun(held + [record], before + held + [record])
  {
    var n, more := |before|, before + held + [record];
    Regroup(before, held, [record]);
    assert more[n..] == held + [record] && more[n..n + |held| + 1] == more[n..];
  }

  lemma StoringKeepsStep(w: Wire, held: seq<EncodedRecord>, committed: seq<EncodedRecord>, record: EncodedRecord)
    requires Trail(w, committed) && InStep(held, committed) && record.seqNo == |committed| + 1
    ensures InStep(held + [record], committed + [record])
    ensures HoldsRun(held + [record], committed + [record])
  {
    var n, more := |committed| - |held|, committed + [record];
    StepOfConcat(committed[..n], held, record);
    assert committed == committed[..n] + held;
    if held != [] {
      assert Chained(w, committed, n);
    }
    assert (held + [record])[0].seqNo == n + 1;
  }

  lemma RecordKeepsSlotSafe(w: Wire, world: World, accepting: set<nat>, record: EncodedRecord, i: nat)
    requires Safe(w, world) && i < |world.sink.slots|
    requires record.seqNo == |world.committed| + 1
    ensures SlotSafe(RecordedSlots(world.sink.slots, accepting, record)[i], world.committed + [record])
  {
    var slots := world.sink.slots;
    RefusalsName(slots, accepting, |slots|);
    assert SlotSafe(slots[i], world.committed);
    if Stores(slots, accepting, i) {
      StoringKeepsStep(w, slots[i].device.held, world.committed, record);
    } else {
      GrowthKeepsRun(slots[i].device.held, world.committed, record);
    }
  }

  lemma CommitKeepsSafe(w: Wire, world: World, accepting: set<nat>, record: EncodedRecord)
    requires Safe(w, world) && Trail(w, world.committed + [record]) && record.seqNo == |world.committed| + 1
    ensures Safe(w, World(SinkState(RecordedSlots(world.sink.slots, accepting, record), HeadAfter(record)),
                          world.committed + [record]))
  {
    forall i | 0 <= i < |world.sink.slots|
      ensures SlotSafe(RecordedSlots(world.sink.slots, accepting, record)[i], world.committed + [record])
    {
      RecordKeepsSlotSafe(w, world, accepting, record, i);
    }
  }

  lemma RecordKeepsSafe(w: Wire, world: World, entry: Entry, nowMillis: int, accepting: set<nat>)
    requires w.Lawful() && Safe(w, world)
    ensures Safe(w, Step(w, world, Record(entry, nowMillis, accepting)))
  {
    var record := NextRecord(w, world.sink.head, entry, nowMillis);
    RecordExtendsTrailIff(w, world.committed, world.sink.head, entry, nowMillis);
    assert Chained(w, world.committed + [record], |world.committed|);
    if SomeStore(world.sink.slots, accepting, |world.sink.slots|) {
      CommitKeepsSafe(w, world, accepting, record);
    }
  }

  lemma SuffixOfSlice<T>(s: seq<T>, a: nat, b: nat, n: nat)
    requires a <= b <= |s| && n <= b - a
    ensures s[a..b][n..] == s[a + n..b]
  {
  }

  lemma SuffixHoldsRun(w: Wire, held: seq<EncodedRecord>, committed: seq<EncodedRecord>, n: nat)
    requires Trail(w, committed) && HoldsRun(held, committed) && n < |held|
    ensures HoldsRun(held[n..], committed)
  {
    var first := held[0].seqNo;
    assert held[n] == committed[first - 1 + n] && Chained(w, committed, first - 1 + n);
    SuffixOfSlice(committed, first - 1, first - 1 + |held|, n);
  }

  lemma SuffixIsInStep(held: seq<EncodedRecord>, committed: seq<EncodedRecord>, n: nat)
    requires InStep(held, committed) && n <= |held|
    ensures InStep(held[n..], committed)
  {
    SuffixOfSlice(committed, |committed| - |held|, |committed|, n);
  }

  lemma DropKeepsSlotSafe(w: Wire, slot: Slot, committed: seq<EncodedRecord>, n: nat)
    requires Trail(w, committed) && SlotSafe(slot, committed)
    ensures SlotSafe(Dropped(slot, n), committed)
  {
    var held := slot.device.held;
    if n < |held| {
      SuffixHoldsRun(w, held, committed, n);
      if slot.quarantined.None? {
        SuffixIsInStep(held, committed, n);
      }
    } else {
      assert InStep([], committed);
    }
  }

  lemma DropKeepsSafe(w: Wire, world: World, lost: map<nat, nat>)
    requires Safe(w, world)
    ensures Safe(w, Step(w, world, Drop(lost)))
  {
    var slots := world.sink.slots;
    forall i | 0 <= i < |slots| ensures SlotSafe(DroppedSlots(slots, lost)[i], world.committed) {
      assert SlotSafe(slots[i], world.committed);
      DropKeepsSlotSafe(w, slots[i], world.committed, LostBy(lost, i));
    }
  }

  lemma StepKeepsSafe(w: Wire, world: World, e: Event)
    requires w.Lawful() && Safe(w, world) && Admissible(world, e)
    ensures Safe(w, Step(w, world, e))
  {
    match e
    case Record(entry, nowMillis, accepting) => RecordKeepsSafe(w, world, entry, nowMillis, accepting);
    case Drop(lost) => DropKeepsSafe(w, world, lost);
    case Restart(at, readable) => RestartKeepsSafeIff(w, world, at, readable);
  }

  /** A device that stands at the head holds the newest records. */
  lemma AtHeadIsInStep(w: Wire, held: seq<EncodedRecord>, committed: seq<EncodedRecord>)
    requires Trail(w, committed) && HoldsRun(held, committed) && held != []
    ensures held[|held| - 1].seqNo == |committed| <==> InStep(held, committed)
  {
    var first := held[0].seqNo;
    assert Chained(w, committed, first - 1 + |held| - 1);
    assert held[|held| - 1] == committed[first - 1 + |held| - 1];
    if InStep(held, committed) {
      assert Chained(w, committed, |committed| - 1);
    }
  }

  lemma RestartedSlotSafeIff(w: Wire, world: World, readable: set<nat>, i: nat)
    requires Safe(w, world) && i < |world.sink.slots|
    ensures SlotSafe(OpenedSlot(world.sink.slots[i].device, HeadOf(world.committed), i in readable), world.committed)
       <==> (i in readable || InStep(world.sink.slots[i].device.held, world.committed))
  {
    assert SlotSafe(world.sink.slots[i], world.committed);
    var held := world.sink.slots[i].device.held;
    if world.committed != [] {
      assert Chained(w, world.committed, |world.committed| - 1);
    }
    if held != [] {
      AtHeadIsInStep(w, held, world.committed);
    }
  }

  /** Every run keeps every device's contents a gap-free run of what was committed. */
  lemma {:induction false} RunsStaySafe(w: Wire, world: World, events: seq<Event>)
    requires w.Lawful() && Safe(w, world) && AllAdmissible(w, world, events)
    ensures Safe(w, Run(w, world, events))
    decreases |events|
  {
    if events != [] {
      StepKeepsSafe(w, world, events[0]);
      RunsStaySafe(w, Step(w, world, events[0]), events[1..]);
    }
  }

  /** Stopping a device on an unreadable head would be needed exactly where the source does not. */
  lemma RestartKeepsSafeIff(w: Wire, world: World, at: Head, readable: set<nat>)
    requires w.Lawful() && Safe(w, world)
    ensures Safe(w, Step(w, world, Restart(at, readable))) <==> Admissible(world, Restart(at, readable))
  {
    if at == HeadOf(world.committed) {
      var after := Step(w, world, Restart(at, readable));
      forall i | 0 <= i < |world.sink.slots|
        ensures SlotSafe(after.sink.slots[i], world.committed)
           <==> (i in readable || InStep(world.sink.slots[i].device.held, world.committed))
      {
        RestartedSlotSafeIff(w, world, readable, i);
      }
    }
  }

  lemma FreshSinkIsSafe(w: Wire, devices: seq<Device>, readable: set<nat>)
    requires forall i :: 0 <= i < |devices| ==> devices[i].held == []
    ensures Safe(w, World(Opened(devices, START, readable), []))
  {
  }

  // ----- what safety means to someone who verifies a device

  /** The records of a device as its storage hands them back. */
  function StoredOf(held: seq<EncodedRecord>): (records: seq<StoredRecord>)
    ensures |records| == |held|
    ensures forall i :: 0 <= i < |held| ==>
              records[i] == StoredRecord(held[i].seqNo, held[i].payload, Some(held[i].hash))
  {
    seq(|held|, i requires 0 <= i < |held| => StoredRecord(held[i].seqNo, held[i].payload, Some(held[i].hash)))
  }

  /** Where the device's own contents begin. */
  function StartOf(held: seq<EncodedRecord>): Start
    requires held != [] && held[0].seqNo > 0
  {
    if held[0].seqNo == 1 then Genesis else AfterCut(held[0].seqNo - 1, held[0].prevHash)
  }

  lemma HeldRecordIsSound(w: Wire, committed: seq<EncodedRecord>, held: seq<EncodedRecord>, first: nat, i: nat)
    requires i < |held| && first + i < |committed| && held[0].seqNo == first + 1
    requires Chained(w, committed, first + i) && held[i] == committed[first + i]
    requires i > 0 ==> Chained(w, committed, first + i - 1) && held[i - 1] == committed[first + i - 1]
    ensures RecordSound(w, StoredOf(held), StartOf(held).ExpectedPrev(), i)
  {
    Hex.DecodeOfEncode(held[i].prevHash);
  }

  lemma TrailRunIsSound(w: Wire, committed: seq<EncodedRecord>, held: seq<EncodedRecord>)
    requires Trail(w, committed) && held != [] && HoldsRun(held, committed)
    ensures Sound(w, StoredOf(held), StartOf(held).ExpectedPrev())
  {
    forall i | 0 <= i < |held|
      ensures RecordSound(w, StoredOf(held), StartOf(held).ExpectedPrev(), i)
    {
      TrailRecordIsSound(w, committed, held, i);
    }
  }

  lemma HeldIsChained(w: Wire, committed: seq<EncodedRecord>, held: seq<EncodedRecord>, i: nat)
    requires Trail(w, committed) && HoldsRun(held, committed) && i < |held|
    ensures 1 <= held[0].seqNo && held[0].seqNo - 1 + i < |committed|
    ensures held[i] == committed[held[0].seqNo - 1 + i] && Chained(w, committed, held[0].seqNo - 1 + i)
  {
  }

  lemma TrailRecordIsSound(w: Wire, committed: seq<EncodedRecord>, held: seq<EncodedRecord>, i: nat)
    requires Trail(w, committed) && HoldsRun(held, committed) && i < |held|
    ensures held[0].seqNo > 0 && RecordSound(w, StoredOf(held), StartOf(held).ExpectedPrev(), i)
  {
    HeldIsChained(w, committed, held, i);
    if i > 0 {
      HeldIsChained(w, committed, held, i - 1);
    }
    HeldRecordIsSound(w, committed, held, held[0].seqNo - 1, i);
  }

  /** Everything a device holds was committed, and verifies from its own first record to its last. */
  lemma SafeDeviceVerifies(w: Wire, world: World, i: nat)
    requires Safe(w, world) && i < |world.sink.slots|
    ensures var held := world.sink.slots[i].device.held;
            && (forall r :: r in held ==> r in world.committed)
            && (held != [] ==>
                  && held[0].seqNo > 0
                  && VerifyFrom(w, StartOf(held), StoredOf(held)) ==
                     Ok(Verified(|held|, held[|held| - 1].seqNo, held[|held| - 1].hash)))
  {
    var held := world.sink.slots[i].device.held;
    assert SlotSafe(world.sink.slots[i], world.committed);
    if held != [] {
      TrailRunIsSound(w, world.committed, held);
      VerifyAcceptsIffSound(w, StoredOf(held), StartOf(held).ExpectedPrev());
      var last := held[0].seqNo - 1 + |held| - 1;
      assert Chained(w, world.committed, last) && held[|held| - 1] == world.committed[last];
    }
  }

  // ----- fail closed

  /** What a record does to one device and to what is committed. */
  lemma RecordOutcome(w: Wire, world: World, entry: Entry, nowMillis: int, accepting: set<nat>, i: nat)
    requires i < |world.sink.slots|
    ensures var after := Step(w, world, Record(entry, nowMillis, accepting));
            var record := NextRecord(w, world.sink.head, entry, nowMillis);
            && |after.sink.slots| == |world.sink.slots|
            && (after.committed == world.committed || after.committed == world.committed + [record])
            && (after.committed == world.committed ==> after.sink.slots[i] == world.sink.slots[i])
            && (Stores(world.sink.slots, accepting, i) ==>
                  && after.committed == world.committed + [record]
                  && after.sink.slots[i].device.held == world.sink.slots[i].device.held + [record])
            && (!Stores(world.sink.slots, accepting, i) ==>
                  && after.sink.slots[i].device.held == world.sink.slots[i].device.held
                  && (after.sink.slots[i].quarantined.None? ==> after.committed == world.committed))
  {
    RefusalsName(world.sink.slots, accepting, |world.sink.slots|);
    var record := NextRecord(w, world.sink.head, entry, nowMillis);
    assert |world.committed + [record]| != |world.committed|;
  }

  /** A record is refused exactly when nobody stores it, and then chain, devices and stops are as before. */
  lemma RefusedRecordChangesNothing(w: Wire, s: SinkState, entry: Entry, nowMillis: int, accepting: set<nat>)
    ensures var (after, r) := Recorded(w, s, entry, nowMillis, accepting);
            && (r.Err? <==> forall i :: 0 <= i < |s.slots| ==> s.slots[i].quarantined.Some? || i !in accepting)
            && (r.Err? ==> after == s)
  {
    if forall i :: 0 <= i < |s.slots| ==> s.slots[i].quarantined.Some? || i !in accepting {
      assert forall i :: 0 <= i < |s.slots| ==> !Stores(s.slots, accepting, i);
    } else {
      var i :| 0 <= i < |s.slots| && s.slots[i].quarantined.None? && i in accepting;
      assert Stores(s.slots, accepting, i);
    }
  }

  /** A refused record may be tried again: it comes out under the same sequence number. */
  lemma RunCommitsConsecutively(w: Wire, world: World, events: seq<Event>)
    requires w.Lawful() && Safe(w, world) && AllAdmissible(w, world, events)
    ensures var after := Run(w, world, events);
            forall i :: 0 <= i < |after.committed| ==> after.committed[i].seqNo == i + 1
  {
    RunsStaySafe(w, world, events);
    var after := Run(w, world, events);
    forall i | 0 <= i < |after.committed| ensures after.committed[i].seqNo == i + 1 {
      assert Chained(w, after.committed, i);
    }
  }

  /** While the process runs, a stopped device stays stopped and gains nothing. */
  lemma {:induction false} StoppedStaysStopped(w: Wire, world: World, events: seq<Event>, i: nat)
    requires i < |world.sink.slots| && world.sink.slots[i].quarantined.Some?
    requires forall e :: e in events ==> !e.Restart?
    ensures var after := Run(w, world, events).sink.slots;
            && i < |after| && after[i].quarantined == world.sink.slots[i].quarantined
            && IsSuffix(after[i].device.held, world.sink.slots[i].device.held)
    decreases |events|
  {
    if events != [] {
      assert !events[0].Restart?;
      var next := Step(w, world, events[0]);
      assert IsSuffix(next.sink.slots[i].device.held, world.sink.slots[i].device.held);
      StoppedStaysStopped(w, next, events[1..], i);
    }
  }

  /** What is left of `b` after its first elements are gone. */
  predicate IsSuffix<T(==)>(a: seq<T>, b: seq<T>) {
    |a| <= |b| && a == b[|b| - |a|..]
  }

  // ----- the sink does not stop itself

  predicate WrittenTo(world: World, i: nat) {
    i < |world.sink.slots| && world.sink.slots[i].quarantined.None?
  }

  ghost predicate Alive(world: World) {
    exists i: nat :: WrittenTo(world, i)
  }

  predicate NamesDistinct(slots: seq<Slot>) {
    forall i, j :: 0 <= i < j < |slots| ==> slots[i].device.name != slots[j].device.name
  }

  lemma StepKeepsNames(w: Wire, world: World, e: Event)
    ensures |Step(w, world, e).sink.slots| == |world.sink.slots|
    ensures forall i :: 0 <= i < |world.sink.slots| ==>
              Step(w, world, e).sink.slots[i].device.name == world.sink.slots[i].device.name
  {
  }

  /** The device at `i` is written to and no refusal carries its name. */
  predicate Survives(slots: seq<Slot>, accepting: set<nat>, i: nat) {
    && i < |slots| && slots[i].quarantined.None?
    && slots[i].device.name !in Refusals(slots, accepting, |slots|)
  }

  lemma WrittenToAfterRecordIff(w: Wire, world: World, entry: Entry, nowMillis: int, accepting: set<nat>, i: nat)
    requires SomeStore(world.sink.slots, accepting, |world.sink.slots|)
    ensures WrittenTo(Step(w, world, Record(entry, nowMillis, accepting)), i) <==>
              Survives(world.sink.slots, accepting, i)
  {
  }

  /** After a committed record some device is written to exactly when one survives it. */
  lemma AliveAfterRecordIff(w: Wire, world: World, entry: Entry, nowMillis: int, accepting: set<nat>)
    requires SomeStore(world.sink.slots, accepting, |world.sink.slots|)
    ensures Alive(Step(w, world, Record(entry, nowMillis, accepting))) <==>
              exists i: nat :: Survives(world.sink.slots, accepting, i)
  {
    var after := Step(w, world, Record(entry, nowMillis, accepting));
    forall i: nat
      ensures WrittenTo(after, i) <==> Survives(world.sink.slots, accepting, i)
    {
      WrittenToAfterRecordIff(w, world, entry, nowMillis, accepting, i);
    }
  }

  lemma AcceptingSurvives(slots: seq<Slot>, accepting: set<nat>) returns (i: nat)
    requires SomeStore(slots, accepting, |slots|) && NamesDistinct(slots)
    ensures Survives(slots, accepting, i)
  {
    i :| 0 <= i < |slots| && Stores(slots, accepting, i);
    RefusalsName(slots, accepting, |slots|);
  }

  lemma RecordKeepsAlive(w: Wire, world: World, entry: Entry, nowMillis: int, accepting: set<nat>)
    requires Alive(world) && NamesDistinct(world.sink.slots)
    ensures Alive(Step(w, world, Record(entry, nowMillis, accepting)))
  {
    var slots := world.sink.slots;
    if SomeStore(slots, accepting, |slots|) {
      var i := AcceptingSurvives(slots, accepting);
      WrittenToAfterRecordIff(w, world, entry, nowMillis, accepting, i);
    }
  }

  lemma RestartKeepsAlive(w: Wire, world: World, readable: set<nat>)
    requires Safe(w, world) && Alive(world)
    ensures Alive(Step(w, world, Restart(HeadOf(world.committed), readable)))
  {
    var i :| WrittenTo(world, i);
    InStepIsLetBackIn(w, world, readable, i);
    assert WrittenTo(Step(w, world, Restart(HeadOf(world.committed), readable)), i);
  }

  lemma DropKeepsAlive(w: Wire, world: World, lost: map<nat, nat>)
    requires Alive(world)
    ensures Alive(Step(w, world, Drop(lost)))
  {
    var i :| WrittenTo(world, i);
    assert WrittenTo(Step(w, world, Drop(lost)), i);
  }

  lemma StepKeepsAlive(w: Wire, world: World, e: Event)
    requires Safe(w, world) && Alive(world) && NamesDistinct(world.sink.slots) && Admissible(world, e)
    ensures Alive(Step(w, world, e))
  {
    match e
    case Record(entry, nowMillis, accepting) => RecordKeepsAlive(w, world, entry, nowMillis, accepting);
    case Drop(lost) => DropKeepsAlive(w, world, lost);
    case Restart(_, readable) => RestartKeepsAlive(w, world, readable);
  }

  lemma InStepIsLetBackIn(w: Wire, world: World, readable: set<nat>, i: nat)
    requires Safe(w, world) && i < |world.sink.slots| && world.sink.slots[i].quarantined.None?
    ensures OpenedSlot(world.sink.slots[i].device, HeadOf(world.committed), i in readable).quarantined.None?
  {
    assert SlotSafe(world.sink.slots[i], world.committed);
    var held := world.sink.slots[i].device.held;
    if held != [] {
      AtHeadIsInStep(w, held, world.committed);
      assert Chained(w, world.committed, |world.committed| - 1);
    }
  }

  /** With distinct names, a sink that can write keeps a device it can write to, whatever fails. */
  lemma {:induction false} RunsStayAlive(w: Wire, world: World, events: seq<Event>)
    requires w.Lawful() && Safe(w, world) && AllAdmissible(w, world, events)
    requires Alive(world) && NamesDistinct(world.sink.slots)
    ensures Alive(Run(w, world, events))
    decreases |events|
  {
    if events != [] {
      StepKeepsAlive(w, world, events[0]);
      StepKeepsSafe(w, world, events[0]);
      StepKeepsNames(w, world, events[0]);
      RunsStayAlive(w, Step(w, world, events[0]), events[1..]);
    }
  }

  /** Two devices of one name stop each other: one refusal leaves nobody to write to. */
  lemma SharedNameCanStopEveryone(w: Wire, entry: Entry)
    ensures var devices := [Device("file:a", []), Device("file:a", [])];
            var world := World(Opened(devices, START, {0, 1}), []);
            Alive(world) && !Alive(Step(w, world, Record(entry, 0, {0})))
  {
    var device := Device("file:a", []);
    var slots := [Slot(device, None), Slot(device, None)];
    var world := World(SinkState(slots, START), []);
    assert Opened([device, device], START, {0, 1}) == world.sink;
    assert WrittenTo(world, 0);
    assert Stores(slots, {0}, 0);
    assert Refusals(slots, {0}, 1) == [];
    assert Refusals(slots, {0}, 2) == ["file:a"];
    forall i: nat ensures !Survives(slots, {0}, i) {
    }
    AliveAfterRecordIff(w, world, entry, 0, {0});
  }

  // ----- a shared name always lets the sink stop itself

  lemma RunOfCons(w: Wire, world: World, e: Event, rest: seq<Event>)
    ensures Run(w, world, [e] + rest) == Run(w, Step(w, world, e), rest)
    ensures AllAdmissible(w, world, [e] + rest) <==> Admissible(world, e) && AllAdmissible(w, Step(w, world, e), rest)
  {
    assert ([e] + rest)[1..] == rest;
  }

  /** Devices that lost everything are let back in by the next restart. */
  lemma EmptiedAreLetBackIn(w: Wire, world: World, i: nat, j: nat) returns (drop: Event, restart: Event, after: World)
    requires i < |world.sink.slots| && j < |world.sink.slots|
    ensures !drop.Restart? && Admissible(Step(w, world, drop), restart)
    ensures after == Step(w, Step(w, world, drop), restart) && WrittenTo(after, i) && WrittenTo(after, j)
    ensures after.sink.slots[i].device.name == world.sink.slots[i].device.name
    ensures after.sink.slots[j].device.name == world.sink.slots[j].device.name
  {
    var slots := world.sink.slots;
    var lost := map[i := |slots[i].device.held|, j := |slots[j].device.held|];
    drop, restart := Drop(lost), Restart(HeadOf(world.committed), Below(|slots|));
    assert DroppedSlots(slots, lost)[i].device.held == [] && DroppedSlots(slots, lost)[j].device.held == [];
    after := Step(w, Step(w, world, drop), restart);
  }

  function Below(n: nat): (s: set<nat>)
    ensures forall i: nat :: i in s <==> i < n
  {
    if n == 0 then {} else Below(n - 1) + {n - 1}
  }

  function Named(slots: seq<Slot>, name: string): set<nat> {
    set k: nat | k < |slots| && slots[k].device.name == name
  }

  /** A record that exactly the devices of one name accept leaves exactly those of them that were written to. */
  lemma OnlyNamedSurvive(slots: seq<Slot>, name: string, k: nat)
    requires k < |slots| && slots[k].quarantined.None?
    ensures Survives(slots, Named(slots, name), k) <==> slots[k].device.name == name
  {
    RefusalsName(slots, Named(slots, name), |slots|);
  }

  /** A refusal by one device of the name stops them all. */
  lemma OneRefusalStopsTheName(slots: seq<Slot>, i: nat, j: nat, k: nat)
    requires i < |slots| && j < |slots| && i != j && slots[i].device.name == slots[j].device.name
    requires slots[j].quarantined.None?
    requires k < |slots| && slots[k].quarantined.None? ==> slots[k].device.name == slots[i].device.name
    ensures !Survives(slots, {i}, k)
  {
    RefusalsName(slots, {i}, |slots|);
  }

  /** The two records after which nobody is written to. */
  lemma TwoRecordsStopEveryone(w: Wire, world: World, i: nat, j: nat, e: Event, f: Event)
    requires WrittenTo(world, i) && WrittenTo(world, j) && i != j
    requires world.sink.slots[i].device.name == world.sink.slots[j].device.name
    requires e.Record? && e.accepting == Named(world.sink.slots, world.sink.slots[i].device.name)
    requires f.Record? && f.accepting == {i}
    ensures !Alive(Step(w, Step(w, world, e), f))
  {
    var slots, name := world.sink.slots, world.sink.slots[i].device.name;
    var next := Step(w, world, e);
    StepKeepsNames(w, world, e);
    assert Stores(slots, e.accepting, i);
    forall k: nat | k < |slots| ensures WrittenTo(next, k) <==> slots[k].quarantined.None? && slots[k].device.name == name {
      WrittenToAfterRecordIff(w, world, e.entry, e.nowMillis, e.accepting, k);
      if slots[k].quarantined.None? {
        OnlyNamedSurvive(slots, name, k);
      }
    }
    assert Stores(next.sink.slots, {i}, i);
    var last := Step(w, next, f);
    forall k: nat ensures !WrittenTo(last, k) {
      WrittenToAfterRecordIff(w, next, f.entry, f.nowMillis, f.accepting, k);
      assert k < |slots| ==> (WrittenTo(next, k) ==> slots[k].device.name == name);
      OneRefusalStopsTheName(next.sink.slots, i, j, k);
    }
  }

  lemma RunOfFour(w: Wire, world: World, a: Event, b: Event, c: Event, d: Event) returns (events: seq<Event>)
    requires !a.Restart? && !c.Restart? && !d.Restart? && Admissible(Step(w, world, a), b)
    ensures AllAdmissible(w, world, events)
    ensures Run(w, world, events) == Step(w, Step(w, Step(w, Step(w, world, a), b), c), d)
  {
    var two := Step(w, Step(w, world, a), b);
    var none: seq<Event> := [];
    assert AllAdmissible(w, Step(w, Step(w, two, c), d), none);
    RunOfCons(w, Step(w, two, c), d, none);
    RunOfCons(w, two, c, [d] + none);
    RunOfCons(w, Step(w, world, a), b, [c] + ([d] + none));
    RunOfCons(w, world, a, [b] + ([c] + ([d] + none)));
    events := [a] + ([b] + ([c] + ([d] + none)));
  }

  /** From any state in which two devices share a name, some admissible run ends with nobody to write to. */
  lemma SharedNameStopsEveryone(w: Wire, world: World, i: nat, j: nat) returns (events: seq<Event>)
    requires i < j < |world.sink.slots| && world.sink.slots[i].device.name == world.sink.slots[j].device.name
    ensures AllAdmissible(w, world, events) && !Alive(Run(w, world, events))
  {
    var drop, restart, after := EmptiedAreLetBackIn(w, world, i, j);
    var e := Record(Entry(""), 0, Named(after.sink.slots, after.sink.slots[i].device.name));
    var f := Record(Entry(""), 0, {i});
    TwoRecordsStopEveryone(w, after, i, j, e, f);
    events := RunOfFour(w, world, drop, restart, e, f);
  }

  /** A safe sink that can write can never stop itself exactly if its devices have distinct names. */
  lemma RunsStayAliveIff(w: Wire, world: World)
    requires w.Lawful() && Safe(w, world) && Alive(world)
    ensures (forall events :: AllAdmissible(w, world, events) ==> Alive(Run(w, world, events)))
       <==> NamesDistinct(world.sink.slots)
  {
    if NamesDistinct(world.sink.slots) {
      forall events | AllAdmissible(w, world, events) ensures Alive(Run(w, world, events)) {
        RunsStayAlive(w, world, events);
      }
    } else {
      var i, j :| 0 <= i < j < |world.sink.slots| && world.sink.slots[i].device.name == world.sink.slots[j].device.name;
      var events := SharedNameStopsEveryone(w, world, i, j);
    }
  }

  // ----- the restart reads the chain from one device

  /** The head read from a device is the committed head exactly when the device missed nothing. */
  lemma HeldHeadIsCommittedHeadIff(w: Wire, world: World, i: nat)
    requires Safe(w, world) && i < |world.sink.slots|
    ensures var held := world.sink.slots[i].device.held;
            HeadOf(held) == HeadOf(world.committed) <==>
            InStep(held, world.committed) && (held == [] ==> world.committed == [])
  {
    var held := world.sink.slots[i].device.held;
    assert SlotSafe(world.sink.slots[i], world.committed);
    if held != [] {
      AtHeadIsInStep(w, held, world.committed);
    }
    if world.committed != [] {
      assert Chained(w, world.committed, |world.committed| - 1);
    }
  }

  /**
   * The server resumes at the head that the device in the store holds. That keeps the sink safe
   * exactly when this device missed nothing and every device that did can say where it stands.
   */
  lemma ResumeKeepsSafeIff(w: Wire, world: World, i: nat, readable: set<nat>)
    requires w.Lawful() && Safe(w, world) && i < |world.sink.slots|
    ensures var held := world.sink.slots[i].device.held;
            Safe(w, Step(w, world, Restart(HeadOf(held), readable))) <==>
            InStep(held, world.committed) && (held == [] ==> world.committed == []) && Readable(world, readable)
  {
    HeldHeadIsCommittedHeadIff(w, world, i);
    RestartKeepsSafeIff(w, world, HeadOf(world.sink.slots[i].device.held), readable);
  }
}
