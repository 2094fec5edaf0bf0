/**
 * The sink over file devices: the files on disk hold what the sink's devices are said to hold
 * (crates/ciphr-audit/src/device.rs over crates/ciphr-audit/src/file.rs).
 */
module FileSink {
  import opened Basics
  import opened Chain
  import opened Sink
  import opened SinkRuns
  import opened Verify
  import FD = FileDevice
  import FR = FileRuns
  import Hex
  import TailReader

  // ----- one file and the records it stands for

  function PayloadsOf(held: seq<EncodedRecord>): (payloads: seq<string>)
    ensures |payloads| == |held| && forall i :: 0 <= i < |held| ==> payloads[i] == held[i].payload
  {
    seq(|held|, i requires 0 <= i < |held| => held[i].payload)
  }

  /** The record is one line, and its sequence number can be read back from it. */
  predicate ReadsBack(w: Wire, record: EncodedRecord) {
    IsRecordLine(record.payload) && w.seqField(record.payload) == Some(record.seqNo)
  }

  /** The open file holds exactly these records, one to a line, and its size is known. */
  ghost predicate Backs(w: Wire, disk: FD.Disk, held: seq<EncodedRecord>) {
    && disk.handle in disk.files && disk.written == |disk.files[disk.handle]|
    && disk.files[disk.handle] == FR.LinesOf(PayloadsOf(held))
    && (disk.handle == disk.path || disk.path !in disk.files)
    && forall i :: 0 <= i < |held| ==> ReadsBack(w, held[i])
  }

  lemma LinesOfAppended(held: seq<EncodedRecord>, record: EncodedRecord)
    ensures FR.LinesOf(PayloadsOf(held + [record])) == FR.LinesOf(PayloadsOf(held)) + (record.payload + "\n")
  {
    assert PayloadsOf(held + [record]) == PayloadsOf(held) + [record.payload];
    FR.LinesOfOneMore(PayloadsOf(held), record.payload);
  }

  lemma AppendBacksIff(w: Wire, disk: FD.Disk, held: seq<EncodedRecord>, record: EncodedRecord, outcome: FD.WriteOutcome)
    requires Backs(w, disk, held) && ReadsBack(w, record)
    ensures Backs(w, FD.AfterAppend(disk, record.payload, outcome), if outcome.Stores? then held + [record] else held)
       <==> outcome.Stores? || outcome.rolledBack || outcome.kept == 0
  {
    var after := FD.AfterAppend(disk, record.payload, outcome);
    if outcome.Stores? {
      LinesOfAppended(held, record);
    } else if outcome.rolledBack || outcome.kept == 0 {
      assert after.files[disk.handle] == disk.files[disk.handle];
    } else {
      assert |after.files[disk.handle]| > after.written;
    }
  }

  lemma RotateBacks(w: Wire, disk: FD.Disk, held: seq<EncodedRecord>, millis: int, nextSeq: nat, outcome: FD.RotateOutcome)
    requires Backs(w, disk, held)
    ensures var (after, did) := FD.AfterRotate(disk, millis, nextSeq, outcome);
            Backs(w, after, if did.Restarted? then [] else held)
  {
    FR.RotateOutcomes(disk, millis, nextSeq, outcome);
    var did := FD.AfterRotate(disk, millis, nextSeq, outcome).1;
    if !did.Refused? {
      RenameBacks(w, disk, held, FD.ArchiveName(disk.path, did.to));
    }
  }

  lemma RenameBacks(w: Wire, disk: FD.Disk, held: seq<EncodedRecord>, to: string)
    requires Backs(w, disk, held) && disk.path in disk.files && to !in disk.files
    ensures Backs(w, FD.AfterRename(disk, to), held)
    ensures Backs(w, FD.AfterOpen(FD.AfterRename(disk, to)), [])
  {
  }

  function Restarts(did: Option<FD.Rotated>): bool {
    did.Some? && did.value.Restarted?
  }

  /**
   * A write does to the file what the sink's device does to its records, after an archiving if the
   * file was rotated, exactly unless part of a line stays behind.
   */
  lemma WriteBacksIff(
    w: Wire, disk: FD.Disk, held: seq<EncodedRecord>, record: EncodedRecord,
    rotation: FD.RotateOutcome, outcome: FD.WriteOutcome)
    requires Backs(w, disk, held) && ReadsBack(w, record)
    ensures var (after, did, stored) := FD.AfterWrite(disk, record, rotation, outcome);
            var kept := if Restarts(did) then [] else held;
            Backs(w, after, if stored then kept + [record] else kept) <==> !FD.LeavesPart(disk, record, rotation, outcome)
  {
    if FD.MustRotate(disk, record.payload) {
      RotateBacks(w, disk, held, record.tsMillis, record.seqNo, rotation);
      var (rotated, did) := FD.AfterRotate(disk, record.tsMillis, record.seqNo, rotation);
      if did.Restarted? {
        AppendBacksIff(w, rotated, [], record, outcome);
      }
    } else {
      AppendBacksIff(w, disk, held, record, outcome);
    }
  }

  /** What a file says of its head is what its records say, unless a failed reopening lost the file's name. */
  lemma HeadOfBacked(w: Wire, disk: FD.Disk, held: seq<EncodedRecord>, name: string)
    requires Backs(w, disk, held)
    ensures FD.HeadOnDisk(w, disk) ==
            if disk.handle == disk.path then Ok(Device(name, held).HeadSeq()) else Err(FD.CannotOpen)
  {
    if disk.handle == disk.path && held != [] {
      var n := |held| - 1;
      var earlier := FR.LinesOf(PayloadsOf(held[..n]));
      assert held == held[..n] + [held[n]];
      LinesOfAppended(held[..n], held[n]);
      assert ReadsBack(w, held[n]);
      assert earlier == "" || earlier[|earlier| - 1] == '\n';
      TailReader.LastLineOfAppended(earlier, held[n].payload);
    }
  }

  lemma ReopenBacks(w: Wire, disk: FD.Disk, held: seq<EncodedRecord>)
    requires Backs(w, disk, held)
    ensures var after := FD.AfterReopen(disk);
            after.handle == after.path && Backs(w, after, if disk.handle == disk.path then held else [])
  {
  }

  // ----- the sink over files

  datatype FileSlot = FileSlot(name: string, disk: FD.Disk, quarantined: Option<Quarantined>)

  /** The running sink over files, and every record it ever committed, in order. */
  datatype FileWorld = FileWorld(slots: seq<FileSlot>, head: Head, committed: seq<EncodedRecord>)

  /** A record, with what each file system answers, or a restart of the process. */
  datatype FileEvent =
    | FileRecord(entry: Entry, nowMillis: int, rotation: nat -> FD.RotateOutcome, outcome: nat -> FD.WriteOutcome)
    | FileRestart

  /** What a slot's file is after it was asked, whether it was rotated on the way, and whether it stored the record. */
  function Answer(slot: FileSlot, record: EncodedRecord, rotation: FD.RotateOutcome, outcome: FD.WriteOutcome)
    : (FD.Disk, Option<FD.Rotated>, bool)
  {
    if slot.quarantined.None? && FD.SizeTracked(slot.disk) then FD.AfterWrite(slot.disk, record, rotation, outcome)
    else (slot.disk, None, false)
  }

  function Accepting(slots: seq<FileSlot>, record: EncodedRecord, e: FileEvent): set<nat>
    requires e.FileRecord?
  {
    set i: nat | i < |slots| && Answer(slots[i], record, e.rotation(i), e.outcome(i)).2
  }

  /** The slots without their contents, which recording never looks at. */
  function Bare(slots: seq<FileSlot>): (bare: seq<Slot>)
    ensures |bare| == |slots|
  {
    seq(|slots|, i requires 0 <= i < |slots| => Slot(Device(slots[i].name, []), slots[i].quarantined))
  }

  /** Where the sink stands on a device whose file says what it says at the start. */
  function StoppedAtStart(w: Wire, name: string, disk: FD.Disk, head: Head): Option<Quarantined> {
    var headSeq := if head.nextSeq == 0 then 0 else head.nextSeq - 1;
    match FD.HeadOnDisk(w, disk)
    case Ok(Some(at)) => if at != headSeq then Some(Quarantined(name, Some(at), at + 1)) else None
    case _ => None
  }

  function Restarted(w: Wire, slot: FileSlot, head: Head): FileSlot {
    var disk := FD.AfterReopen(slot.disk);
    FileSlot(slot.name, disk, StoppedAtStart(w, slot.name, disk, head))
  }

  function FileStep(w: Wire, fw: FileWorld, e: FileEvent): FileWorld {
    match e
    case FileRecord(entry, nowMillis, rotation, outcome) =>
      var record := NextRecord(w, fw.head, entry, nowMillis);
      var (decided, r) := Recorded(w, SinkState(Bare(fw.slots), fw.head), entry, nowMillis, Accepting(fw.slots, record, e));
      var slots := seq(|fw.slots|, i requires 0 <= i < |fw.slots| =>
        FileSlot(fw.slots[i].name, Answer(fw.slots[i], record, rotation(i), outcome(i)).0, decided.slots[i].quarantined));
      FileWorld(slots, decided.head, if r.Ok? then fw.committed + [record] else fw.committed)
    case FileRestart =>
      var head := HeadOf(fw.committed);
      FileWorld(seq(|fw.slots|, i requires 0 <= i < |fw.slots| => Restarted(w, fw.slots[i], head)), head, fw.committed)
  }

  /** No file is left with part of a line. */
  predicate LeavesWholeLines(w: Wire, fw: FileWorld, e: FileEvent) {
    e.FileRecord? ==>
      forall i :: 0 <= i < |fw.slots| && fw.slots[i].quarantined.None? ==>
        !FD.LeavesPart(fw.slots[i].disk, NextRecord(w, fw.head, e.entry, e.nowMillis), e.rotation(i), e.outcome(i))
  }

  function FileRun(w: Wire, fw: FileWorld, events: seq<FileEvent>): FileWorld
    decreases |events|
  {
    if events == [] then fw else FileRun(w, FileStep(w, fw, events[0]), events[1..])
  }

  predicate AllLeaveWholeLines(w: Wire, fw: FileWorld, events: seq<FileEvent>)
    decreases |events|
  {
    events == [] || (LeavesWholeLines(w, fw, events[0]) && AllLeaveWholeLines(w, FileStep(w, fw, events[0]), events[1..]))
  }

  // ----- the simulation

  ghost predicate SlotShadows(w: Wire, slot: FileSlot, shadow: Slot) {
    slot.name == shadow.device.name && slot.quarantined == shadow.quarantined && Backs(w, slot.disk, shadow.device.held)
  }

  /** Every file backs the records that the sink on records has on the device. */
  ghost predicate Shadows(w: Wire, fw: FileWorld, world: World) {
    && |fw.slots| == |world.sink.slots| && fw.head == world.sink.head && fw.committed == world.committed
    && forall i :: 0 <= i < |fw.slots| ==> SlotShadows(w, fw.slots[i], world.sink.slots[i])
  }

  ghost predicate SameDecisions(a: seq<Slot>, b: seq<Slot>) {
    |a| == |b| && forall i :: 0 <= i < |a| ==> a[i].device.name == b[i].device.name && a[i].quarantined == b[i].quarantined
  }

  lemma {:induction false} SameRefusals(a: seq<Slot>, b: seq<Slot>, accepting: set<nat>, n: nat)
    requires SameDecisions(a, b) && n <= |a|
    ensures Refusals(a, accepting, n) == Refusals(b, accepting, n)
    ensures SomeStore(a, accepting, n) <==> SomeStore(b, accepting, n)
  {
    if n > 0 {
      SameRefusals(a, b, accepting, n - 1);
    }
    forall i | 0 <= i < n ensures Stores(a, accepting, i) <==> Stores(b, accepting, i) {
    }
  }

  /** Whom a record stops, and whether it is refused, does not depend on what the devices hold. */
  lemma DecisionsIgnoreContents(w: Wire, a: SinkState, b: SinkState, entry: Entry, nowMillis: int, accepting: set<nat>)
    requires SameDecisions(a.slots, b.slots) && a.head == b.head
    ensures var (x, r) := Recorded(w, a, entry, nowMillis, accepting);
            var (y, s) := Recorded(w, b, entry, nowMillis, accepting);
            SameDecisions(x.slots, y.slots) && x.head == y.head && (r.Ok? <==> s.Ok?)
  {
    SameRefusals(a.slots, b.slots, accepting, |a.slots|);
  }

  /** What a device holds after a record: one more if it stored it, and what it held otherwise. */
  lemma ContentsAfterRecord(w: Wire, s: SinkState, entry: Entry, nowMillis: int, accepting: set<nat>, i: nat)
    requires i < |s.slots|
    ensures var (after, _) := Recorded(w, s, entry, nowMillis, accepting);
            && |after.slots| == |s.slots|
            && after.slots[i].device.held ==
               s.slots[i].device.held + if Stores(s.slots, accepting, i) then [NextRecord(w, s.head, entry, nowMillis)] else []
  {
    assert Stores(s.slots, accepting, i) ==> SomeStore(s.slots, accepting, |s.slots|);
    assert s.slots[i].device.held + [] == s.slots[i].device.held;
  }

  lemma NextIsReadable(w: Wire, head: Head, entry: Entry, nowMillis: int)
    requires w.Lawful()
    ensures ReadsBack(w, NextRecord(w, head, entry, nowMillis))
  {
    var record := NextRecord(w, head, entry, nowMillis);
    assert w.parse(record.payload) == Some(Header(record.seqNo, Hex.Encoded(head.prevHash)));
  }

  /** The records that leave the devices while the files are rotated. */
  ghost function RotatedAway(fw: FileWorld, world: World, record: EncodedRecord, e: FileEvent): map<nat, nat>
    requires e.FileRecord? && |fw.slots| == |world.sink.slots|
  {
    map i: nat | i < |fw.slots| && Restarts(Answer(fw.slots[i], record, e.rotation(i), e.outcome(i)).1)
      :: |world.sink.slots[i].device.held|
  }

  lemma AnsweredSlotShadows(
    w: Wire, slot: FileSlot, shadow: Slot, record: EncodedRecord, rotation: FD.RotateOutcome, outcome: FD.WriteOutcome)
    requires SlotShadows(w, slot, shadow) && ReadsBack(w, record)
    requires slot.quarantined.None? ==> !FD.LeavesPart(slot.disk, record, rotation, outcome)
    ensures var (disk, did, stored) := Answer(slot, record, rotation, outcome);
            var kept := if Restarts(did) then [] else shadow.device.held;
            && (stored ==> slot.quarantined.None?)
            && Backs(w, disk, kept + if stored then [record] else [])
  {
    if slot.quarantined.None? {
      WriteBacksIff(w, slot.disk, shadow.device.held, record, rotation, outcome);
    }
    assert shadow.device.held + [] == shadow.device.held;
  }

  /** One slot through a record: its file and its shadow agree again afterwards. */
  lemma RecordedSlotShadows(
    w: Wire, slot: FileSlot, shadow: Slot, record: EncodedRecord, rotation: FD.RotateOutcome, outcome: FD.WriteOutcome,
    after: FileSlot, next: Slot)
    requires SlotShadows(w, slot, shadow) && ReadsBack(w, record)
    requires slot.quarantined.None? ==> !FD.LeavesPart(slot.disk, record, rotation, outcome)
    requires var (disk, did, stored) := Answer(slot, record, rotation, outcome);
             && after.name == slot.name && after.disk == disk && after.quarantined == next.quarantined
             && next.device.name == shadow.device.name
             && next.device.held == (if Restarts(did) then [] else shadow.device.held) + (if stored then [record] else [])
    ensures SlotShadows(w, after, next)
  {
    AnsweredSlotShadows(w, slot, shadow, record, rotation, outcome);
  }

  lemma ShadowsDecideAlike(w: Wire, fw: FileWorld, world: World, lost: map<nat, nat>)
    requires Shadows(w, fw, world)
    ensures SameDecisions(Bare(fw.slots), Step(w, world, Drop(lost)).sink.slots)
  {
    forall i | 0 <= i < |fw.slots|
      ensures var dropped := Step(w, world, Drop(lost)).sink.slots;
              Bare(fw.slots)[i].device.name == dropped[i].device.name && Bare(fw.slots)[i].quarantined == dropped[i].quarantined
    {
      assert SlotShadows(w, fw.slots[i], world.sink.slots[i]);
    }
  }

  lemma LostInRotation(fw: FileWorld, world: World, record: EncodedRecord, e: FileEvent, i: nat)
    requires e.FileRecord? && i < |fw.slots| == |world.sink.slots|
    ensures var did := Answer(fw.slots[i], record, e.rotation(i), e.outcome(i)).1;
            Dropped(world.sink.slots[i], LostBy(RotatedAway(fw, world, record, e), i)).device.held
            == if Restarts(did) then [] else world.sink.slots[i].device.held
  {
  }

  /** A device's name and the records it holds after the archiving and the record. */
  lemma ShadowAfterRecord(w: Wire, fw: FileWorld, world: World, e: FileEvent, i: nat)
    requires Shadows(w, fw, world) && e.FileRecord? && i < |fw.slots|
    ensures var record := NextRecord(w, fw.head, e.entry, e.nowMillis);
            var dropped := Step(w, world, Drop(RotatedAway(fw, world, record, e)));
            var (after, _) := Recorded(w, dropped.sink, e.entry, e.nowMillis, Accepting(fw.slots, record, e));
            var (_, did, stored) := Answer(fw.slots[i], record, e.rotation(i), e.outcome(i));
            && i < |after.slots| && after.slots[i].device.name == world.sink.slots[i].device.name
            && after.slots[i].device.held ==
               (if Restarts(did) then [] else world.sink.slots[i].device.held) + (if stored then [record] else [])
  {
    var record := NextRecord(w, fw.head, e.entry, e.nowMillis);
    var accepting, lost := Accepting(fw.slots, record, e), RotatedAway(fw, world, record, e);
    var dropped := Step(w, world, Drop(lost));
    assert SlotShadows(w, fw.slots[i], world.sink.slots[i]);
    LostInRotation(fw, world, record, e, i);
    ContentsAfterRecord(w, dropped.sink, e.entry, e.nowMillis, accepting, i);
    assert Stores(dropped.sink.slots, accepting, i) <==> Answer(fw.slots[i], record, e.rotation(i), e.outcome(i)).2;
  }

  lemma FileSlotAfterRecord(w: Wire, fw: FileWorld, e: FileEvent, s: SinkState, i: nat)
    requires e.FileRecord? && i < |fw.slots| && SameDecisions(Bare(fw.slots), s.slots) && s.head == fw.head
    ensures var record := NextRecord(w, fw.head, e.entry, e.nowMillis);
            var (sink, r) := Recorded(w, s, e.entry, e.nowMillis, Accepting(fw.slots, record, e));
            var after := FileStep(w, fw, e);
            && |after.slots| == |fw.slots| == |sink.slots| && after.head == sink.head
            && after.committed == (if r.Ok? then fw.committed + [record] else fw.committed)
            && after.slots[i] == FileSlot(fw.slots[i].name, Answer(fw.slots[i], record, e.rotation(i), e.outcome(i)).0,
                                          sink.slots[i].quarantined)
  {
    var record := NextRecord(w, fw.head, e.entry, e.nowMillis);
    DecisionsIgnoreContents(w, SinkState(Bare(fw.slots), fw.head), s, e.entry, e.nowMillis, Accepting(fw.slots, record, e));
  }

  /** A record over files is, on records, the archiving of what was rotated and then a record the same devices accept. */
  lemma RecordShadows(w: Wire, fw: FileWorld, world: World, e: FileEvent) returns (drop: Event, record: Event)
    requires w.Lawful() && Shadows(w, fw, world) && e.FileRecord? && LeavesWholeLines(w, fw, e)
    ensures drop.Drop? && record.Record?
    ensures Shadows(w, FileStep(w, fw, e), Step(w, Step(w, world, drop), record))
  {
    var next := NextRecord(w, fw.head, e.entry, e.nowMillis);
    var lost := RotatedAway(fw, world, next, e);
    drop, record := Drop(lost), Record(e.entry, e.nowMillis, Accepting(fw.slots, next, e));
    NextIsReadable(w, fw.head, e.entry, e.nowMillis);
    ShadowsDecideAlike(w, fw, world, lost);
    var dropped := Step(w, world, drop);
    DecisionsIgnoreContents(w, SinkState(Bare(fw.slots), fw.head), dropped.sink, e.entry, e.nowMillis, record.accepting);
    var after, shadow := FileStep(w, fw, e), Step(w, dropped, record);
    forall i | 0 <= i < |fw.slots| ensures SlotShadows(w, after.slots[i], shadow.sink.slots[i]) {
      FileSlotAfterRecord(w, fw, e, dropped.sink, i);
      ShadowAfterRecord(w, fw, world, e, i);
      assert SlotShadows(w, fw.slots[i], world.sink.slots[i]);
      RecordedSlotShadows(w, fw.slots[i], world.sink.slots[i], next, e.rotation(i), e.outcome(i),
                          after.slots[i], shadow.sink.slots[i]);
    }
  }

  ghost function LostNames(fw: FileWorld, world: World): map<nat, nat>
    requires |fw.slots| == |world.sink.slots|
  {
    map i: nat | i < |fw.slots| && fw.slots[i].disk.handle != fw.slots[i].disk.path :: |world.sink.slots[i].device.held|
  }

  lemma RestartedSlotShadows(w: Wire, slot: FileSlot, shadow: Slot, head: Head)
    requires SlotShadows(w, slot, shadow)
    ensures var held := if slot.disk.handle == slot.disk.path then shadow.device.held else [];
            SlotShadows(w, Restarted(w, slot, head), OpenedSlot(Device(slot.name, held), head, true))
  {
    var held := if slot.disk.handle == slot.disk.path then shadow.device.held else [];
    ReopenBacks(w, slot.disk, shadow.device.held);
    HeadOfBacked(w, FD.AfterReopen(slot.disk), held, slot.name);
  }

  /** A restart over files can read every head, so it is an admissible restart on records. */
  lemma RestartShadows(w: Wire, fw: FileWorld, world: World) returns (drop: Event, restart: Event)
    requires Shadows(w, fw, world)
    ensures drop.Drop? && restart.Restart? && Admissible(Step(w, world, drop), restart)
    ensures Shadows(w, FileStep(w, fw, FileRestart), Step(w, Step(w, world, drop), restart))
  {
    drop, restart := Drop(LostNames(fw, world)), Restart(HeadOf(fw.committed), Below(|fw.slots|));
    var head, dropped := HeadOf(fw.committed), Step(w, world, drop);
    var after, shadow := FileStep(w, fw, FileRestart), Step(w, dropped, restart);
    forall i | 0 <= i < |fw.slots| ensures SlotShadows(w, after.slots[i], shadow.sink.slots[i]) {
      RestartedSlotShadows(w, fw.slots[i], world.sink.slots[i], head);
      var held := if fw.slots[i].disk.handle == fw.slots[i].disk.path then world.sink.slots[i].device.held else [];
      assert dropped.sink.slots[i].device == Device(fw.slots[i].name, held);
    }
  }

  /** A step over files is an admissible run of the sink on records. */
  lemma StepShadows(w: Wire, fw: FileWorld, world: World, e: FileEvent) returns (after: World)
    requires w.Lawful() && Safe(w, world) && Shadows(w, fw, world) && LeavesWholeLines(w, fw, e)
    ensures Shadows(w, FileStep(w, fw, e), after) && Safe(w, after)
  {
    var drop, second;
    if e.FileRecord? {
      drop, second := RecordShadows(w, fw, world, e);
    } else {
      drop, second := RestartShadows(w, fw, world);
    }
    StepKeepsSafe(w, world, drop);
    StepKeepsSafe(w, Step(w, world, drop), second);
    after := Step(w, Step(w, world, drop), second);
  }

  lemma {:induction false} RunShadows(w: Wire, fw: FileWorld, world: World, events: seq<FileEvent>)
    returns (after: World)
    requires w.Lawful() && Safe(w, world) && Shadows(w, fw, world) && AllLeaveWholeLines(w, fw, events)
    ensures Shadows(w, FileRun(w, fw, events), after) && Safe(w, after)
    decreases |events|
  {
    if events == [] {
      after := world;
    } else {
      var next := StepShadows(w, fw, world, events[0]);
      after := RunShadows(w, FileStep(w, fw, events[0]), next, events[1..]);
    }
  }

  // ----- what a reader of the files finds

  /** The open file is a gapless stretch of the committed records and verifies from its own first line. */
  ghost predicate HoldsStretch(w: Wire, disk: FD.Disk, committed: seq<EncodedRecord>, a: nat, b: nat) {
    && a <= b <= |committed| && disk.handle in disk.files
    && disk.files[disk.handle] == FR.LinesOf(PayloadsOf(committed[a..b]))
    && (a < b ==>
          && committed[a..b][0].seqNo > 0
          && VerifyFrom(w, StartOf(committed[a..b]), StoredOf(committed[a..b])) ==
             Ok(Verified(b - a, committed[b - 1].seqNo, committed[b - 1].hash)))
  }

  lemma StretchOf(w: Wire, held: seq<EncodedRecord>, committed: seq<EncodedRecord>) returns (a: nat, b: nat)
    requires Trail(w, committed) && HoldsRun(held, committed)
    ensures a <= b <= |committed| && committed[a..b] == held && b - a == |held|
    ensures held != [] ==> committed[b - 1] == held[|held| - 1]
    ensures InStep(held, committed) ==> b == |committed|
  {
    if held == [] {
      a, b := |committed|, |committed|;
    } else {
      a, b := held[0].seqNo - 1, held[0].seqNo - 1 + |held|;
      AtHeadIsInStep(w, held, committed);
      assert committed[a..b][|held| - 1] == committed[b - 1];
      assert Chained(w, committed, b - 1);
    }
  }

  lemma SafeFileHoldsStretch(w: Wire, fw: FileWorld, world: World, i: nat) returns (a: nat, b: nat)
    requires Safe(w, world) && Shadows(w, fw, world) && i < |fw.slots|
    ensures HoldsStretch(w, fw.slots[i].disk, fw.committed, a, b)
    ensures fw.slots[i].quarantined.None? ==> b == |fw.committed|
  {
    assert SlotShadows(w, fw.slots[i], world.sink.slots[i]) && SlotSafe(world.sink.slots[i], world.committed);
    SafeDeviceVerifies(w, world, i);
    a, b := StretchOf(w, world.sink.slots[i].device.held, world.committed);
  }

  /**
   * From files that begin empty, through any records, rotations, failing renames, reopenings and
   * writes that are cut back, and restarts at the committed head: every open file holds a gapless
   * stretch of the committed records that verifies, and one that is written to holds the newest.
   */
  lemma FilesHoldCommittedStretches(w: Wire, slots: seq<FileSlot>, events: seq<FileEvent>, i: nat)
    returns (a: nat, b: nat)
    requires w.Lawful() && i < |slots|
    requires forall k :: 0 <= k < |slots| ==> slots[k].quarantined.None? && Backs(w, slots[k].disk, [])
    requires AllLeaveWholeLines(w, FileWorld(slots, START, []), events)
    ensures var after := FileRun(w, FileWorld(slots, START, []), events);
            && i < |after.slots| && HoldsStretch(w, after.slots[i].disk, after.committed, a, b)
            && (after.slots[i].quarantined.None? ==> b == |after.committed|)
  {
    var start, world := FileWorld(slots, START, []), World(SinkState(Bare(slots), START), []);
    assert forall k :: 0 <= k < |slots| ==> SlotShadows(w, slots[k], Bare(slots)[k]);
    assert forall k :: 0 <= k < |slots| ==> SlotSafe(Bare(slots)[k], []);
    FileRunKeepsSlots(w, start, events);
    var last := RunShadows(w, start, world, events);
    a, b := SafeFileHoldsStretch(w, FileRun(w, start, events), last, i);
  }

  lemma {:induction false} FileRunKeepsSlots(w: Wire, fw: FileWorld, events: seq<FileEvent>)
    ensures |FileRun(w, fw, events).slots| == |fw.slots|
    decreases |events|
  {
    if events != [] {
      FileRunKeepsSlots(w, FileStep(w, fw, events[0]), events[1..]);
    }
  }
}
