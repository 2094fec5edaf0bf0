/**
 * A device's archives together with its live file: which of the committed records they hold
 * (crates/ciphr-audit/src/device.rs over crates/ciphr-audit/src/file.rs).
 */
module FileTrails {
  import opened Basics
  import opened Chain
  import opened Sink
  import opened SinkRuns
  import opened FileSink
  import opened Verify
  import FD = FileDevice
  import FR = FileRuns
  import TailReader

  // ----- one slot of the sink as a run of its file

  function Next(w: Wire, fw: FileWorld, e: FileEvent): EncodedRecord
    requires e.FileRecord?
  {
    NextRecord(w, fw.head, e.entry, e.nowMillis)
  }

  /** What an event is to the file of one slot. */
  function SlotEvents(w: Wire, fw: FileWorld, e: FileEvent, i: nat): seq<FR.Event>
    requires i < |fw.slots|
  {
    match e
    case FileRecord(_, _, rotation, outcome) =>
      if fw.slots[i].quarantined.None? then [FR.Write(Next(w, fw, e), rotation(i), outcome(i))] else []
    case FileRestart => [FR.Reopen]
  }

  /** The record that the slot's file stored, if it did. */
  function StoredAt(w: Wire, fw: FileWorld, e: FileEvent, i: nat): seq<EncodedRecord>
    requires i < |fw.slots|
  {
    if e.FileRecord? && Answer(fw.slots[i], Next(w, fw, e), e.rotation(i), e.outcome(i)).2 then [Next(w, fw, e)] else []
  }

  function SlotRun(w: Wire, fw: FileWorld, events: seq<FileEvent>, i: nat): seq<FR.Event>
    requires i < |fw.slots|
    decreases |events|
  {
    if events == [] then []
    else SlotEvents(w, fw, events[0], i) + SlotRun(w, FileStep(w, fw, events[0]), events[1..], i)
  }

  /** Every record that the slot's files ever stored, in order. */
  function StoredRun(w: Wire, fw: FileWorld, events: seq<FileEvent>, i: nat): seq<EncodedRecord>
    requires i < |fw.slots|
    decreases |events|
  {
    if events == [] then []
    else StoredAt(w, fw, events[0], i) + StoredRun(w, FileStep(w, fw, events[0]), events[1..], i)
  }

  lemma SlotStepIsFileStep(w: Wire, fw: FileWorld, e: FileEvent, i: nat, t: FR.Tracked) returns (next: FR.Tracked)
    requires i < |fw.slots| && FR.Valid(t) && t.disk == fw.slots[i].disk && LeavesWholeLines(w, fw, e)
    ensures FR.Valid(next) && i < |FileStep(w, fw, e).slots| && next.disk == FileStep(w, fw, e).slots[i].disk
    ensures next.log.before == t.log.before
    ensures Flatten(next.log.accepted) == Flatten(t.log.accepted) + PayloadsOf(StoredAt(w, fw, e, i))
    ensures var events := SlotEvents(w, fw, e, i);
            FR.Clean(t, events) && FR.Run(t, events) == next
  {
    var events := SlotEvents(w, fw, e, i);
    if events == [] {
      next := t;
      assert Flatten(t.log.accepted) + [] == Flatten(t.log.accepted);
    } else {
      var step := events[0];
      assert !FR.LeavesFragment(t, step);
      FR.StepKeepsValidIff(t, step);
      FR.StepLogsAccepted(t, step);
      next := FR.Step(t, step);
      assert FR.StoredBy(t, step) == PayloadsOf(StoredAt(w, fw, e, i));
      RunOfOne(t, step);
    }
  }

  lemma RunOfOne(t: FR.Tracked, e: FR.Event)
    requires FR.Valid(t) && !FR.LeavesFragment(t, e)
    ensures FR.Clean(t, [e]) && FR.Run(t, [e]) == FR.Step(t, e)
  {
    FR.StepKeepsValidIff(t, e);
    assert FR.Clean(FR.Step(t, e), []) && FR.Run(FR.Step(t, e), []) == FR.Step(t, e);
  }

  lemma {:induction false} RunOfTwo(t: FR.Tracked, a: seq<FR.Event>, b: seq<FR.Event>)
    requires FR.Valid(t) && FR.Clean(t, a) && FR.Clean(FR.Run(t, a), b)
    ensures FR.Clean(t, a + b) && FR.Run(t, a + b) == FR.Run(FR.Run(t, a), b)
    decreases |a|
  {
    if a == [] {
      assert a + b == b;
    } else {
      FR.StepKeepsValidIff(t, a[0]);
      assert (a + b)[0] == a[0] && (a + b)[1..] == a[1..] + b;
      RunOfTwo(FR.Step(t, a[0]), a[1..], b);
    }
  }

  // ----- what every step keeps

  /** The trail of what was committed, and the head at its end. */
  predicate OnTrail(w: Wire, fw: FileWorld) {
    Trail(w, fw.committed) && fw.head == HeadOf(fw.committed)
  }

  /**
   * The slot's files in the order they were created hold the records `all`, which were committed
   * without a gap, and up to the newest while the slot is written to.
   */
  ghost predicate Whole(w: Wire, fw: FileWorld, i: nat, t: FR.Tracked, all: seq<EncodedRecord>) {
    && i < |fw.slots| && OnTrail(w, fw)
    && FR.Valid(t) && t.disk == fw.slots[i].disk && t.log.before == ""
    && Flatten(t.log.accepted) == PayloadsOf(all)
    && (forall k :: 0 <= k < |all| ==> ReadsBack(w, all[k]))
    && SlotSafe(Slot(Device(fw.slots[i].name, all), fw.slots[i].quarantined), fw.committed)
  }

  lemma PayloadsOfConcat(a: seq<EncodedRecord>, b: seq<EncodedRecord>)
    ensures PayloadsOf(a + b) == PayloadsOf(a) + PayloadsOf(b)
  {
  }

  lemma NextNumber(w: Wire, fw: FileWorld)
    requires OnTrail(w, fw)
    ensures fw.head.nextSeq == |fw.committed| + 1
  {
    if fw.committed != [] {
      assert Chained(w, fw.committed, |fw.committed| - 1);
    }
  }

  /** What a record does to one slot over files. */
  lemma SlotAfterRecord(w: Wire, fw: FileWorld, e: FileEvent, i: nat)
    requires i < |fw.slots| && e.FileRecord?
    ensures var after, record := FileStep(w, fw, e), Next(w, fw, e);
            var before, now := fw.slots[i].quarantined, after.slots[i].quarantined;
            && |after.slots| == |fw.slots| && after.slots[i].name == fw.slots[i].name
            && (after.committed == fw.committed || after.committed == fw.committed + [record])
            && (after.committed == fw.committed ==> now == before && after.head == fw.head)
            && (after.committed != fw.committed ==> after.head == HeadAfter(record))
            && (StoredAt(w, fw, e, i) == [record] ==> before.None? && after.committed == fw.committed + [record])
            && (StoredAt(w, fw, e, i) == [] && now.None? ==> before.None? && after.committed == fw.committed)
  {
    SlotIsBare(w, fw, e, i);
    BareOutcome(w, fw, e, i);
  }

  /** The decision about a record, made without looking at any file. */
  function Decided(w: Wire, fw: FileWorld, e: FileEvent): World
    requires e.FileRecord?
  {
    Step(w, World(SinkState(Bare(fw.slots), fw.head), fw.committed),
         Record(e.entry, e.nowMillis, Accepting(fw.slots, Next(w, fw, e), e)))
  }

  lemma SlotIsBare(w: Wire, fw: FileWorld, e: FileEvent, i: nat)
    requires i < |fw.slots| && e.FileRecord?
    ensures var after, bare := FileStep(w, fw, e), Decided(w, fw, e);
            && |after.slots| == |fw.slots| == |bare.sink.slots| && after.slots[i].name == fw.slots[i].name
            && after.committed == bare.committed && after.head == bare.sink.head
            && after.slots[i].quarantined == bare.sink.slots[i].quarantined
  {
    FileSlotAfterRecord(w, fw, e, SinkState(Bare(fw.slots), fw.head), i);
  }

  lemma BareOutcome(w: Wire, fw: FileWorld, e: FileEvent, i: nat)
    requires i < |fw.slots| && e.FileRecord?
    ensures var bare, record := Decided(w, fw, e), Next(w, fw, e);
            && |bare.sink.slots| == |fw.slots|
            && var before, now := fw.slots[i].quarantined, bare.sink.slots[i].quarantined;
            && (bare.committed == fw.committed || bare.committed == fw.committed + [record])
            && (bare.committed == fw.committed ==> now == before && bare.sink.head == fw.head)
            && (bare.committed != fw.committed ==> bare.sink.head == HeadAfter(record))
            && (StoredAt(w, fw, e, i) == [record] ==> before.None? && bare.committed == fw.committed + [record])
            && (StoredAt(w, fw, e, i) == [] && now.None? ==> before.None? && bare.committed == fw.committed)
  {
    var slots, accepting := Bare(fw.slots), Accepting(fw.slots, Next(w, fw, e), e);
    var world := World(SinkState(slots, fw.head), fw.committed);
    StoredIsStores(w, fw, e, i);
    RecordOutcome(w, world, e.entry, e.nowMillis, accepting, i);
    HeadOutcome(w, world, e.entry, e.nowMillis, accepting, i);
  }

  lemma StoredIsStores(w: Wire, fw: FileWorld, e: FileEvent, i: nat)
    requires i < |fw.slots| && e.FileRecord?
    ensures var accepting := Accepting(fw.slots, Next(w, fw, e), e);
            Stores(Bare(fw.slots), accepting, i) <==> StoredAt(w, fw, e, i) == [Next(w, fw, e)]
  {
  }

  lemma HeadOutcome(w: Wire, world: World, entry: Entry, nowMillis: int, accepting: set<nat>, i: nat)
    requires i < |world.sink.slots|
    ensures var after := Step(w, world, Record(entry, nowMillis, accepting));
            && |after.sink.slots| == |world.sink.slots|
            && (after.committed == world.committed ==> after.sink.head == world.sink.head)
            && (after.committed != world.committed ==>
                  after.sink.head == HeadAfter(NextRecord(w, world.sink.head, entry, nowMillis)))
            && (world.sink.slots[i].quarantined.Some? ==> after.sink.slots[i].quarantined.Some?)
  {
    assert |world.committed + [NextRecord(w, world.sink.head, entry, nowMillis)]| != |world.committed|;
  }

  lemma RecordKeepsTrail(w: Wire, fw: FileWorld, e: FileEvent)
    requires w.Lawful() && OnTrail(w, fw) && e.FileRecord? && fw.slots != []
    ensures OnTrail(w, FileStep(w, fw, e))
  {
    SlotAfterRecord(w, fw, e, 0);
    RecordExtendsTrailIff(w, fw.committed, fw.head, e.entry, e.nowMillis);
  }

  lemma RecordKeepsAllSafe(w: Wire, fw: FileWorld, e: FileEvent, i: nat, all: seq<EncodedRecord>)
    requires w.Lawful() && i < |fw.slots| && OnTrail(w, fw) && e.FileRecord?
    requires SlotSafe(Slot(Device(fw.slots[i].name, all), fw.slots[i].quarantined), fw.committed)
    ensures var after := FileStep(w, fw, e);
            && i < |after.slots|
            && SlotSafe(Slot(Device(after.slots[i].name, all + StoredAt(w, fw, e, i)), after.slots[i].quarantined),
                        after.committed)
  {
    var record := Next(w, fw, e);
    SlotAfterRecord(w, fw, e, i);
    NextNumber(w, fw);
    if StoredAt(w, fw, e, i) == [record] {
      StoringKeepsStep(w, all, fw.committed, record);
    } else {
      GrowthKeepsRun(all, fw.committed, record);
      assert all + [] == all;
    }
  }

  /** At a start the file under the device's name is empty, so the device is let back in. */
  predicate Emptied(disk: FD.Disk) {
    disk.path !in disk.files || disk.files[disk.path] == ""
  }

  /** A device with an empty file either never stored anything or has archived the newest record. */
  predicate RejoinsInStep(slot: FileSlot, all: seq<EncodedRecord>, committed: seq<EncodedRecord>) {
    Emptied(slot.disk) ==> all == [] || all[|all| - 1].seqNo == |committed|
  }

  lemma LastOfFlattened(parts: seq<seq<string>>)
    requires parts != [] && parts[|parts| - 1] != []
    ensures var live, whole := parts[|parts| - 1], Flatten(parts);
            whole != [] && whole[|whole| - 1] == live[|live| - 1]
  {
    var n := |parts| - 1;
    assert parts == parts[..n] + [parts[n]];
    FlattenAppend(parts[..n], [parts[n]]);
    var one := [parts[n]];
    assert one[1..] == [] && Flatten(one) == parts[n];
  }

  /** What the live file says at a start is the number of the newest record of all the files. */
  lemma HeadIsNewest(w: Wire, t: FR.Tracked, all: seq<EncodedRecord>)
    requires FR.Valid(t) && t.log.before == "" && t.disk.handle == t.disk.path
    requires Flatten(t.log.accepted) == PayloadsOf(all) && forall k :: 0 <= k < |all| ==> ReadsBack(w, all[k])
    ensures if t.disk.files[t.disk.path] == "" then FD.HeadOnDisk(w, t.disk) == Ok(None)
            else all != [] && FD.HeadOnDisk(w, t.disk) == Ok(Some(all[|all| - 1].seqNo))
  {
    FR.OpenFileHolds(t);
    var live := FR.Current(t.log);
    FR.EmptyWithoutLines(live);
    FR.NothingBefore(FR.LinesOf(live));
    if live != [] {
      LastOfFlattened(t.log.accepted);
      var n := |all| - 1;
      assert PayloadsOf(all)[n] == all[n].payload == live[|live| - 1] && ReadsBack(w, all[n]);
      FR.HeadIsLastAccepted(w, t);
    }
  }

  lemma ReopenedSlot(w: Wire, fw: FileWorld, i: nat)
    requires i < |fw.slots| && OnTrail(w, fw)
    ensures var after := FileStep(w, fw, FileRestart);
            && |after.slots| == |fw.slots| && OnTrail(w, after) && after.committed == fw.committed
            && after.slots[i].disk == FD.AfterReopen(fw.slots[i].disk) && after.slots[i].name == fw.slots[i].name
            && (after.slots[i].quarantined.None? <==>
                  var head := FD.HeadOnDisk(w, after.slots[i].disk);
                  head.Ok? && head.value.Some? ==> head.value.value == |fw.committed|)
  {
    NextNumber(w, fw);
  }

  /** Who is let back in holds the newest record, live or archived. */
  lemma RestartedAllSafe(w: Wire, fw: FileWorld, i: nat, t: FR.Tracked, all: seq<EncodedRecord>)
    requires i < |fw.slots| && OnTrail(w, fw) && RejoinsInStep(fw.slots[i], all, fw.committed)
    requires HoldsRun(all, fw.committed)
    requires FR.Valid(t) && t.disk == FD.AfterReopen(fw.slots[i].disk) && t.log.before == ""
    requires Flatten(t.log.accepted) == PayloadsOf(all) && forall k :: 0 <= k < |all| ==> ReadsBack(w, all[k])
    ensures var slot := FileStep(w, fw, FileRestart).slots[i];
            SlotSafe(Slot(Device(slot.name, all), slot.quarantined), fw.committed)
  {
    ReopenedSlot(w, fw, i);
    HeadIsNewest(w, t, all);
    if all == [] {
      assert InStep(all, fw.committed);
    } else {
      AtHeadIsInStep(w, all, fw.committed);
    }
  }

  lemma RestartKeepsWhole(w: Wire, fw: FileWorld, i: nat, t: FR.Tracked, all: seq<EncodedRecord>, next: FR.Tracked)
    requires Whole(w, fw, i, t, all) && RejoinsInStep(fw.slots[i], all, fw.committed)
    requires FR.Valid(next) && next.disk == FD.AfterReopen(fw.slots[i].disk) && next.log.before == ""
    requires Flatten(next.log.accepted) == PayloadsOf(all)
    ensures Whole(w, FileStep(w, fw, FileRestart), i, next, all)
  {
    ReopenedSlot(w, fw, i);
    RestartedAllSafe(w, fw, i, next, all);
  }

  lemma RecordKeepsWhole(
    w: Wire, fw: FileWorld, e: FileEvent, i: nat, t: FR.Tracked, all: seq<EncodedRecord>, next: FR.Tracked)
    requires w.Lawful() && Whole(w, fw, i, t, all) && e.FileRecord?
    requires FR.Valid(next) && next.log.before == ""
    requires i < |FileStep(w, fw, e).slots| && next.disk == FileStep(w, fw, e).slots[i].disk
    requires Flatten(next.log.accepted) == PayloadsOf(all + StoredAt(w, fw, e, i))
    ensures Whole(w, FileStep(w, fw, e), i, next, all + StoredAt(w, fw, e, i))
  {
    RecordKeepsTrail(w, fw, e);
    RecordKeepsAllSafe(w, fw, e, i, all);
    NextIsReadable(w, fw.head, e.entry, e.nowMillis);
  }

  lemma StepKeepsWhole(w: Wire, fw: FileWorld, e: FileEvent, i: nat, t: FR.Tracked, all: seq<EncodedRecord>)
    returns (next: FR.Tracked)
    requires w.Lawful() && Whole(w, fw, i, t, all) && LeavesWholeLines(w, fw, e)
    requires e.FileRestart? ==> RejoinsInStep(fw.slots[i], all, fw.committed)
    ensures Whole(w, FileStep(w, fw, e), i, next, all + StoredAt(w, fw, e, i))
    ensures var events := SlotEvents(w, fw, e, i);
            FR.Clean(t, events) && FR.Run(t, events) == next
  {
    next := SlotStepIsFileStep(w, fw, e, i, t);
    PayloadsOfConcat(all, StoredAt(w, fw, e, i));
    if e.FileRecord? {
      RecordKeepsWhole(w, fw, e, i, t, all, next);
    } else {
      assert all + [] == all;
      ReopenedSlot(w, fw, i);
      RestartKeepsWhole(w, fw, i, t, all, next);
    }
  }

  // ----- whole runs

  /** At no restart is the device let back in with an empty file while its archives miss something. */
  predicate NeverRejoinsBehind(w: Wire, fw: FileWorld, events: seq<FileEvent>, i: nat, all: seq<EncodedRecord>)
    requires i < |fw.slots|
    decreases |events|
  {
    events == [] ||
    (&& (events[0].FileRestart? ==> RejoinsInStep(fw.slots[i], all, fw.committed))
     && NeverRejoinsBehind(w, FileStep(w, fw, events[0]), events[1..], i, all + StoredAt(w, fw, events[0], i)))
  }

  lemma RunGrows(
    w: Wire, fw: FileWorld, events: seq<FileEvent>, i: nat, t: FR.Tracked, next: FR.Tracked, last: FR.Tracked)
    requires i < |fw.slots| && events != [] && FR.Valid(t) && FR.Valid(next)
    requires FR.Clean(t, SlotEvents(w, fw, events[0], i)) && FR.Run(t, SlotEvents(w, fw, events[0], i)) == next
    requires i < |FileStep(w, fw, events[0]).slots|
    requires var rest := SlotRun(w, FileStep(w, fw, events[0]), events[1..], i);
             FR.Clean(next, rest) && FR.Run(next, rest) == last
    ensures FR.Clean(t, SlotRun(w, fw, events, i)) && FR.Run(t, SlotRun(w, fw, events, i)) == last
  {
    RunOfTwo(t, SlotEvents(w, fw, events[0], i), SlotRun(w, FileStep(w, fw, events[0]), events[1..], i));
  }

  lemma StoredGrows(w: Wire, fw: FileWorld, events: seq<FileEvent>, i: nat, all: seq<EncodedRecord>)
    requires i < |fw.slots| && events != [] && i < |FileStep(w, fw, events[0]).slots|
    ensures all + StoredRun(w, fw, events, i) ==
            all + StoredAt(w, fw, events[0], i) + StoredRun(w, FileStep(w, fw, events[0]), events[1..], i)
    ensures FileRun(w, fw, events) == FileRun(w, FileStep(w, fw, events[0]), events[1..])
  {
    Regroup(all, StoredAt(w, fw, events[0], i), StoredRun(w, FileStep(w, fw, events[0]), events[1..], i));
  }

  lemma FirstStepKeepsWhole(
    w: Wire, fw: FileWorld, events: seq<FileEvent>, i: nat, t: FR.Tracked, all: seq<EncodedRecord>)
    returns (next: FR.Tracked, stepped: FileWorld, stored: seq<EncodedRecord>)
    requires w.Lawful() && Whole(w, fw, i, t, all) && AllLeaveWholeLines(w, fw, events) && events != []
    requires NeverRejoinsBehind(w, fw, events, i, all)
    ensures stepped == FileStep(w, fw, events[0]) && stored == StoredAt(w, fw, events[0], i)
    ensures Whole(w, stepped, i, next, all + stored) && AllLeaveWholeLines(w, stepped, events[1..])
    ensures NeverRejoinsBehind(w, stepped, events[1..], i, all + stored)
    ensures FR.Clean(t, SlotEvents(w, fw, events[0], i)) && FR.Run(t, SlotEvents(w, fw, events[0], i)) == next
  {
    next := StepKeepsWhole(w, fw, events[0], i, t, all);
    stepped, stored := FileStep(w, fw, events[0]), StoredAt(w, fw, events[0], i);
  }

  /** What the run of a device's file leaves, as the run's own functions say it. */
  ghost predicate RunGives(
    w: Wire, fw: FileWorld, events: seq<FileEvent>, i: nat, t: FR.Tracked, all: seq<EncodedRecord>,
    last: FR.Tracked, after: FileWorld, whole: seq<EncodedRecord>)
    requires i < |fw.slots| && FR.Valid(t)
  {
    && after == FileRun(w, fw, events) && whole == all + StoredRun(w, fw, events, i)
    && FR.Clean(t, SlotRun(w, fw, events, i)) && FR.Run(t, SlotRun(w, fw, events, i)) == last
  }

  lemma NothingGives(w: Wire, fw: FileWorld, i: nat, t: FR.Tracked, all: seq<EncodedRecord>)
    requires i < |fw.slots| && FR.Valid(t)
    ensures RunGives(w, fw, [], i, t, all, t, fw, all)
  {
    assert all + [] == all;
  }

  lemma GivesGrows(
    w: Wire, fw: FileWorld, events: seq<FileEvent>, i: nat, t: FR.Tracked, all: seq<EncodedRecord>,
    stepped: FileWorld, next: FR.Tracked, stored: seq<EncodedRecord>,
    last: FR.Tracked, after: FileWorld, whole: seq<EncodedRecord>)
    requires i < |fw.slots| && events != [] && FR.Valid(t) && FR.Valid(next)
    requires stepped == FileStep(w, fw, events[0]) && stored == StoredAt(w, fw, events[0], i) && i < |stepped.slots|
    requires FR.Clean(t, SlotEvents(w, fw, events[0], i)) && FR.Run(t, SlotEvents(w, fw, events[0], i)) == next
    requires RunGives(w, stepped, events[1..], i, next, all + stored, last, after, whole)
    ensures RunGives(w, fw, events, i, t, all, last, after, whole)
  {
    RunGrows(w, fw, events, i, t, next, last);
    StoredGrows(w, fw, events, i, all);
  }

  lemma {:induction false} RunKeepsWhole(
    w: Wire, fw: FileWorld, events: seq<FileEvent>, i: nat, t: FR.Tracked, all: seq<EncodedRecord>)
    returns (last: FR.Tracked, after: FileWorld, whole: seq<EncodedRecord>)
    requires w.Lawful() && Whole(w, fw, i, t, all) && AllLeaveWholeLines(w, fw, events)
    requires NeverRejoinsBehind(w, fw, events, i, all)
    ensures RunGives(w, fw, events, i, t, all, last, after, whole) && Whole(w, after, i, last, whole)
    decreases |events|
  {
    if events == [] {
      last, after, whole := t, fw, all;
      NothingGives(w, fw, i, t, all);
    } else {
      var next, stepped, stored := FirstStepKeepsWhole(w, fw, events, i, t, all);
      last, after, whole := RunKeepsWhole(w, stepped, events[1..], i, next, all + stored);
      GivesGrows(w, fw, events, i, t, all, stepped, next, stored, last, after, whole);
    }
  }

  /** A file that the device opens empty. */
  predicate Fresh(slot: FileSlot) {
    && slot.quarantined.None? && slot.disk.handle == slot.disk.path && slot.disk.written == 0
    && slot.disk.path in slot.disk.files && slot.disk.files[slot.disk.path] == ""
  }

  lemma FreshIsWhole(w: Wire, slots: seq<FileSlot>, i: nat) returns (t: FR.Tracked)
    requires i < |slots| && Fresh(slots[i])
    ensures t == FR.Opened(slots[i].disk.path, slots[i].disk.rotateAt, slots[i].disk.files)
    ensures Whole(w, FileWorld(slots, START, []), i, t, [])
  {
    t := FR.Opened(slots[i].disk.path, slots[i].disk.rotateAt, slots[i].disk.files);
    FR.FlattenEmptyLast([]);
    assert [] + [[]] == t.log.accepted;
  }

  /**
   * From a file that begins empty, through any records, rotations, failures that are cut back and
   * restarts, unless one lets the device back in behind its archives: its archives in the order they
   * were made and its live file are, one after the other, a gapless stretch of the committed
   * records, one to a line, which verifies, and which ends with the newest while it is written to.
   */
  lemma FilesHoldOneStretch(w: Wire, slots: seq<FileSlot>, events: seq<FileEvent>, i: nat)
    returns (t: FR.Tracked, a: nat, b: nat)
    requires w.Lawful() && i < |slots| && Fresh(slots[i])
    requires AllLeaveWholeLines(w, FileWorld(slots, START, []), events)
    requires NeverRejoinsBehind(w, FileWorld(slots, START, []), events, i, [])
    ensures var first := FR.Opened(slots[i].disk.path, slots[i].disk.rotateAt, slots[i].disk.files);
            var run := SlotRun(w, FileWorld(slots, START, []), events, i);
            FR.Clean(first, run) && t == FR.Run(first, run)
    ensures var after := FileRun(w, FileWorld(slots, START, []), events);
            && i < |after.slots| && t.disk == after.slots[i].disk
            && a <= b <= |after.committed|
            && FR.Contents(t, |t.log.segments|) == FR.LinesOf(PayloadsOf(after.committed[a..b]))
            && StoredRun(w, FileWorld(slots, START, []), events, i) == after.committed[a..b]
            && (after.slots[i].quarantined.None? ==> b == |after.committed|)
            && (a < b ==> VerifiesAlone(w, after.committed, a, b))
  {
    var start := FileWorld(slots, START, []);
    var first := FreshIsWhole(w, slots, i);
    var after, all;
    t, after, all := RunKeepsWhole(w, start, events, i, first, []);
    assert [] + StoredRun(w, start, events, i) == StoredRun(w, start, events, i);
    a, b := StretchOf(w, all, after.committed);
    WholeContents(t, all);
    StretchVerifiesAlone(w, after.committed, all, a, b);
  }

  lemma WholeContents(t: FR.Tracked, all: seq<EncodedRecord>)
    requires FR.Valid(t) && t.log.before == "" && Flatten(t.log.accepted) == PayloadsOf(all)
    ensures FR.Contents(t, |t.log.segments|) == FR.LinesOf(PayloadsOf(all))
  {
    FR.ContentsAreLines(t, |t.log.segments|);
    assert t.log.accepted[..|t.log.segments|] == t.log.accepted;
    FR.NothingBefore(FR.LinesOf(PayloadsOf(all)));
  }

  /** The committed records from `a` to `b` verify from their own first one. */
  predicate VerifiesAlone(w: Wire, committed: seq<EncodedRecord>, a: nat, b: nat)
    requires a < b <= |committed|
  {
    && committed[a..b][0].seqNo > 0
    && VerifyFrom(w, StartOf(committed[a..b]), StoredOf(committed[a..b])) ==
       Ok(Verified(b - a, committed[b - 1].seqNo, committed[b - 1].hash))
  }

  lemma StretchVerifiesAlone(w: Wire, committed: seq<EncodedRecord>, held: seq<EncodedRecord>, a: nat, b: nat)
    requires Trail(w, committed) && HoldsRun(held, committed) && a <= b <= |committed| && held == committed[a..b]
    ensures a < b ==> VerifiesAlone(w, committed, a, b)
  {
    if a < b {
      var slot := Slot(Device("", held), Some(Quarantined("", None, 0)));
      var world := World(SinkState([slot], HeadOf(committed)), committed);
      assert SlotSafe(slot, committed);
      SafeDeviceVerifies(w, world, 0);
      assert held[|held| - 1] == committed[b - 1];
    }
  }

  // ----- exactly which restarts break the stretch

  lemma {:induction false} WithoutRestartNeverBehind(
    w: Wire, fw: FileWorld, events: seq<FileEvent>, i: nat, all: seq<EncodedRecord>)
    requires i < |fw.slots| && forall e :: e in events ==> e.FileRecord?
    ensures NeverRejoinsBehind(w, fw, events, i, all)
    decreases |events|
  {
    if events != [] {
      assert events[0] in events && forall e :: e in events[1..] ==> e in events;
      WithoutRestartNeverBehind(w, FileStep(w, fw, events[0]), events[1..], i, all + StoredAt(w, fw, events[0], i));
    }
  }

  /** A record that every file stores. */
  function StoredEverywhere(): FileEvent {
    FileRecord(Entry(""), 0, (_: nat) => FD.Renames, (_: nat) => FD.Stores)
  }

  /** A device let back in with an empty file stores the next record. */
  lemma RejoinedStoresNext(w: Wire, fw: FileWorld, i: nat)
    requires i < |fw.slots| && OnTrail(w, fw) && Emptied(fw.slots[i].disk)
    ensures var after, e := FileStep(w, fw, FileRestart), StoredEverywhere();
            && i < |after.slots| && LeavesWholeLines(w, after, e)
            && StoredAt(w, after, e, i) == [Next(w, after, e)]
  {
    ReopenedSlot(w, fw, i);
    var after := FileStep(w, fw, FileRestart);
    assert FD.HeadOnDisk(w, after.slots[i].disk) == Ok(None);
  }

  /** The newest record does not follow records that end earlier. */
  lemma BehindLeavesGap(w: Wire, committed: seq<EncodedRecord>, all: seq<EncodedRecord>, record: EncodedRecord)
    requires Trail(w, committed) && HoldsRun(all, committed) && all != []
    requires all[|all| - 1].seqNo != |committed| && record.seqNo == |committed| + 1
    ensures !HoldsRun(all + [record], committed + [record])
  {
    var more, grown := all + [record], committed + [record];
    var at := all[0].seqNo - 1 + |all|;
    assert Chained(w, committed, at - 1) && all[|all| - 1] == committed[at - 1];
    assert Chained(w, committed, at);
    assert more[0] == all[0] && more[|all|] == record;
    assert grown[at - |all|..at + 1][|all|] == committed[at];
  }

  /**
   * After a restart everything a device's files hold stays a gapless stretch of the committed
   * records, whatever is recorded then, exactly if it is not let back in behind its archives.
   */
  lemma RestartKeepsStretchIff(w: Wire, fw: FileWorld, i: nat, t: FR.Tracked, all: seq<EncodedRecord>)
    requires w.Lawful() && Whole(w, fw, i, t, all)
    ensures var after := FileStep(w, fw, FileRestart);
            && i < |after.slots|
            && ((forall events: seq<FileEvent> ::
                   (forall e :: e in events ==> e.FileRecord?) && AllLeaveWholeLines(w, after, events) ==>
                   HoldsRun(all + StoredRun(w, after, events, i), FileRun(w, after, events).committed))
                <==> RejoinsInStep(fw.slots[i], all, fw.committed))
  {
    var after := FileStep(w, fw, FileRestart);
    ReopenedSlot(w, fw, i);
    if RejoinsInStep(fw.slots[i], all, fw.committed) {
      var next := StepKeepsWhole(w, fw, FileRestart, i, t, all);
      assert all + [] == all;
      forall events: seq<FileEvent> |
        (forall e :: e in events ==> e.FileRecord?) && AllLeaveWholeLines(w, after, events)
        ensures HoldsRun(all + StoredRun(w, after, events, i), FileRun(w, after, events).committed)
      {
        WithoutRestartNeverBehind(w, after, events, i, all);
        var last, end, whole := RunKeepsWhole(w, after, events, i, next, all);
      }
    } else {
      var events := RejoiningBreaks(w, fw, i, all);
    }
  }

  lemma RejoinedStores(w: Wire, fw: FileWorld, i: nat)
    returns (after: FileWorld, e: FileEvent, record: EncodedRecord)
    requires i < |fw.slots| && OnTrail(w, fw) && Emptied(fw.slots[i].disk)
    ensures after == FileStep(w, fw, FileRestart) && i < |after.slots|
    ensures e.FileRecord? && LeavesWholeLines(w, after, e) && StoredAt(w, after, e, i) == [record]
    ensures FileStep(w, after, e).committed == fw.committed + [record] && record.seqNo == |fw.committed| + 1
  {
    after, e := FileStep(w, fw, FileRestart), StoredEverywhere();
    record := Next(w, after, e);
    ReopenedSlot(w, fw, i);
    RejoinedStoresNext(w, fw, i);
    NextNumber(w, after);
    SlotAfterRecord(w, after, e, i);
  }

  lemma RejoiningBreaks(w: Wire, fw: FileWorld, i: nat, all: seq<EncodedRecord>) returns (events: seq<FileEvent>)
    requires w.Lawful() && i < |fw.slots| && OnTrail(w, fw) && HoldsRun(all, fw.committed)
    requires !RejoinsInStep(fw.slots[i], all, fw.committed)
    ensures forall e :: e in events ==> e.FileRecord?
    ensures var after := FileStep(w, fw, FileRestart);
            && i < |after.slots| && AllLeaveWholeLines(w, after, events)
            && !HoldsRun(all + StoredRun(w, after, events, i), FileRun(w, after, events).committed)
  {
    var after, e, record := RejoinedStores(w, fw, i);
    BehindLeavesGap(w, fw.committed, all, record);
    events := [e];
    RunOfOneRecord(w, after, e, i);
  }

  lemma RunOfOneRecord(w: Wire, fw: FileWorld, e: FileEvent, i: nat)
    requires i < |fw.slots|
    ensures StoredRun(w, fw, [e], i) == StoredAt(w, fw, e, i) && FileRun(w, fw, [e]) == FileStep(w, fw, e)
    ensures AllLeaveWholeLines(w, fw, [e]) <==> LeavesWholeLines(w, fw, e)
  {
    var none: seq<FileEvent> := [];
    var next := FileStep(w, fw, e);
    assert [e][1..] == none;
    assert StoredRun(w, next, none, i) == [] && FileRun(w, next, none) == next && AllLeaveWholeLines(w, next, none);
    assert StoredAt(w, fw, e, i) + [] == StoredAt(w, fw, e, i);
  }
}
