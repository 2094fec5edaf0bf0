/**
 * When the file device rotates, what it calls the file it closes, and how full that file is
 * (crates/ciphr-audit/src/file.rs).
 */
module FileRotations {
  import opened Basics
  import opened Chain
  import opened FileDevice
  import opened FileRuns
  import FileSink

  // ----- when

  /** A write rotates exactly when there is a limit, something is in the open file, and the line does not fit any more. */
  lemma RotatesIff(t: Tracked, record: EncodedRecord, rotation: RotateOutcome, outcome: WriteOutcome)
    requires Valid(t)
    ensures AfterWrite(t.disk, record, rotation, outcome).1.Some? <==>
              && t.disk.rotateAt.Some?
              && t.disk.files[t.disk.handle] != ""
              && |t.disk.files[t.disk.handle]| + |record.payload + "\n"| > t.disk.rotateAt.value
  {
  }

  // ----- under which name

  predicate Taken(disk: Disk, millis: int, closing: nat, attempt: nat) {
    ArchiveName(disk.path, Rotation(millis, closing, attempt)) in disk.files
  }

  lemma {:induction false} NoneFree(disk: Disk, millis: int, closing: nat, attempt: nat, k: nat)
    requires attempt <= k <= 100 && FirstFree(disk, millis, closing, attempt).None?
    ensures Taken(disk, millis, closing, k)
    decreases 101 - attempt
  {
    if attempt < k {
      NoneFree(disk, millis, closing, attempt + 1, k);
    }
  }

  lemma {:induction false} FirstFreeIs(disk: Disk, millis: int, closing: nat, attempt: nat)
    requires attempt <= 101 && FirstFree(disk, millis, closing, attempt).Some?
    ensures var free := FirstFree(disk, millis, closing, attempt).value;
            && attempt <= free.attempt <= 100
            && free == Rotation(millis, closing, free.attempt)
            && !Taken(disk, millis, closing, free.attempt)
            && forall k :: attempt <= k < free.attempt ==> Taken(disk, millis, closing, k)
    decreases 101 - attempt
  {
    if Taken(disk, millis, closing, attempt) {
      FirstFreeIs(disk, millis, closing, attempt + 1);
    }
  }

  /**
   * A rotation before record `closing + 1` is refused exactly when the rename fails or cannot be
   * made, or all 101 names of the moment are taken; otherwise it takes the first one that is free.
   */
  lemma RotationIs(disk: Disk, millis: int, closing: nat, outcome: RotateOutcome)
    ensures var did := AfterRotate(disk, millis, closing + 1, outcome).1;
            && (did.Refused? <==>
                  || outcome == RenameFails || disk.path !in disk.files
                  || forall k :: 0 <= k <= 100 ==> Taken(disk, millis, closing, k))
            && (!did.Refused? ==>
                  && did.to == Rotation(millis, closing, did.to.attempt) && did.to.attempt <= 100
                  && !Taken(disk, millis, closing, did.to.attempt)
                  && (forall k :: 0 <= k < did.to.attempt ==> Taken(disk, millis, closing, k))
                  && (did.Renamed? <==> outcome == OpenFails))
  {
    if FirstFree(disk, millis, closing, 0).Some? {
      FirstFreeIs(disk, millis, closing, 0);
    } else {
      forall k: nat | k <= 100 ensures Taken(disk, millis, closing, k) {
        NoneFree(disk, millis, closing, 0, k);
      }
    }
  }

  /** The closed file is named after the moment of the write that closed it and the last record in it. */
  lemma ArchiveIsNamedAfterLast(
    w: Wire, disk: Disk, held: seq<EncodedRecord>, record: EncodedRecord, rotation: RotateOutcome, outcome: WriteOutcome)
    requires FileSink.Backs(w, disk, held) && held != [] && record.seqNo == held[|held| - 1].seqNo + 1
    requires var did := AfterWrite(disk, record, rotation, outcome).1;
             did.Some? && !did.value.Refused?
    ensures var (after, did, _) := AfterWrite(disk, record, rotation, outcome);
            && did.value.to.millis == record.tsMillis && did.value.to.closing == held[|held| - 1].seqNo
            && ArchiveName(disk.path, did.value.to) in after.files
            && after.files[ArchiveName(disk.path, did.value.to)] == LinesOf(FileSink.PayloadsOf(held))
  {
    RotationIs(disk, record.tsMillis, record.seqNo - 1, rotation);
    var (rotated, did) := AfterRotate(disk, record.tsMillis, record.seqNo, rotation);
    RotateOutcomes(disk, record.tsMillis, record.seqNo, rotation);
    NameIsLonger(disk.path, did.to);
    RenamedKeeps(disk, ArchiveName(disk.path, did.to));
  }

  lemma NameIsLonger(path: string, r: Rotation)
    ensures ArchiveName(path, r) != path
  {
    assert |ArchiveName(path, r)| > |path|;
  }

  lemma RenamedKeeps(disk: Disk, to: string)
    requires disk.path in disk.files && to != disk.path
    ensures to in AfterRename(disk, to).files && AfterRename(disk, to).files[to] == disk.files[disk.path]
    ensures var reopened := AfterOpen(AfterRename(disk, to));
            to in reopened.files && reopened.files[to] == disk.files[disk.path] && reopened.handle != to
  {
  }

  // ----- over whole runs

  /** A file that a rotation closed, by its new name, and the payload whose write closed it. */
  datatype Closed = Closed(name: string, payload: string)

  function ClosedBy(t: Tracked, e: Event): seq<Closed>
    requires SizeTracked(t.disk)
  {
    if !e.Write? then []
    else
      match AfterWrite(t.disk, e.record, e.rotation, e.outcome).1
      case Some(Renamed(to)) => [Closed(ArchiveName(t.disk.path, to), e.record.payload)]
      case Some(Restarted(to)) => [Closed(ArchiveName(t.disk.path, to), e.record.payload)]
      case _ => []
  }

  function ClosedRun(t: Tracked, events: seq<Event>): seq<Closed>
    requires Valid(t) && Clean(t, events)
    decreases |events|
  {
    if events == [] then []
    else
      StepKeepsValidIff(t, events[0]);
      ClosedBy(t, events[0]) + ClosedRun(Step(t, events[0]), events[1..])
  }

  /** The file and the line whose write closed it do not fit the limit together. */
  predicate Full(disk: Disk, closed: Closed) {
    && disk.rotateAt.Some? && closed.name in disk.files && closed.name != disk.path
    && |disk.files[closed.name]| + |closed.payload + "\n"| > disk.rotateAt.value
  }

  lemma AppendKeepsFull(disk: Disk, payload: string, outcome: WriteOutcome, closed: Closed)
    requires SizeTracked(disk) && disk.written == |disk.files[disk.handle]| && Full(disk, closed)
    ensures Full(AfterAppend(disk, payload, outcome), closed)
  {
  }

  lemma RotateKeepsFull(disk: Disk, millis: int, nextSeq: nat, outcome: RotateOutcome, closed: Closed)
    requires Full(disk, closed)
    ensures Full(AfterRotate(disk, millis, nextSeq, outcome).0, closed)
  {
    RotateOutcomes(disk, millis, nextSeq, outcome);
    RotateKeepsSettings(disk, millis, nextSeq, outcome);
  }

  /** After a rotation that restarted, the size of the open file is known. */
  lemma RotatedSize(t: Tracked, millis: int, nextSeq: nat, outcome: RotateOutcome)
    requires Valid(t)
    ensures var (disk, did) := AfterRotate(t.disk, millis, nextSeq, outcome);
            did.Restarted? ==> SizeTracked(disk) && disk.written == |disk.files[disk.handle]|
  {
    RotateOutcomes(t.disk, millis, nextSeq, outcome);
  }

  /** A closed file never shrinks. */
  lemma StepKeepsFull(t: Tracked, e: Event, closed: Closed)
    requires Valid(t) && Full(t.disk, closed)
    ensures Full(Step(t, e).disk, closed)
  {
    match e
    case Write(record, rotation, outcome) =>
      if MustRotate(t.disk, record.payload) {
        RotateKeepsFull(t.disk, record.tsMillis, record.seqNo, rotation, closed);
        RotatedSize(t, record.tsMillis, record.seqNo, rotation);
        var (disk, did) := AfterRotate(t.disk, record.tsMillis, record.seqNo, rotation);
        if did.Restarted? {
          AppendKeepsFull(disk, record.payload, outcome, closed);
        }
      } else {
        AppendKeepsFull(t.disk, record.payload, outcome, closed);
      }
    case Reopen =>
  }

  lemma RotationClosesFull(t: Tracked, record: EncodedRecord, outcome: RotateOutcome)
    requires Valid(t) && MustRotate(t.disk, record.payload)
    ensures var (disk, did) := AfterRotate(t.disk, record.tsMillis, record.seqNo, outcome);
            !did.Refused? ==> Full(disk, Closed(ArchiveName(t.disk.path, did.to), record.payload))
  {
    var (disk, did) := AfterRotate(t.disk, record.tsMillis, record.seqNo, outcome);
    RotateOutcomes(t.disk, record.tsMillis, record.seqNo, outcome);
    if !did.Refused? {
      NameIsLonger(t.disk.path, did.to);
      RenamedKeeps(t.disk, ArchiveName(t.disk.path, did.to));
    }
  }

  lemma WriteClosesFull(t: Tracked, record: EncodedRecord, rotation: RotateOutcome, outcome: WriteOutcome)
    requires Valid(t) && MustRotate(t.disk, record.payload)
    ensures var did := AfterRotate(t.disk, record.tsMillis, record.seqNo, rotation).1;
            !did.Refused? ==>
              Full(Step(t, Write(record, rotation, outcome)).disk, Closed(ArchiveName(t.disk.path, did.to), record.payload))
  {
    var (disk, did) := AfterRotate(t.disk, record.tsMillis, record.seqNo, rotation);
    StepWithRotation(t, record, rotation, outcome);
    RotationClosesFull(t, record, rotation);
    RotatedSize(t, record.tsMillis, record.seqNo, rotation);
    if did.Restarted? {
      AppendKeepsFull(disk, record.payload, outcome, Closed(ArchiveName(t.disk.path, did.to), record.payload));
    }
  }

  lemma ClosedByIs(t: Tracked, e: Event, closed: Closed)
    requires SizeTracked(t.disk) && closed in ClosedBy(t, e)
    ensures e.Write? && MustRotate(t.disk, e.record.payload)
    ensures var did := AfterRotate(t.disk, e.record.tsMillis, e.record.seqNo, e.rotation).1;
            !did.Refused? && closed == Closed(ArchiveName(t.disk.path, did.to), e.record.payload)
  {
  }

  /** A rotation closes a file that the line no longer fits into. */
  lemma StepClosesFull(t: Tracked, e: Event, closed: Closed)
    requires Valid(t) && closed in ClosedBy(t, e)
    ensures Full(Step(t, e).disk, closed)
  {
    ClosedByIs(t, e, closed);
    WriteClosesFull(t, e.record, e.rotation, e.outcome);
  }

  lemma {:induction false} RunKeepsFull(t: Tracked, events: seq<Event>, closed: Closed)
    requires Valid(t) && Clean(t, events) && Full(t.disk, closed)
    ensures Full(Run(t, events).disk, closed)
    decreases |events|
  {
    if events != [] {
      StepKeepsValidIff(t, events[0]);
      StepKeepsFull(t, events[0], closed);
      RunKeepsFull(Step(t, events[0]), events[1..], closed);
    }
  }

  /** No file is closed early: each file that a run closed would pass the limit with the line whose write closed it. */
  lemma {:induction false} RunClosesFull(t: Tracked, events: seq<Event>)
    requires Valid(t) && Clean(t, events)
    ensures forall closed :: closed in ClosedRun(t, events) ==> Full(Run(t, events).disk, closed)
    decreases |events|
  {
    if events != [] {
      var next := Step(t, events[0]);
      StepKeepsValidIff(t, events[0]);
      RunClosesFull(next, events[1..]);
      forall closed | closed in ClosedRun(t, events) ensures Full(Run(t, events).disk, closed) {
        if closed in ClosedBy(t, events[0]) {
          StepClosesFull(t, events[0], closed);
          RunKeepsFull(next, events[1..], closed);
        }
      }
    }
  }

  function ClosedNames(closed: seq<Closed>): seq<string> {
    Map((c: Closed) => c.name, closed)
  }

  function RotationNames(path: string, rotations: seq<Rotation>): seq<string> {
    Map((r: Rotation) => ArchiveName(path, r), rotations)
  }

  lemma NamesOfOneMore(path: string, rotations: seq<Rotation>, to: Rotation, payload: string)
    ensures RotationNames(path, rotations + [to]) ==
            RotationNames(path, rotations) + ClosedNames([Closed(ArchiveName(path, to), payload)])
  {
  }

  lemma StepClosesRotations(t: Tracked, e: Event)
    requires Valid(t)
    ensures RotationNames(t.disk.path, Step(t, e).log.rotations) ==
            RotationNames(t.disk.path, t.log.rotations) + ClosedNames(ClosedBy(t, e))
  {
    if ClosedBy(t, e) == [] {
      assert Step(t, e).log.rotations == t.log.rotations;
      assert RotationNames(t.disk.path, t.log.rotations) + [] == RotationNames(t.disk.path, t.log.rotations);
    } else {
      var to := AfterWrite(t.disk, e.record, e.rotation, e.outcome).1.value.to;
      assert Step(t, e).log.rotations == t.log.rotations + [to];
      NamesOfOneMore(t.disk.path, t.log.rotations, to, e.record.payload);
    }
  }

  /** The closed files are those that the log says were renamed. */
  lemma {:induction false} RunClosesRotations(t: Tracked, events: seq<Event>)
    requires Valid(t) && Clean(t, events)
    ensures RotationNames(t.disk.path, Run(t, events).log.rotations) ==
            RotationNames(t.disk.path, t.log.rotations) + ClosedNames(ClosedRun(t, events))
    decreases |events|
  {
    if events != [] {
      var next := Step(t, events[0]);
      StepKeepsValidIff(t, events[0]);
      StepClosesRotations(t, events[0]);
      StepKeepsSettings(t, events[0]);
      RunClosesRotations(next, events[1..]);
      NamesOfConcat(ClosedBy(t, events[0]), ClosedRun(next, events[1..]));
      Regroup(RotationNames(t.disk.path, t.log.rotations), ClosedNames(ClosedBy(t, events[0])),
              ClosedNames(ClosedRun(next, events[1..])));
    }
  }

  lemma NamesOfConcat(a: seq<Closed>, b: seq<Closed>)
    ensures ClosedNames(a + b) == ClosedNames(a) + ClosedNames(b)
  {
  }

  /** Every archive that a run of a device with a limit made is full in this sense. */
  lemma ArchivesAreFull(path: string, limit: nat, files: map<string, string>, events: seq<Event>, k: nat)
    requires Clean(Opened(path, Some(limit), files), events)
    requires k < |Run(Opened(path, Some(limit), files), events).log.rotations|
    ensures var start := Opened(path, Some(limit), files);
            var t, closed := Run(start, events), ClosedRun(start, events);
            && |closed| == |t.log.rotations| && closed[k].name == ArchiveName(path, t.log.rotations[k])
            && closed[k].name in t.disk.files
            && |t.disk.files[closed[k].name]| + |closed[k].payload + "\n"| > limit
  {
    var start := Opened(path, Some(limit), files);
    RunClosesFull(start, events);
    RunClosesRotations(start, events);
    RunKeepsSettings(start, events);
    var t, closed := Run(start, events), ClosedRun(start, events);
    assert RotationNames(path, start.log.rotations) == [];
    assert RotationNames(path, t.log.rotations) == ClosedNames(closed);
    assert RotationNames(path, t.log.rotations)[k] == ClosedNames(closed)[k];
    assert closed[k] in closed;
  }
}
