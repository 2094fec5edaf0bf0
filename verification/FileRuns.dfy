/** Whole runs of the file device: what its files hold after any writes, rotations and failures. */
module FileRuns {
  import opened Basics
  import opened Chain
  import opened FileDevice
  import TailReader

  /** Records as JSON Lines. */
  function LinesOf(payloads: seq<string>): string {
    if payloads == [] then [] else LinesOf(payloads[..|payloads| - 1]) + (payloads[|payloads| - 1] + "\n")
  }

  /**
   * What happened, for the statement alone: the files written so far in the order they were
   * created, the payloads accepted into each, and the rotations made.
   */
  datatype Log = Log(before: string, segments: seq<string>, accepted: seq<seq<string>>, rotations: seq<Rotation>)

  datatype Tracked = Tracked(disk: Disk, log: Log)

  datatype Event =
    | Write(record: EncodedRecord, rotation: RotateOutcome, outcome: WriteOutcome)
    | Reopen

  function Opened(path: string, rotateAt: Option<nat>, files: map<string, string>): (t: Tracked)
    ensures Valid(t)
  {
    var disk := AfterReopen(Disk(path, rotateAt, files, path, 0));
    var t := Tracked(disk, Log(disk.files[path], [path], [[]], []));
    assert Holds(t, 0) && Named(t, 0) && Bounded(t, 0);
    t
  }

  function LogRename(log: Log, path: string, to: Rotation): Log
    requires log.segments != []
  {
    log.(segments := log.segments[|log.segments| - 1 := ArchiveName(path, to)], rotations := log.rotations + [to])
  }

  function LogOpen(log: Log, path: string): Log {
    log.(segments := log.segments + [path], accepted := log.accepted + [[]])
  }

  function LogStore(log: Log, payload: string): Log
    requires log.accepted != []
  {
    var last := |log.accepted| - 1;
    log.(accepted := log.accepted[last := log.accepted[last] + [payload]])
  }

  function LogRotated(log: Log, path: string, did: Option<Rotated>): Log
    requires log.segments != []
  {
    match did
    case None => log
    case Some(Refused) => log
    case Some(Renamed(to)) => LogRename(log, path, to)
    case Some(Restarted(to)) => LogOpen(LogRename(log, path, to), path)
  }

  function Step(t: Tracked, e: Event): Tracked
    requires SizeTracked(t.disk) && t.log.segments != [] && t.log.accepted != []
  {
    match e
    case Write(record, rotation, outcome) =>
      var (disk, did, stored) := AfterWrite(t.disk, record, rotation, outcome);
      var log := LogRotated(t.log, t.disk.path, did);
      Tracked(disk, if stored then LogStore(log, record.payload) else log)
    case Reopen =>
      Tracked(AfterReopen(t.disk), if t.disk.path in t.disk.files then t.log else LogOpen(t.log, t.disk.path))
  }

  // ----- what every step keeps

  function BaseOf(log: Log, k: nat): string {
    if k == 0 then log.before else ""
  }

  /** The file at `k` holds its accepted lines, whole and in order. */
  predicate Holds(t: Tracked, k: nat)
    requires k < |t.log.segments| && k < |t.log.accepted|
  {
    && t.log.segments[k] in t.disk.files
    && t.disk.files[t.log.segments[k]] == BaseOf(t.log, k) + LinesOf(t.log.accepted[k])
  }

  /** A file that began empty is within the limit, unless it holds a single record. */
  predicate Bounded(t: Tracked, k: nat)
    requires k < |t.log.accepted|
  {
    t.disk.rotateAt.Some? && BaseOf(t.log, k) == "" ==>
      |LinesOf(t.log.accepted[k])| <= t.disk.rotateAt.value || |t.log.accepted[k]| <= 1
  }

  /** Every segment is the live file or an archive that a rotation named. */
  ghost predicate Named(t: Tracked, k: nat)
    requires k < |t.log.segments|
  {
    t.log.segments[k] == t.disk.path
    || exists r :: r in t.log.rotations && t.log.segments[k] == ArchiveName(t.disk.path, r)
  }

  ghost predicate Valid(t: Tracked) {
    && 1 <= |t.log.segments| == |t.log.accepted|
    && Distinct(t.log.segments)
    && t.disk.handle == t.log.segments[|t.log.segments| - 1]
    && (t.disk.handle == t.disk.path || t.disk.path !in t.disk.files)
    && (forall k :: 0 <= k < |t.log.segments| ==> Holds(t, k) && Bounded(t, k) && Named(t, k))
    && t.disk.handle in t.disk.files && t.disk.written == |t.disk.files[t.disk.handle]|
  }

  lemma RenameKeepsContents(t: Tracked, to: Rotation, k: nat)
    requires k < |t.log.segments| == |t.log.accepted| && Holds(t, k) && Bounded(t, k)
    requires t.disk.path in t.disk.files && ArchiveName(t.disk.path, to) !in t.disk.files
    requires t.log.segments[k] == t.disk.path <==> k == |t.log.segments| - 1
    ensures var u := Tracked(AfterRename(t.disk, ArchiveName(t.disk.path, to)), LogRename(t.log, t.disk.path, to));
            && Holds(u, k) && Bounded(u, k)
            && (u.log.segments[k] == ArchiveName(t.disk.path, to) ==> k == |t.log.segments| - 1)
  {
  }

  lemma LiveFileIsLast(t: Tracked, k: nat)
    requires Valid(t) && t.disk.path in t.disk.files && k < |t.log.segments|
    ensures t.log.segments[k] == t.disk.path <==> k == |t.log.segments| - 1
  {
  }

  lemma RenameKeepsValid(t: Tracked, to: Rotation)
    requires Valid(t) && t.disk.path in t.disk.files && ArchiveName(t.disk.path, to) !in t.disk.files
    ensures Valid(Tracked(AfterRename(t.disk, ArchiveName(t.disk.path, to)), LogRename(t.log, t.disk.path, to)))
  {
    forall k | 0 <= k < |t.log.segments|
      ensures var u := Tracked(AfterRename(t.disk, ArchiveName(t.disk.path, to)), LogRename(t.log, t.disk.path, to));
              && Holds(u, k) && Bounded(u, k) && Named(u, k)
              && (u.log.segments[k] == ArchiveName(t.disk.path, to) ==> k == |t.log.segments| - 1)
    {
      assert Holds(t, k) && Bounded(t, k) && Named(t, k);
      LiveFileIsLast(t, k);
      RotationsGrow(t, to, k);
      RenameKeepsContents(t, to, k);
    }
  }

  lemma RotationsGrow(t: Tracked, to: Rotation, k: nat)
    requires t.log.segments != [] && k < |t.log.segments| && Named(t, k)
    ensures Named(t.(log := LogRename(t.log, t.disk.path, to)), k)
  {
    var log := LogRename(t.log, t.disk.path, to);
    if k == |t.log.segments| - 1 {
      assert to in log.rotations;
    } else if t.log.segments[k] != t.disk.path {
      var r :| r in t.log.rotations && t.log.segments[k] == ArchiveName(t.disk.path, r);
      assert r in log.rotations;
    }
  }

  lemma OpenKeepsValid(t: Tracked)
    requires Valid(t) && t.disk.path !in t.disk.files
    ensures Valid(Tracked(AfterOpen(t.disk), LogOpen(t.log, t.disk.path)))
  {
    var n, u := |t.log.segments|, Tracked(AfterOpen(t.disk), LogOpen(t.log, t.disk.path));
    forall k | 0 <= k <= n
      ensures Holds(u, k) && Bounded(u, k) && Named(u, k) && (k < n ==> u.log.segments[k] != t.disk.path)
    {
      if k < n {
        assert Holds(t, k) && Bounded(t, k) && Named(t, k);
      }
    }
  }

  lemma LinesOfOneMore(payloads: seq<string>, payload: string)
    ensures LinesOf(payloads + [payload]) == LinesOf(payloads) + (payload + "\n")
  {
    assert (payloads + [payload])[..|payloads|] == payloads;
  }

  lemma StoreKeepsOtherFile(t: Tracked, payload: string, k: nat)
    requires k + 1 < |t.log.segments| == |t.log.accepted| && SizeTracked(t.disk)
    requires Holds(t, k) && Bounded(t, k) && Named(t, k) && t.log.segments[k] != t.disk.handle
    ensures var u := Tracked(AfterAppend(t.disk, payload, Stores), LogStore(t.log, payload));
            Holds(u, k) && Bounded(u, k) && Named(u, k)
  {
  }

  lemma StoreKeepsOpenFile(t: Tracked, payload: string, k: nat)
    requires k + 1 == |t.log.segments| == |t.log.accepted| && SizeTracked(t.disk)
    requires Holds(t, k) && t.log.segments[k] == t.disk.handle
    ensures var u := Tracked(AfterAppend(t.disk, payload, Stores), LogStore(t.log, payload));
            Holds(u, k) && u.log.accepted[k] == t.log.accepted[k] + [payload]
  {
    LinesOfOneMore(t.log.accepted[k], payload);
    var base, lines := BaseOf(t.log, k), LinesOf(t.log.accepted[k]);
    assert base + lines + (payload + "\n") == base + (lines + (payload + "\n"));
  }

  lemma StoreKeepsBound(t: Tracked, payload: string, k: nat)
    requires k + 1 == |t.log.segments| == |t.log.accepted| && t.disk.handle in t.disk.files
    requires Holds(t, k) && t.log.segments[k] == t.disk.handle && !MustRotate(t.disk, payload)
    requires t.disk.written == |t.disk.files[t.disk.handle]|
    ensures Bounded(Tracked(AfterAppend(t.disk, payload, Stores), LogStore(t.log, payload)), k)
  {
    var lines := LinesOf(t.log.accepted[k]);
    LinesOfOneMore(t.log.accepted[k], payload);
    if BaseOf(t.log, k) == "" {
      assert "" + lines == lines;
      EmptyWithoutLines(t.log.accepted[k]);
    }
  }

  lemma EmptyWithoutLines(payloads: seq<string>)
    ensures LinesOf(payloads) == "" <==> payloads == []
  {
  }

  lemma StoreKeepsValid(t: Tracked, payload: string)
    requires Valid(t) && !MustRotate(t.disk, payload)
    ensures Valid(Tracked(AfterAppend(t.disk, payload, Stores), LogStore(t.log, payload)))
  {
    var last, u := |t.log.segments| - 1, Tracked(AfterAppend(t.disk, payload, Stores), LogStore(t.log, payload));
    forall k | 0 <= k <= last ensures Holds(u, k) && Bounded(u, k) && Named(u, k) {
      assert Holds(t, k) && Bounded(t, k) && Named(t, k);
      if k < last {
        StoreKeepsOtherFile(t, payload, k);
      } else {
        StoreKeepsOpenFile(t, payload, k);
        StoreKeepsBound(t, payload, k);
      }
    }
  }

  lemma AppendKeepsValidIff(t: Tracked, payload: string, outcome: WriteOutcome)
    requires Valid(t) && !MustRotate(t.disk, payload)
    ensures Valid(Tracked(AfterAppend(t.disk, payload, outcome),
                          if outcome.Stores? then LogStore(t.log, payload) else t.log))
       <==> outcome.Stores? || outcome.rolledBack || outcome.kept == 0
  {
    if outcome.Stores? {
      StoreKeepsValid(t, payload);
    } else {
      var content, after := t.disk.files[t.disk.handle], AfterAppend(t.disk, payload, outcome);
      if outcome.rolledBack || outcome.kept == 0 {
        assert after.files[t.disk.handle] == content;
        assert after.files == t.disk.files;
      } else {
        assert |after.files[t.disk.handle]| > t.disk.written;
      }
    }
  }

  /** A rotation that is not refused renames to a name that was free. */
  lemma RotateOutcomes(disk: Disk, millis: int, nextSeq: nat, outcome: RotateOutcome)
    ensures var (after, did) := AfterRotate(disk, millis, nextSeq, outcome);
            && (did.Refused? ==> after == disk)
            && (!did.Refused? ==> disk.path in disk.files && ArchiveName(disk.path, did.to) !in disk.files)
            && (did.Renamed? ==> after == AfterRename(disk, ArchiveName(disk.path, did.to)))
            && (did.Restarted? ==> after == AfterOpen(AfterRename(disk, ArchiveName(disk.path, did.to))))
  {
  }

  lemma RotatedKeepsValid(t: Tracked, disk: Disk, did: Rotated)
    requires Valid(t) && (did.Refused? ==> disk == t.disk)
    requires !did.Refused? ==> t.disk.path in t.disk.files && ArchiveName(t.disk.path, did.to) !in t.disk.files
    requires did.Renamed? ==> disk == AfterRename(t.disk, ArchiveName(t.disk.path, did.to))
    requires did.Restarted? ==> disk == AfterOpen(AfterRename(t.disk, ArchiveName(t.disk.path, did.to)))
    ensures Valid(Tracked(disk, LogRotated(t.log, t.disk.path, Some(did))))
  {
    if !did.Refused? {
      RenameKeepsValid(t, did.to);
      if did.Restarted? {
        OpenKeepsValid(
          Tracked(AfterRename(t.disk, ArchiveName(t.disk.path, did.to)), LogRename(t.log, t.disk.path, did.to)));
      }
    }
  }

  lemma RotateKeepsValid(t: Tracked, millis: int, nextSeq: nat, outcome: RotateOutcome)
    requires Valid(t)
    ensures var (disk, did) := AfterRotate(t.disk, millis, nextSeq, outcome);
            && Valid(Tracked(disk, LogRotated(t.log, t.disk.path, Some(did))))
            && (did.Restarted? ==> disk.written == 0 && disk.handle == disk.path)
  {
    RotateOutcomes(t.disk, millis, nextSeq, outcome);
    var (disk, did) := AfterRotate(t.disk, millis, nextSeq, outcome);
    RotatedKeepsValid(t, disk, did);
  }

  /** The one step after which the file no longer holds whole lines. */
  predicate LeavesFragment(t: Tracked, e: Event) {
    e.Write? && LeavesPart(t.disk, e.record, e.rotation, e.outcome)
  }

  lemma StepWithoutRotation(t: Tracked, record: EncodedRecord, rotation: RotateOutcome, outcome: WriteOutcome)
    requires SizeTracked(t.disk) && t.log.segments != [] && t.log.accepted != [] && !MustRotate(t.disk, record.payload)
    ensures Step(t, Write(record, rotation, outcome)) ==
            Tracked(AfterAppend(t.disk, record.payload, outcome),
                    if outcome.Stores? then LogStore(t.log, record.payload) else t.log)
  {
  }

  lemma StepWithRotation(t: Tracked, record: EncodedRecord, rotation: RotateOutcome, outcome: WriteOutcome)
    requires SizeTracked(t.disk) && t.log.segments != [] && t.log.accepted != [] && MustRotate(t.disk, record.payload)
    ensures var (disk, did) := AfterRotate(t.disk, record.tsMillis, record.seqNo, rotation);
            var log := LogRotated(t.log, t.disk.path, Some(did));
            && (did.Restarted? ==> SizeTracked(disk) && log.accepted != [])
            && Step(t, Write(record, rotation, outcome)) ==
               if did.Restarted?
               then Tracked(AfterAppend(disk, record.payload, outcome),
                            if outcome.Stores? then LogStore(log, record.payload) else log)
               else Tracked(disk, log)
  {
  }

  lemma WriteKeepsValidIff(t: Tracked, record: EncodedRecord, rotation: RotateOutcome, outcome: WriteOutcome)
    requires Valid(t)
    ensures Valid(Step(t, Write(record, rotation, outcome))) <==> !LeavesFragment(t, Write(record, rotation, outcome))
  {
    if MustRotate(t.disk, record.payload) {
      StepWithRotation(t, record, rotation, outcome);
      RotateKeepsValid(t, record.tsMillis, record.seqNo, rotation);
      var (disk, did) := AfterRotate(t.disk, record.tsMillis, record.seqNo, rotation);
      if did.Restarted? {
        AppendKeepsValidIff(Tracked(disk, LogRotated(t.log, t.disk.path, Some(did))), record.payload, outcome);
      }
    } else {
      StepWithoutRotation(t, record, rotation, outcome);
      AppendKeepsValidIff(t, record.payload, outcome);
    }
  }

  lemma StepKeepsValidIff(t: Tracked, e: Event)
    requires Valid(t)
    ensures Valid(Step(t, e)) <==> !LeavesFragment(t, e)
  {
    match e
    case Write(record, rotation, outcome) => WriteKeepsValidIff(t, record, rotation, outcome);
    case Reopen =>
      if t.disk.path !in t.disk.files {
        OpenKeepsValid(t);
      }
  }

  // ----- whole runs

  function Run(t: Tracked, events: seq<Event>): Tracked
    requires Valid(t) && Clean(t, events)
    ensures Valid(Run(t, events))
    decreases |events|
  {
    if events == [] then t else StepKeepsValidIff(t, events[0]); Run(Step(t, events[0]), events[1..])
  }

  /** Every failing write along the run is cut back. */
  ghost predicate Clean(t: Tracked, events: seq<Event>)
    requires Valid(t)
    decreases |events|
  {
    events == [] ||
    (!LeavesFragment(t, events[0]) && (StepKeepsValidIff(t, events[0]); Clean(Step(t, events[0]), events[1..])))
  }

  /** The payload that the device said it stored, if the event is a write that succeeds. */
  function StoredBy(t: Tracked, e: Event): seq<string>
    requires SizeTracked(t.disk)
  {
    if e.Write? && AfterWrite(t.disk, e.record, e.rotation, e.outcome).2 then [e.record.payload] else []
  }

  /** The payloads the device said it stored, in order. */
  function AcceptedOf(t: Tracked, events: seq<Event>): seq<string>
    requires Valid(t) && Clean(t, events)
    decreases |events|
  {
    if events == [] then []
    else
      StepKeepsValidIff(t, events[0]);
      StoredBy(t, events[0]) + AcceptedOf(Step(t, events[0]), events[1..])
  }

  // ----- conservation

  lemma {:induction false} LinesOfConcat(a: seq<string>, b: seq<string>)
    ensures LinesOf(a + b) == LinesOf(a) + LinesOf(b)
  {
    if b == [] {
      assert a + b == a;
    } else {
      assert (a + b)[..|a + b| - 1] == a + b[..|b| - 1];
      LinesOfConcat(a, b[..|b| - 1]);
    }
  }

  /** The contents of the first `n` files, in the order the files were created. */
  function Contents(t: Tracked, n: nat): string
    requires n <= |t.log.segments|
  {
    if n == 0 then ""
    else
      var name := t.log.segments[n - 1];
      Contents(t, n - 1) + if name in t.disk.files then t.disk.files[name] else ""
  }

  lemma ContentsStep(t: Tracked, n: nat)
    requires n < |t.log.segments| == |t.log.accepted| && Holds(t, n)
    ensures Contents(t, n + 1) == Contents(t, n) + (BaseOf(t.log, n) + LinesOf(t.log.accepted[n]))
  {
  }

  lemma NothingBefore(s: string)
    ensures "" + s == s
  {
  }

  lemma {:induction false} ContentsAreLines(t: Tracked, n: nat)
    requires n <= |t.log.segments| == |t.log.accepted| && forall k :: 0 <= k < |t.log.segments| ==> Holds(t, k)
    ensures Contents(t, n) == (if n == 0 then "" else t.log.before) + LinesOf(Flatten(t.log.accepted[..n]))
  {
    if n > 0 {
      ContentsAreLines(t, n - 1);
      ContentsStep(t, n - 1);
      FlattenPrefixLines(t.log.accepted, n);
      var lines := LinesOf(t.log.accepted[n - 1]);
      NothingBefore(t.log.before + lines);
      NothingBefore(lines);
      if n > 1 {
        Regroup(t.log.before, LinesOf(Flatten(t.log.accepted[..n - 1])), lines);
      }
    }
  }

  lemma FlattenPrefixLines(a: seq<seq<string>>, n: nat)
    requires 0 < n <= |a|
    ensures LinesOf(Flatten(a[..n])) == LinesOf(Flatten(a[..n - 1])) + LinesOf(a[n - 1])
    ensures n == 1 ==> LinesOf(Flatten(a[..n])) == LinesOf(a[0])
  {
    assert a[..n] == a[..n - 1] + [a[n - 1]];
    FlattenAppend(a[..n - 1], [a[n - 1]]);
    assert Flatten([a[n - 1]]) == a[n - 1];
    LinesOfConcat(Flatten(a[..n - 1]), a[n - 1]);
    if n == 1 {
      assert a[..0] == [];
    }
  }

  lemma FlattenGrows(parts: seq<seq<string>>, payload: string)
    requires parts != []
    ensures var last := |parts| - 1;
            Flatten(parts[last := parts[last] + [payload]]) == Flatten(parts) + [payload]
  {
    var last := |parts| - 1;
    FlattenAppend(parts[..last], [parts[last]]);
    FlattenAppend(parts[..last], [parts[last] + [payload]]);
    assert parts == parts[..last] + [parts[last]];
    assert parts[last := parts[last] + [payload]] == parts[..last] + [parts[last] + [payload]];
  }

  lemma FlattenEmptyLast(parts: seq<seq<string>>)
    ensures Flatten(parts + [[]]) == Flatten(parts)
  {
    FlattenAppend(parts, [[]]);
    var none: seq<seq<string>> := [[]];
    assert none[1..] == [] && Flatten(none) == [];
  }

  lemma RotationKeepsAccepted(log: Log, path: string, did: Option<Rotated>, payload: string)
    requires log.segments != [] && log.accepted != []
    ensures var after := LogRotated(log, path, did);
            && after.accepted != [] && after.before == log.before
            && Flatten(after.accepted) == Flatten(log.accepted)
            && Flatten(LogStore(after, payload).accepted) == Flatten(log.accepted) + [payload]
  {
    FlattenEmptyLast(log.accepted);
    FlattenGrows(LogRotated(log, path, did).accepted, payload);
  }

  lemma StepLogsAccepted(t: Tracked, e: Event)
    requires Valid(t)
    ensures Flatten(Step(t, e).log.accepted) == Flatten(t.log.accepted) + StoredBy(t, e)
    ensures Step(t, e).log.before == t.log.before
  {
    match e
    case Write(record, rotation, outcome) =>
      RotationKeepsAccepted(t.log, t.disk.path, AfterWrite(t.disk, record, rotation, outcome).1, record.payload);
    case Reopen =>
      FlattenEmptyLast(t.log.accepted);
  }

  lemma {:induction false} RunLogsAccepted(t: Tracked, events: seq<Event>)
    requires Valid(t) && Clean(t, events)
    ensures Flatten(Run(t, events).log.accepted) == Flatten(t.log.accepted) + AcceptedOf(t, events)
    ensures Run(t, events).log.before == t.log.before
    decreases |events|
  {
    if events == [] {
      assert Flatten(t.log.accepted) + [] == Flatten(t.log.accepted);
    } else {
      var next := Step(t, events[0]);
      StepKeepsValidIff(t, events[0]);
      StepLogsAccepted(t, events[0]);
      RunLogsAccepted(next, events[1..]);
      Regroup(Flatten(t.log.accepted), StoredBy(t, events[0]), AcceptedOf(next, events[1..]));
    }
  }

  /**
   * The files in the order they were created, one after the other, are what was there at the start
   * and then exactly the accepted records, each a whole line of one file.
   */
  lemma RunConservesLines(path: string, rotateAt: Option<nat>, files: map<string, string>, events: seq<Event>)
    requires Clean(Opened(path, rotateAt, files), events)
    ensures var t := Run(Opened(path, rotateAt, files), events);
            && Distinct(t.log.segments)
            && |t.log.segments| == |t.log.accepted| && t.log.before == (if path in files then files[path] else "")
            && (forall k :: 0 <= k < |t.log.segments| ==> Holds(t, k))
            && Contents(t, |t.log.segments|) ==
               t.log.before + LinesOf(AcceptedOf(Opened(path, rotateAt, files), events))
  {
    var start := Opened(path, rotateAt, files);
    var t := Run(start, events);
    ContentsAreLines(t, |t.log.segments|);
    assert t.log.accepted[..|t.log.segments|] == t.log.accepted;
    RunLogsAccepted(start, events);
    FlattenEmptyLast([]);
    assert [] + [[]] == start.log.accepted && Flatten(start.log.accepted) == [];
    assert Flatten(t.log.accepted) == AcceptedOf(start, events);
  }

  /** A file that began empty exceeds the limit only if it holds a single record; the open file's size is tracked. */
  lemma RunKeepsFilesBounded(path: string, limit: nat, files: map<string, string>, events: seq<Event>, k: nat)
    requires Clean(Opened(path, Some(limit), files), events)
    requires k < |Run(Opened(path, Some(limit), files), events).log.segments|
    requires k > 0 || path !in files || files[path] == ""
    ensures var t := Run(Opened(path, Some(limit), files), events);
            && |t.log.accepted| == |t.log.segments| && t.log.segments[k] in t.disk.files
            && t.disk.files[t.log.segments[k]] == LinesOf(t.log.accepted[k])
            && (|t.disk.files[t.log.segments[k]]| > limit ==> |t.log.accepted[k]| == 1)
            && t.disk.handle in t.disk.files && t.disk.written == |t.disk.files[t.disk.handle]|
  {
    var start := Opened(path, Some(limit), files);
    var t := Run(start, events);
    RunLogsAccepted(start, events);
    RunKeepsSettings(start, events);
    assert Holds(t, k) && Bounded(t, k);
    NothingBefore(LinesOf(t.log.accepted[k]));
  }

  lemma RotateKeepsSettings(disk: Disk, millis: int, nextSeq: nat, outcome: RotateOutcome)
    ensures var after := AfterRotate(disk, millis, nextSeq, outcome).0;
            after.path == disk.path && after.rotateAt == disk.rotateAt
  {
  }

  lemma WriteKeepsSettings(disk: Disk, record: EncodedRecord, rotation: RotateOutcome, outcome: WriteOutcome)
    requires SizeTracked(disk)
    ensures var after := AfterWrite(disk, record, rotation, outcome).0;
            after.path == disk.path && after.rotateAt == disk.rotateAt
  {
    RotateKeepsSettings(disk, record.tsMillis, record.seqNo, rotation);
  }

  lemma StepKeepsSettings(t: Tracked, e: Event)
    requires SizeTracked(t.disk) && t.log.segments != [] && t.log.accepted != []
    ensures Step(t, e).disk.path == t.disk.path && Step(t, e).disk.rotateAt == t.disk.rotateAt
  {
    if e.Write? {
      WriteKeepsSettings(t.disk, e.record, e.rotation, e.outcome);
    }
  }

  lemma {:induction false} RunKeepsSettings(t: Tracked, events: seq<Event>)
    requires Valid(t) && Clean(t, events)
    ensures Run(t, events).disk.path == t.disk.path && Run(t, events).disk.rotateAt == t.disk.rotateAt
    decreases |events|
  {
    if events != [] {
      StepKeepsValidIff(t, events[0]);
      StepKeepsSettings(t, events[0]);
      RunKeepsSettings(Step(t, events[0]), events[1..]);
    }
  }

  /** A file that is neither live nor open is never touched again: no archive is replaced or grows. */
  lemma {:induction false} ClosedFilesStay(t: Tracked, events: seq<Event>, f: string)
    requires Valid(t) && Clean(t, events)
    requires f in t.disk.files && f != t.disk.path && f != t.disk.handle
    ensures f in Run(t, events).disk.files && Run(t, events).disk.files[f] == t.disk.files[f]
    decreases |events|
  {
    if events != [] {
      StepKeepsValidIff(t, events[0]);
      StepKeepsClosedFile(t, events[0], f);
      ClosedFilesStay(Step(t, events[0]), events[1..], f);
    }
  }

  lemma RotateKeepsClosedFile(disk: Disk, millis: int, nextSeq: nat, outcome: RotateOutcome, f: string)
    requires f in disk.files && f != disk.path && f != disk.handle
    ensures var after := AfterRotate(disk, millis, nextSeq, outcome).0;
            f in after.files && after.files[f] == disk.files[f] && f != after.path && f != after.handle
  {
    RotateOutcomes(disk, millis, nextSeq, outcome);
    var did := AfterRotate(disk, millis, nextSeq, outcome).1;
    if !did.Refused? {
      RenameKeepsClosedFile(disk, ArchiveName(disk.path, did.to), f);
    }
  }

  lemma RenameKeepsClosedFile(disk: Disk, to: string, f: string)
    requires disk.path in disk.files && to !in disk.files
    requires f in disk.files && f != disk.path
    ensures var after := AfterRename(disk, to);
            f in after.files && after.files[f] == disk.files[f] && f != after.path && f != after.handle
    ensures var after := AfterOpen(AfterRename(disk, to));
            f in after.files && after.files[f] == disk.files[f] && f != after.path && f != after.handle
  {
  }

  lemma AppendKeepsClosedFile(disk: Disk, payload: string, outcome: WriteOutcome, f: string)
    requires SizeTracked(disk) && f in disk.files && f != disk.path && f != disk.handle
    ensures var after := AfterAppend(disk, payload, outcome);
            f in after.files && after.files[f] == disk.files[f] && f != after.path && f != after.handle
  {
  }

  lemma StepKeepsClosedFile(t: Tracked, e: Event, f: string)
    requires Valid(t) && f in t.disk.files && f != t.disk.path && f != t.disk.handle
    ensures var u := Step(t, e).disk;
            f in u.files && u.files[f] == t.disk.files[f] && f != u.path && f != u.handle
  {
    match e
    case Write(record, rotation, outcome) =>
      if MustRotate(t.disk, record.payload) {
        RotateKeepsClosedFile(t.disk, record.tsMillis, record.seqNo, rotation, f);
        var (disk, did) := AfterRotate(t.disk, record.tsMillis, record.seqNo, rotation);
        if did.Restarted? {
          AppendKeepsClosedFile(disk, record.payload, outcome, f);
        }
      } else {
        AppendKeepsClosedFile(t.disk, record.payload, outcome, f);
      }
    case Reopen =>
  }

  // ----- the device as the sink sees it

  /** The payloads the device accepted into the file it is writing to. */
  function Current(log: Log): seq<string>
    requires log.accepted != []
  {
    log.accepted[|log.accepted| - 1]
  }

  lemma LogIsDevice(log: Log, path: string, did: Option<Rotated>, payload: string)
    requires log.segments != [] && log.accepted != []
    ensures var after := LogRotated(log, path, did);
            && after.accepted != []
            && Current(after) == (if did.Some? && did.value.Restarted? then [] else Current(log))
            && Current(LogStore(after, payload)) == Current(after) + [payload]
  {
  }

  lemma OpenFileHolds(t: Tracked)
    requires Valid(t)
    ensures t.disk.handle in t.disk.files
    ensures t.disk.files[t.disk.handle] == BaseOf(t.log, |t.log.segments| - 1) + LinesOf(Current(t.log))
  {
    assert Holds(t, |t.log.segments| - 1);
  }

  /** What a write does to the log of what was accepted into the open file, and how far that began empty. */
  lemma LogAfterWrite(t: Tracked, record: EncodedRecord, rotation: RotateOutcome, outcome: WriteOutcome)
    requires SizeTracked(t.disk) && t.log.segments != [] && t.log.accepted != []
    ensures var (_, did, stored) := AfterWrite(t.disk, record, rotation, outcome);
            var restarted := did.Some? && did.value.Restarted?;
            var log := Step(t, Write(record, rotation, outcome)).log;
            && log.accepted != [] && log.segments != []
            && Current(log) == (if restarted then [] else Current(t.log)) + (if stored then [record.payload] else [])
            && BaseOf(log, |log.segments| - 1) == if restarted then "" else BaseOf(t.log, |t.log.segments| - 1)
  {
    var (_, did, stored) := AfterWrite(t.disk, record, rotation, outcome);
    LogIsDevice(t.log, t.disk.path, did, record.payload);
    RotatedBase(t.log, t.disk.path, did);
    assert Current(LogRotated(t.log, t.disk.path, did)) + [] == Current(LogRotated(t.log, t.disk.path, did));
  }

  lemma RotatedBase(log: Log, path: string, did: Option<Rotated>)
    requires log.segments != []
    ensures var after := LogRotated(log, path, did);
            && after.segments != [] && after.before == log.before
            && |after.segments| == |log.segments| + if did.Some? && did.value.Restarted? then 1 else 0
  {
  }

  /**
   * A write appends to what the open file holds or stores nothing; a rotation on the way empties it
   * first, which is an archiving of the device.
   */
  lemma WriteIsDeviceWrite(t: Tracked, record: EncodedRecord, rotation: RotateOutcome, outcome: WriteOutcome)
    requires Valid(t)
    ensures var (_, did, stored) := AfterWrite(t.disk, record, rotation, outcome);
            var restarted := did.Some? && did.value.Restarted?;
            var base := if restarted then "" else BaseOf(t.log, |t.log.segments| - 1);
            var payloads := (if restarted then [] else Current(t.log)) + (if stored then [record.payload] else []);
            var after := Step(t, Write(record, rotation, outcome));
            && after.log.accepted != [] && Current(after.log) == payloads
            && (!LeavesPart(t.disk, record, rotation, outcome) ==>
                  after.disk.handle in after.disk.files && after.disk.files[after.disk.handle] == base + LinesOf(payloads))
  {
    LogAfterWrite(t, record, rotation, outcome);
    if !LeavesPart(t.disk, record, rotation, outcome) {
      WriteKeepsValidIff(t, record, rotation, outcome);
      OpenFileHolds(Step(t, Write(record, rotation, outcome)));
    }
  }

  /** The head read back from the disk is the last record accepted into the live file. */
  lemma HeadIsLastAccepted(w: Wire, t: Tracked)
    requires Valid(t) && t.disk.handle == t.disk.path && Current(t.log) != []
    requires IsRecordLine(Current(t.log)[|Current(t.log)| - 1])
    requires |t.log.accepted| == 1 && |Current(t.log)| == 1 ==> t.log.before == "" || t.log.before[|t.log.before| - 1] == '\n'
    ensures HeadOnDisk(w, t.disk) ==
            var payload := Current(t.log)[|Current(t.log)| - 1];
            if w.seqField(payload).None? then Err(NotARecord) else Ok(w.seqField(payload))
  {
    var n, live := |t.log.segments| - 1, Current(t.log);
    assert Holds(t, n);
    var payload, earlier := live[|live| - 1], LinesOf(live[..|live| - 1]);
    var preceding := BaseOf(t.log, n) + earlier;
    assert t.disk.files[t.disk.path] == preceding + (payload + "\n");
    assert |live| > 1 ==> earlier != "" && earlier[|earlier| - 1] == '\n';
    TailReader.LastLineOfAppended(preceding, payload);
  }
}
