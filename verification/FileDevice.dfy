/**
 * The file device (crates/ciphr-audit/src/file.rs). A file is its contents, one `char` per byte.
 * Whether a rename, an open or a write succeeds, and how much of a line a failing write leaves
 * behind, is chosen by the environment.
 */
module FileDevice {
  import opened Basics
  import opened Chain
  import TailReader
  import Timestamp

  const ATTEMPTS_PER_STAMP := 100

  // ----- archive names

  /** `str::replace(':', "-")`. */
  function Dashed(s: string): (d: string)
    ensures |d| == |s|
    ensures forall i :: 0 <= i < |s| ==> d[i] == if s[i] == ':' then '-' else s[i]
  {
    seq(|s|, i requires 0 <= i < |s| => if s[i] == ':' then '-' else s[i])
  }

  /** When a file was closed, the last sequence number in it, and which name was free. */
  datatype Rotation = Rotation(millis: int, closing: nat, attempt: nat)

  function Stamp(r: Rotation): string {
    Dashed(Timestamp.Rfc3339(r.millis)) + "-" + Timestamp.Decimal(r.closing)
    + if r.attempt == 0 then "" else "." + Timestamp.Decimal(r.attempt)
  }

  function ArchiveName(path: string, r: Rotation): string {
    path + "." + Stamp(r)
  }

  // ----- the device's state as a value, and what its operations do to it

  /** The directory by name, the name of the file the open handle writes to, and its tracked size. */
  datatype Disk = Disk(path: string, rotateAt: Option<nat>, files: map<string, string>, handle: string, written: nat)

  datatype RotateOutcome = Renames | RenameFails | OpenFails

  /** What a rotation did: nothing, only the rename, or the rename and a new live file. */
  datatype Rotated = Refused | Renamed(to: Rotation) | Restarted(to: Rotation)

  datatype WriteOutcome = Stores | Tears(kept: nat, rolledBack: bool)

  /** The first name of the stamp that no file has, from `attempt` on. */
  function FirstFree(disk: Disk, millis: int, closing: nat, attempt: nat): (r: Option<Rotation>)
    requires attempt <= ATTEMPTS_PER_STAMP + 1
    ensures r.Some? ==> ArchiveName(disk.path, r.value) !in disk.files && r.value.millis == millis
    decreases ATTEMPTS_PER_STAMP + 1 - attempt
  {
    if attempt > ATTEMPTS_PER_STAMP then None
    else if ArchiveName(disk.path, Rotation(millis, closing, attempt)) !in disk.files
    then Some(Rotation(millis, closing, attempt))
    else FirstFree(disk, millis, closing, attempt + 1)
  }

  function AfterRename(disk: Disk, to: string): Disk
    requires disk.path in disk.files
  {
    disk.(files := (disk.files - {disk.path})[to := disk.files[disk.path]], handle := to)
  }

  function AfterOpen(disk: Disk): Disk {
    disk.(files := disk.files[disk.path := ""], handle := disk.path, written := 0)
  }

  function AfterRotate(disk: Disk, millis: int, nextSeq: nat, outcome: RotateOutcome): (Disk, Rotated) {
    var free := FirstFree(disk, millis, if nextSeq == 0 then 0 else nextSeq - 1, 0);
    if free.None? || outcome == RenameFails || disk.path !in disk.files then (disk, Refused)
    else
      var renamed := AfterRename(disk, ArchiveName(disk.path, free.value));
      if outcome == OpenFails then (renamed, Renamed(free.value)) else (AfterOpen(renamed), Restarted(free.value))
  }

  predicate MustRotate(disk: Disk, payload: string) {
    disk.rotateAt.Some? && disk.written > 0 && disk.written + |payload| + 1 > disk.rotateAt.value
  }

  /** The open file is at least as long as the device believes. */
  predicate SizeTracked(disk: Disk) {
    disk.handle in disk.files && disk.written <= |disk.files[disk.handle]|
  }

  /** Writing at the end of the open file; a failure keeps part of the line, then cuts it off again. */
  function AfterAppend(disk: Disk, payload: string, outcome: WriteOutcome): Disk
    requires SizeTracked(disk)
  {
    var line, content := payload + "\n", disk.files[disk.handle];
    match outcome
    case Stores => disk.(files := disk.files[disk.handle := content + line], written := disk.written + |line|)
    case Tears(kept, rolledBack) =>
      var torn := content + if kept < |line| then line[..kept] else line;
      var left := if rolledBack then torn[..disk.written] else torn;
      disk.(files := disk.files[disk.handle := left])
  }

  /** The new state, what the rotation did if there was one, and whether the record is stored. */
  function AfterWrite(disk: Disk, record: EncodedRecord, rotation: RotateOutcome, outcome: WriteOutcome)
    : (Disk, Option<Rotated>, bool)
    requires SizeTracked(disk)
  {
    if MustRotate(disk, record.payload) then
      var (rotated, did) := AfterRotate(disk, record.tsMillis, record.seqNo, rotation);
      if did.Restarted? then (AfterAppend(rotated, record.payload, outcome), Some(did), outcome.Stores?)
      else (rotated, Some(did), false)
    else (AfterAppend(disk, record.payload, outcome), None, outcome.Stores?)
  }

  /** A write that gets as far as the file, tears its line and does not cut it back. */
  predicate LeavesPart(disk: Disk, record: EncodedRecord, rotation: RotateOutcome, outcome: WriteOutcome) {
    && outcome.Tears? && !outcome.rolledBack && outcome.kept > 0
    && (MustRotate(disk, record.payload) ==> AfterRotate(disk, record.tsMillis, record.seqNo, rotation).1.Restarted?)
  }

  function AfterReopen(disk: Disk): Disk {
    if disk.path in disk.files then disk.(handle := disk.path, written := |disk.files[disk.path]|)
    else AfterOpen(disk)
  }

  datatype HeadError = CannotOpen | NotARecord

  function HeadOnDisk(w: Wire, disk: Disk): Result<Option<nat>, HeadError> {
    if disk.path !in disk.files then Err(CannotOpen)
    else
      var line := TailReader.LastLineOf(disk.files[disk.path]);
      if line == "" then Ok(None)
      else if w.seqField(line).None? then Err(NotARecord)
      else Ok(w.seqField(line))
  }

  class FileDevice {
    const path: string
    const rotateAt: Option<nat>
    var files: map<string, string>
    var handle: string
    var written: nat

    function View(): Disk
      reads this
    {
      Disk(path, rotateAt, files, handle, written)
    }

    constructor Open(path: string, rotateAt: Option<nat>, files: map<string, string>)
      ensures View() == AfterReopen(Disk(path, rotateAt, files, path, 0))
    {
      this.path, this.rotateAt := path, rotateAt;
      var content := if path in files then files[path] else "";
      this.files := files[path := content];
      handle, written := path, |content|;
      assert path in files ==> files == files[path := content];
    }

    method Rotate(nowMillis: int, nextSeq: nat, outcome: RotateOutcome) returns (did: Rotated)
      modifies this
      ensures (View(), did) == AfterRotate(old(View()), nowMillis, nextSeq, outcome)
    {
      var closing := if nextSeq == 0 then 0 else nextSeq - 1;
      var attempt := 0;
      var rotated := ArchiveName(path, Rotation(nowMillis, closing, 0));
      for next := 1 to ATTEMPTS_PER_STAMP + 1
        invariant attempt == next - 1 && rotated == ArchiveName(path, Rotation(nowMillis, closing, attempt))
        invariant FirstFree(View(), nowMillis, closing, 0) == FirstFree(View(), nowMillis, closing, attempt)
        invariant View() == old(View())
      {
        if rotated !in files {
          break;
        }
        attempt := next;
        rotated := ArchiveName(path, Rotation(nowMillis, closing, attempt));
      }
      if rotated in files {
        return Refused;
      }
      var to := Rotation(nowMillis, closing, attempt);
      assert FirstFree(View(), nowMillis, closing, 0) == Some(to);
      if outcome == RenameFails || path !in files {
        return Refused;
      }
      files := (files - {path})[rotated := files[path]];
      handle := rotated;
      if outcome == OpenFails {
        return Renamed(to);
      }
      files := files[path := ""];
      handle, written := path, 0;
      return Restarted(to);
    }

    method Append(line: string, outcome: WriteOutcome)
      requires SizeTracked(View()) && line != "" && line[|line| - 1] == '\n'
      modifies this`files, this`written
      ensures View() == AfterAppend(old(View()), line[..|line| - 1], outcome)
    {
      assert line[..|line| - 1] + "\n" == line;
      var resumeAt := written;
      if outcome.Tears? {
        files := files[handle := files[handle] + if outcome.kept < |line| then line[..outcome.kept] else line];
        if outcome.rolledBack {
          files := files[handle := files[handle][..resumeAt]];
        }
      } else {
        files := files[handle := files[handle] + line];
        written := written + |line|;
      }
    }

    method Write(record: EncodedRecord, rotation: RotateOutcome, outcome: WriteOutcome) returns (ok: bool)
      requires SizeTracked(View())
      modifies this
      ensures var (disk, _, stored) := AfterWrite(old(View()), record, rotation, outcome);
              View() == disk && ok == stored
    {
      var line := record.payload + "\n";
      assert line[..|line| - 1] == record.payload;
      if rotateAt.Some? && written > 0 && written + |line| > rotateAt.value {
        var did := Rotate(record.tsMillis, record.seqNo, rotation);
        if !did.Restarted? {
          return false;
        }
      }
      Append(line, outcome);
      return outcome.Stores?;
    }

    method Reopen()
      modifies this
      ensures View() == AfterReopen(old(View()))
    {
      if path in files {
        handle, written := path, |files[path]|;
      } else {
        files := files[path := ""];
        handle, written := path, 0;
      }
    }

    /** Reads the live file from its end, in blocks of any size. */
    method HeadSeq(w: Wire, block: nat) returns (r: Result<Option<nat>, HeadError>)
      requires block > 0
      ensures r == HeadOnDisk(w, View())
    {
      if path !in files {
        return Err(CannotOpen);
      }
      if files[path] == "" {
        return Ok(None);
      }
      var line := TailReader.LastLine(files[path], block);
      if line == "" {
        return Ok(None);
      }
      var seqNo := w.seqField(line);
      if seqNo.None? {
        return Err(NotARecord);
      }
      return Ok(seqNo);
    }
  }
}
