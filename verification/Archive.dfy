/** The archive: finding a device's files and the records in them (crates/ciphr-audit/src/archive.rs). */
module Archive {
  import opened Basics
  import opened Chain
  import opened FileDevice
  import opened FileRuns
  import opened Verify
  import Text
  import Timestamp

  const STAMP_LEN := 24

  // ----- which files belong to a device

  predicate IsDigit(c: char) {
    '0' <= c <= '9'
  }

  predicate Digits(text: string) {
    text != "" && forall c :: c in text ==> IsDigit(c)
  }

  predicate IsArchiveTail(tail: string) {
    if tail == "" then true
    else if tail[0] != '-' then false
    else
      var rest := tail[1..];
      var dot := Text.IndexOf(rest, '.');
      if dot == |rest| then Digits(rest) else Digits(rest[..dot]) && Digits(rest[dot + 1..])
  }

  predicate HasStampShape(stamp: string) {
    forall i :: 0 <= i < |stamp| ==>
      if i == 4 || i == 7 || i == 13 || i == 16 then stamp[i] == '-'
      else if i == 10 then stamp[i] == 'T'
      else if i == 19 then stamp[i] == '.'
      else if i == 23 then stamp[i] == 'Z'
      else IsDigit(stamp[i])
  }

  predicate IsRotationStamp(suffix: string) {
    if |suffix| < STAMP_LEN then false
    else
      var stamp := suffix[..STAMP_LEN];
      if stamp[23] != 'Z' then false
      else
        && HasStampShape(stamp)
        && IsArchiveTail(suffix[STAMP_LEN..])
  }

  /** Whether a name in the directory is the live file or one that rotation made of it. */
  predicate InRotationSet(path: string, name: string) {
    name == path || (path + "." <= name && IsRotationStamp(name[|path| + 1..]))
  }

  lemma PlainTail(d: string)
    requires Digits(d)
    ensures IsArchiveTail("-" + d)
  {
    assert ("-" + d)[1..] == d && '.' !in d;
  }

  lemma NumberedTail(d: string, e: string)
    requires Digits(d) && Digits(e)
    ensures IsArchiveTail("-" + d + "." + e)
  {
    assert ("-" + d + "." + e)[1..] == d + ['.'] + e && '.' !in d;
    Text.IndexOfFirst(d, '.', e);
  }

  lemma TailIsRecognized(closing: nat, attempt: nat)
    ensures IsArchiveTail(
              "-" + Timestamp.Decimal(closing) + if attempt == 0 then "" else "." + Timestamp.Decimal(attempt))
  {
    var d, e := Timestamp.Decimal(closing), Timestamp.Decimal(attempt);
    if attempt == 0 {
      PlainTail(d);
      assert "-" + d + "" == "-" + d;
    } else {
      NumberedTail(d, e);
      Regroup("-" + d, ".", e);
    }
  }

  /** Outside the four-digit years the stamp has another shape. */
  lemma OddYearsAreMisshapen(millis: int)
    requires !Timestamp.InFourDigitYears(millis)
    ensures var text := Timestamp.Rfc3339(millis);
            |text| > 4 && (text[0] == '-' || IsDigit(text[4]))
  {
    var year := Timestamp.YearOf(millis);
    var field := Timestamp.Padded(year, 4);
    var text := Timestamp.Rfc3339(millis);
    assert Timestamp.Fields(millis)[0] == year;
    assert field + ['-'] <= text;
    if year < 0 {
      assert field[0] == '-' && |field| >= 4 by { PaddedLength(-year, 3); }
    } else {
      DecimalLength(year);
      assert field[4] in Timestamp.Decimal(year);
    }
  }

  lemma PaddedLength(n: nat, width: nat)
    ensures |Timestamp.Zeros(width - |Timestamp.Decimal(n)|) + Timestamp.Decimal(n)| >= width
  {
    ZerosLength(width - |Timestamp.Decimal(n)|);
  }

  lemma {:induction false} ZerosLength(n: int)
    ensures |Timestamp.Zeros(n)| == if n < 0 then 0 else n
  {
    if n > 0 {
      ZerosLength(n - 1);
    }
  }

  lemma DecimalLength(n: nat)
    requires n >= 10000
    ensures |Timestamp.Decimal(n)| >= 5
  {
    assert |Timestamp.Decimal(n / 10)| >= 4 by {
      assert |Timestamp.Decimal(n / 100)| >= 3 by {
        assert |Timestamp.Decimal(n / 1000)| >= 2;
      }
    }
  }

  lemma StampOf(path: string, r: Rotation)
    ensures |ArchiveName(path, r)| > |path| && path + "." <= ArchiveName(path, r)
    ensures ArchiveName(path, r)[|path| + 1..] == Stamp(r)
    ensures InRotationSet(path, ArchiveName(path, r)) <==> IsRotationStamp(Stamp(r))
  {
    assert ArchiveName(path, r) == (path + ".") + Stamp(r);
  }

  lemma DashedHasStampShape(text: string)
    requires Timestamp.HasShape(text)
    ensures |Dashed(text)| == STAMP_LEN && Dashed(text)[23] == 'Z' && HasStampShape(Dashed(text))
  {
  }

  lemma StampAndTail(stamp: string, tail: string)
    requires |stamp| == STAMP_LEN && stamp[23] == 'Z' && HasStampShape(stamp) && IsArchiveTail(tail)
    ensures IsRotationStamp(stamp + tail)
  {
    assert (stamp + tail)[..STAMP_LEN] == stamp && (stamp + tail)[STAMP_LEN..] == tail;
  }

  lemma WellShapedStampIsRecognized(r: Rotation)
    requires Timestamp.HasShape(Timestamp.Rfc3339(r.millis))
    ensures IsRotationStamp(Stamp(r))
  {
    var stamp, closing := Dashed(Timestamp.Rfc3339(r.millis)), Timestamp.Decimal(r.closing);
    var attempt := if r.attempt == 0 then "" else "." + Timestamp.Decimal(r.attempt);
    Regroup(stamp, "-", closing);
    Regroup(stamp, "-" + closing, attempt);
    TailIsRecognized(r.closing, r.attempt);
    DashedHasStampShape(Timestamp.Rfc3339(r.millis));
    StampAndTail(stamp, "-" + closing + attempt);
  }

  lemma MisshapenStampIsNot(r: Rotation)
    requires var text := Timestamp.Rfc3339(r.millis); |text| > 4 && (text[0] == '-' || IsDigit(text[4]))
    ensures !IsRotationStamp(Stamp(r))
  {
    var text := Timestamp.Rfc3339(r.millis);
    assert Stamp(r)[0] == Dashed(text)[0] && Stamp(r)[4] == Dashed(text)[4];
    if |Stamp(r)| >= 24 {
      assert Stamp(r)[..24][0] == Stamp(r)[0] && Stamp(r)[..24][4] == Stamp(r)[4];
    }
  }

  /** Every name a rotation can produce is found again exactly in the years 0000 to 9999. */
  lemma RotationIsRecognizedIff(path: string, r: Rotation)
    ensures InRotationSet(path, ArchiveName(path, r)) <==> Timestamp.InFourDigitYears(r.millis)
  {
    StampOf(path, r);
    if Timestamp.InFourDigitYears(r.millis) {
      Timestamp.TextHasShape(r.millis);
      WellShapedStampIsRecognized(r);
    } else {
      OddYearsAreMisshapen(r.millis);
      MisshapenStampIsNot(r);
    }
  }

  // ----- exactly which names are taken for archives

  /** A text laid out like the picture: a digit wherever the picture has a zero, the same character elsewhere. */
  predicate LaidOutAs(text: string, picture: string) {
    && |text| == |picture|
    && forall i :: 0 <= i < |picture| ==> if picture[i] == '0' then '0' <= text[i] <= '9' else text[i] == picture[i]
  }

  predicate IsNumber(text: string) {
    text != "" && forall c :: c in text ==> '0' <= c <= '9'
  }

  predicate IsNumbered(tail: string, closing: string) {
    IsNumber(closing) && tail == "-" + closing
  }

  predicate IsCounted(tail: string, closing: string, counter: string) {
    IsNumber(closing) && IsNumber(counter) && tail == "-" + closing + "." + counter
  }

  /** What may follow the stamp: nothing, a closing number, or a closing number and a counter. */
  ghost predicate ClosesWith(tail: string) {
    || tail == ""
    || (exists closing :: IsNumbered(tail, closing))
    || (exists closing, counter :: IsCounted(tail, closing, counter))
  }

  lemma CountedAt(rest: string, dot: nat)
    requires dot < |rest| && rest[dot] == '.' && Digits(rest[..dot]) && Digits(rest[dot + 1..])
    ensures IsCounted("-" + rest, rest[..dot], rest[dot + 1..])
  {
    var closing, counter := rest[..dot], rest[dot + 1..];
    assert rest == closing + "." + counter;
    assert "-" + rest == "-" + closing + "." + counter;
  }

  lemma TailCloses(tail: string)
    requires IsArchiveTail(tail)
    ensures ClosesWith(tail)
  {
    if tail != "" {
      var rest := tail[1..];
      var dot := Text.IndexOf(rest, '.');
      assert tail == "-" + rest;
      if dot < |rest| {
        CountedAt(rest, dot);
        assert IsCounted(tail, rest[..dot], rest[dot + 1..]);
      } else {
        assert IsNumbered(tail, rest);
      }
    }
  }

  lemma TailIff(tail: string)
    ensures IsArchiveTail(tail) <==> ClosesWith(tail)
  {
    if IsArchiveTail(tail) {
      TailCloses(tail);
    }
    if closing :| IsNumbered(tail, closing) {
      PlainTail(closing);
    }
    if closing, counter :| IsCounted(tail, closing, counter) {
      NumberedTail(closing, counter);
    }
  }

  lemma ShapeIff(stamp: string)
    ensures |stamp| == 24 && stamp[23] == 'Z' && HasStampShape(stamp) <==> LaidOutAs(stamp, "0000-00-00T00-00-00.000Z")
  {
  }

  ghost predicate IsArchiveOf(path: string, name: string, stamp: string, tail: string) {
    && name == path + "." + stamp + tail
    && LaidOutAs(stamp, "0000-00-00T00-00-00.000Z") && ClosesWith(tail)
  }

  lemma StampSplits(suffix: string)
    requires IsRotationStamp(suffix)
    ensures LaidOutAs(suffix[..24], "0000-00-00T00-00-00.000Z") && ClosesWith(suffix[24..])
  {
    ShapeIff(suffix[..24]);
    TailIff(suffix[24..]);
  }

  lemma LaidOutIsRecognized(stamp: string, tail: string)
    requires LaidOutAs(stamp, "0000-00-00T00-00-00.000Z") && ClosesWith(tail)
    ensures IsRotationStamp(stamp + tail)
  {
    ShapeIff(stamp);
    TailIff(tail);
    StampAndTail(stamp, tail);
  }

  lemma RecognizedIsArchive(path: string, name: string) returns (stamp: string, tail: string)
    requires path + "." <= name && IsRotationStamp(name[|path| + 1..])
    ensures IsArchiveOf(path, name, stamp, tail)
  {
    var suffix := name[|path| + 1..];
    StampSplits(suffix);
    stamp, tail := suffix[..24], suffix[24..];
    assert name == path + "." + suffix && suffix == stamp + tail;
    Regroup(path + ".", stamp, tail);
  }

  lemma ArchiveIsRecognized(path: string, name: string, stamp: string, tail: string)
    requires IsArchiveOf(path, name, stamp, tail)
    ensures InRotationSet(path, name)
  {
    LaidOutIsRecognized(stamp, tail);
    Regroup(path + ".", stamp, tail);
    assert name[|path| + 1..] == stamp + tail;
  }

  /** The names taken for the device's files are the live file's and those that have the form of an archive name. */
  lemma NameIsRecognizedIff(path: string, name: string)
    ensures InRotationSet(path, name) <==> name == path || exists stamp, tail :: IsArchiveOf(path, name, stamp, tail)
  {
    if path + "." <= name && IsRotationStamp(name[|path| + 1..]) {
      var stamp, tail := RecognizedIsArchive(path, name);
    }
    if stamp, tail :| IsArchiveOf(path, name, stamp, tail) {
      ArchiveIsRecognized(path, name, stamp, tail);
    }
  }

  // ----- which records an archive holds

  datatype Coverage = Coverage(missing: seq<nat>, found: int, lines: nat, files: nat)

  /** The records asked about, by the hash of their payload; the later of two with one hash stands. */
  function Asked(w: Wire, wanted: seq<StoredRecord>): map<Digest, nat> {
    if wanted == [] then map[]
    else
      var last := wanted[|wanted| - 1];
      Asked(w, wanted[..|wanted| - 1])[w.hash(last.payload) := last.seqNo]
  }

  ghost predicate InLines(w: Wire, lines: seq<string>, h: Digest) {
    exists line :: line in lines && !Text.IsBlank(line) && w.hash(line) == h
  }

  /** Some line of some file that is not blank has this hash. */
  ghost predicate InFiles(w: Wire, files: seq<string>, h: Digest) {
    exists file :: file in files && InLines(w, Text.Lines(file), h)
  }

  lemma InLinesGrows(w: Wire, lines: seq<string>, line: string, h: Digest)
    ensures InLines(w, lines + [line], h) <==> InLines(w, lines, h) || (!Text.IsBlank(line) && w.hash(line) == h)
  {
    assert line in lines + [line];
    assert forall l :: l in lines ==> l in lines + [line];
  }

  lemma InFilesGrows(w: Wire, files: seq<string>, file: string, h: Digest)
    ensures InFiles(w, files + [file], h) <==> InFiles(w, files, h) || InLines(w, Text.Lines(file), h)
  {
    assert file in files + [file];
    assert forall f :: f in files ==> f in files + [file];
  }

  function CountLines(lines: seq<string>): nat {
    if lines == [] then 0
    else CountLines(lines[..|lines| - 1]) + if Text.IsBlank(lines[|lines| - 1]) then 0 else 1
  }

  /** A line was read and nothing asked about is outstanding. */
  ghost predicate Settled(w: Wire, lines: seq<string>, asked: set<Digest>) {
    && (exists line :: line in lines && !Text.IsBlank(line))
    && forall h :: h in asked ==> InLines(w, lines, h)
  }

  /** The first place from `k` on where the scan of a file stops, or its end. */
  ghost function StopsAt(w: Wire, lines: seq<string>, asked: set<Digest>, k: nat): (stop: nat)
    requires k <= |lines|
    ensures k <= stop <= |lines| && (stop < |lines| ==> Settled(w, lines[..stop], asked))
    ensures forall j :: k <= j < stop ==> !Settled(w, lines[..j], asked)
    decreases |lines| - k
  {
    if k == |lines| || Settled(w, lines[..k], asked) then k else StopsAt(w, lines, asked, k + 1)
  }

  /** The lines of one file that are counted: those that are not blank, up to the one that settles what is asked. */
  ghost function LinesRead(w: Wire, lines: seq<string>, asked: set<Digest>): nat {
    CountLines(lines[..StopsAt(w, lines, asked, 0)])
  }

  ghost function Outstanding(w: Wire, files: seq<string>, asked: set<Digest>): set<Digest> {
    set h | h in asked && !InFiles(w, files, h)
  }

  /** Each file is read for what the files before it left outstanding. */
  ghost function FilesRead(w: Wire, files: seq<string>, asked: set<Digest>): nat {
    if files == [] then 0
    else
      var before := files[..|files| - 1];
      FilesRead(w, before, asked) + LinesRead(w, Text.Lines(files[|files| - 1]), Outstanding(w, before, asked))
  }

  lemma StopsAtIs(w: Wire, lines: seq<string>, asked: set<Digest>, stop: nat)
    requires stop <= |lines| && (stop < |lines| ==> Settled(w, lines[..stop], asked))
    requires forall j :: 0 <= j < stop ==> !Settled(w, lines[..j], asked)
    ensures LinesRead(w, lines, asked) == CountLines(lines[..stop])
  {
    assert StopsAt(w, lines, asked, 0) == stop;
  }

  /** Before the first `k` lines are read, at no point was everything settled. */
  ghost predicate Unsettled(w: Wire, lines: seq<string>, asked: set<Digest>, k: nat)
    requires k <= |lines|
  {
    forall j :: 0 <= j <= k ==> !Settled(w, lines[..j], asked)
  }

  lemma OneMoreLine(w: Wire, lines: seq<string>, k: nat)
    requires k < |lines|
    ensures CountLines(lines[..k + 1]) == CountLines(lines[..k]) + if Text.IsBlank(lines[k]) then 0 else 1
    ensures forall h :: InLines(w, lines[..k + 1], h) <==>
              InLines(w, lines[..k], h) || (!Text.IsBlank(lines[k]) && w.hash(lines[k]) == h)
  {
    assert lines[..k + 1] == lines[..k] + [lines[k]] && lines[..k + 1][..k] == lines[..k];
    forall h
      ensures InLines(w, lines[..k + 1], h) <==>
                InLines(w, lines[..k], h) || (!Text.IsBlank(lines[k]) && w.hash(lines[k]) == h)
    {
      InLinesGrows(w, lines[..k], lines[k], h);
    }
  }

  lemma StillUnsettled(w: Wire, lines: seq<string>, asked: set<Digest>, k: nat)
    requires k < |lines| && Unsettled(w, lines, asked, k)
    requires Text.IsBlank(lines[k]) || exists h :: h in asked && !InLines(w, lines[..k + 1], h)
    ensures Unsettled(w, lines, asked, k + 1)
  {
    OneMoreLine(w, lines, k);
    assert !Settled(w, lines[..k], asked);
    assert lines[..k + 1] == lines[..k] + [lines[k]];
  }

  lemma SettledNow(w: Wire, lines: seq<string>, asked: set<Digest>, k: nat)
    requires k < |lines| && Unsettled(w, lines, asked, k) && !Text.IsBlank(lines[k])
    requires forall h :: h in asked ==> InLines(w, lines[..k + 1], h)
    ensures LinesRead(w, lines, asked) == CountLines(lines[..k + 1])
    ensures forall h :: h in asked ==> InLines(w, lines, h)
  {
    assert lines[..k + 1][k] == lines[k];
    StopsAtIs(w, lines, asked, k + 1);
    forall h | h in asked ensures InLines(w, lines, h) {
      var found :| found in lines[..k + 1] && !Text.IsBlank(found) && w.hash(found) == h;
      assert found in lines;
    }
  }

  lemma NeverSettled(w: Wire, lines: seq<string>, asked: set<Digest>)
    requires Unsettled(w, lines, asked, |lines|)
    ensures LinesRead(w, lines, asked) == CountLines(lines)
  {
    StopsAtIs(w, lines, asked, |lines|);
    assert lines[..|lines|] == lines;
  }

  /** What of `before` no line has accounted for. */
  ghost predicate LeftOver(w: Wire, lines: seq<string>, before: map<Digest, nat>, outstanding: map<Digest, nat>) {
    && (forall h :: h in outstanding <==> h in before && !InLines(w, lines, h))
    && (forall h :: h in outstanding ==> outstanding[h] == before[h])
  }

  lemma LineLeavesOver(w: Wire, lines: seq<string>, k: nat, before: map<Digest, nat>, outstanding: map<Digest, nat>)
    requires k < |lines| && LeftOver(w, lines[..k], before, outstanding)
    ensures LeftOver(w, lines[..k + 1], before,
                     if Text.IsBlank(lines[k]) then outstanding else outstanding - {w.hash(lines[k])})
  {
    OneMoreLine(w, lines, k);
  }

  lemma NothingLeft(w: Wire, lines: seq<string>, k: nat, before: map<Digest, nat>, outstanding: map<Digest, nat>)
    requires k < |lines| && LeftOver(w, lines[..k + 1], before, outstanding) && |outstanding| == 0
    requires Unsettled(w, lines, before.Keys, k) && !Text.IsBlank(lines[k])
    ensures LeftOver(w, lines, before, outstanding)
    ensures LinesRead(w, lines, before.Keys) == CountLines(lines[..k + 1])
  {
    assert forall h :: h !in outstanding;
    SettledNow(w, lines, before.Keys, k);
  }

  lemma SomethingLeft(w: Wire, lines: seq<string>, k: nat, before: map<Digest, nat>, outstanding: map<Digest, nat>)
    requires k < |lines| && LeftOver(w, lines[..k + 1], before, outstanding)
    requires Text.IsBlank(lines[k]) || |outstanding| > 0
    requires Unsettled(w, lines, before.Keys, k)
    ensures Unsettled(w, lines, before.Keys, k + 1)
  {
    if !Text.IsBlank(lines[k]) {
      assert outstanding.Keys != {};
      var h :| h in outstanding.Keys;
      assert h in before.Keys && !InLines(w, lines[..k + 1], h);
    }
    StillUnsettled(w, lines, before.Keys, k);
  }

  /** One file's lines, up to the one that leaves nothing outstanding. */
  method ScanLines(
      w: Wire, lines: seq<string>, before: map<Digest, nat>) returns (outstanding: map<Digest, nat>, read: nat)
    ensures LeftOver(w, lines, before, outstanding)
    ensures read == LinesRead(w, lines, before.Keys)
  {
    outstanding, read := before, 0;
    for k := 0 to |lines|
      invariant LeftOver(w, lines[..k], before, outstanding)
      invariant read == CountLines(lines[..k]) && Unsettled(w, lines, before.Keys, k)
    {
      LineLeavesOver(w, lines, k, before, outstanding);
      OneMoreLine(w, lines, k);
      if !Text.IsBlank(lines[k]) {
        read := read + 1;
        outstanding := outstanding - {w.hash(lines[k])};
        if |outstanding| == 0 {
          NothingLeft(w, lines, k, before, outstanding);
          return;
        }
      }
      SomethingLeft(w, lines, k, before, outstanding);
    }
    assert lines[..|lines|] == lines;
    NeverSettled(w, lines, before.Keys);
  }

  predicate Sorted(s: seq<nat>) {
    forall i, j :: 0 <= i < j < |s| ==> s[i] <= s[j]
  }

  /** The values of a map, lowest first. */
  method SortedValues(m: map<Digest, nat>) returns (values: seq<nat>)
    ensures |values| == |m| && Sorted(values)
    ensures forall v :: v in values <==> exists h :: h in m && m[h] == v
  {
    values := [];
    var rest := m.Keys;
    while rest != {}
      invariant rest <= m.Keys && |values| + |rest| == |m.Keys| && Sorted(values)
      invariant forall v :: v in values <==> exists h :: h in m.Keys - rest && m[h] == v
      decreases |rest|
    {
      var h :| h in rest;
      var done := m.Keys - rest;
      rest := rest - {h};
      assert m.Keys - rest == done + {h};
      values := Insert(values, m[h]);
    }
  }

  method Insert(s: seq<nat>, v: nat) returns (t: seq<nat>)
    requires Sorted(s)
    ensures Sorted(t) && |t| == |s| + 1
    ensures forall x :: x in t <==> x in s || x == v
  {
    var i := 0;
    while i < |s| && s[i] <= v
      invariant 0 <= i <= |s| && forall j :: 0 <= j < i ==> s[j] <= v
    {
      i := i + 1;
    }
    t := s[..i] + [v] + s[i..];
    assert s == s[..i] + s[i..];
  }

  method CoverageOf(w: Wire, files: seq<string>, wanted: seq<StoredRecord>) returns (c: Coverage)
    ensures c.found + |c.missing| == |Asked(w, wanted)| && c.found >= 0
    ensures Sorted(c.missing) && c.files == |files|
    ensures forall s :: s in c.missing <==>
              exists h :: h in Asked(w, wanted) && !InFiles(w, files, h) && Asked(w, wanted)[h] == s
    ensures c.missing == [] <==> forall h :: h in Asked(w, wanted) ==> InFiles(w, files, h)
    ensures c.lines == FilesRead(w, files, Asked(w, wanted).Keys)
  {
    var all := Asked(w, wanted);
    var outstanding, lines := all, 0;
    for k := 0 to |files|
      invariant StillAsked(w, files[..k], all, outstanding) && lines == FilesRead(w, files[..k], all.Keys)
    {
      assert outstanding.Keys == Outstanding(w, files[..k], all.Keys);
      ghost var before := outstanding;
      var read;
      outstanding, read := ScanLines(w, Text.Lines(files[k]), outstanding);
      OneMoreFile(w, files, k, all, before, outstanding);
      OneMoreFileRead(w, files, k, all.Keys);
      lines := lines + read;
    }
    assert files[..|files|] == files;
    var missing := SortedValues(outstanding);
    KeysShrink(outstanding, all);
    c := Coverage(missing, |all| - |missing|, lines, |files|);
    NothingMissingIff(w, files, all, outstanding);
  }

  /** What of `all` no file has accounted for. */
  ghost predicate StillAsked(w: Wire, files: seq<string>, all: map<Digest, nat>, outstanding: map<Digest, nat>) {
    && (forall h :: h in outstanding <==> h in all && !InFiles(w, files, h))
    && (forall h :: h in outstanding ==> h in all && outstanding[h] == all[h])
  }

  lemma OneMoreFile(
    w: Wire, files: seq<string>, k: nat, all: map<Digest, nat>, before: map<Digest, nat>, after: map<Digest, nat>)
    requires k < |files| && StillAsked(w, files[..k], all, before)
    requires LeftOver(w, Text.Lines(files[k]), before, after)
    ensures StillAsked(w, files[..k + 1], all, after)
  {
    var seen, now := files[..k], files[..k + 1];
    assert now == seen + [files[k]];
    forall h ensures InFiles(w, now, h) <==> InFiles(w, seen, h) || InLines(w, Text.Lines(files[k]), h) {
      InFilesGrows(w, seen, files[k], h);
    }
  }

  lemma OneMoreFileRead(w: Wire, files: seq<string>, k: nat, asked: set<Digest>)
    requires k < |files|
    ensures FilesRead(w, files[..k + 1], asked) ==
            FilesRead(w, files[..k], asked) + LinesRead(w, Text.Lines(files[k]), Outstanding(w, files[..k], asked))
  {
    assert files[..k + 1][..k] == files[..k];
  }

  lemma NothingMissingIff(w: Wire, files: seq<string>, all: map<Digest, nat>, outstanding: map<Digest, nat>)
    requires StillAsked(w, files, all, outstanding)
    ensures |outstanding| == 0 <==> forall h :: h in all ==> InFiles(w, files, h)
  {
    if forall h :: h in all ==> InFiles(w, files, h) {
      assert outstanding.Keys == {};
    } else {
      var h :| h in all && !InFiles(w, files, h);
      assert h in outstanding.Keys;
    }
  }

  lemma KeysShrink(a: map<Digest, nat>, b: map<Digest, nat>)
    requires forall h :: h in a ==> h in b
    ensures |a| <= |b|
  {
    assert a.Keys <= b.Keys;
    assert b.Keys == a.Keys + (b.Keys - a.Keys);
  }

  lemma {:induction false} AskedComesFrom(w: Wire, wanted: seq<StoredRecord>, h: Digest)
    requires h in Asked(w, wanted)
    ensures exists i :: 0 <= i < |wanted| && w.hash(wanted[i].payload) == h && Asked(w, wanted)[h] == wanted[i].seqNo
  {
    var n := |wanted| - 1;
    if w.hash(wanted[n].payload) != h {
      AskedComesFrom(w, wanted[..n], h);
      var i :| 0 <= i < n && w.hash(wanted[..n][i].payload) == h && Asked(w, wanted[..n])[h] == wanted[..n][i].seqNo;
      assert wanted[..n][i] == wanted[i];
    }
  }

  lemma {:induction false} AskedHas(w: Wire, wanted: seq<StoredRecord>, i: nat)
    requires i < |wanted|
    ensures w.hash(wanted[i].payload) in Asked(w, wanted)
  {
    var n := |wanted| - 1;
    if i < n {
      AskedHas(w, wanted[..n], i);
      assert wanted[..n][i] == wanted[i];
    }
  }

  /** Of records told apart by number and by hash, one is missing exactly when no line has its hash. */
  lemma MissingIffNoLine(w: Wire, files: seq<string>, wanted: seq<StoredRecord>, i: nat)
    requires i < |wanted|
    requires forall j :: 0 <= j < |wanted| && j != i ==>
               wanted[j].seqNo != wanted[i].seqNo && w.hash(wanted[j].payload) != w.hash(wanted[i].payload)
    ensures (exists h :: h in Asked(w, wanted) && !InFiles(w, files, h) && Asked(w, wanted)[h] == wanted[i].seqNo)
       <==> !InFiles(w, files, w.hash(wanted[i].payload))
  {
    var own := w.hash(wanted[i].payload);
    AskedHas(w, wanted, i);
    AskedComesFrom(w, wanted, own);
    forall h | h in Asked(w, wanted) && Asked(w, wanted)[h] == wanted[i].seqNo
      ensures h == own
    {
      AskedComesFrom(w, wanted, h);
    }
  }

  // ----- a device's own files cover what it accepted

  lemma {:induction false} LinesOfAreLines(payloads: seq<string>)
    requires forall p :: p in payloads ==> IsRecordLine(p)
    ensures Text.EndsLine(LinesOf(payloads)) && Text.Lines(LinesOf(payloads)) == payloads
  {
    if payloads != [] {
      var n := |payloads| - 1;
      var last := payloads[n];
      LinesOfAreLines(payloads[..n]);
      assert last in payloads;
      Text.LinesConcat(LinesOf(payloads[..n]), last + "\n");
      Text.LinesOfOne(last, "");
      assert last + "\n" + "" == last + "\n";
      assert payloads == payloads[..n] + [last];
    }
  }

  lemma {:induction false} InFlatten(parts: seq<seq<string>>, payload: string) returns (k: nat)
    requires payload in Flatten(parts)
    ensures k < |parts| && payload in parts[k]
  {
    if payload in parts[0] {
      k := 0;
    } else {
      k := InFlatten(parts[1..], payload);
      k := k + 1;
    }
  }

  lemma FlattenHas(parts: seq<seq<string>>, k: nat, payload: string)
    requires k < |parts| && payload in parts[k]
    ensures payload in Flatten(parts)
  {
    if k > 0 {
      FlattenHas(parts[1..], k - 1, payload);
    }
  }

  /** `files` are the contents of every file the device's name leads to, in any order. */
  predicate ReadsRotationSet(t: Tracked, files: seq<string>) {
    forall name :: name in t.disk.files && InRotationSet(t.disk.path, name) ==> t.disk.files[name] in files
  }

  lemma LinesOfSegment(before: string, payloads: seq<string>, payload: string)
    requires Text.EndsLine(before) && payload in payloads
    requires forall p :: p in payloads ==> IsRecordLine(p)
    ensures payload in Text.Lines(before + LinesOf(payloads)) && !Text.IsBlank(payload)
  {
    LinesOfAreLines(payloads);
    Text.LinesConcat(before, LinesOf(payloads));
    Text.TrimKeeps(payload);
  }

  lemma SegmentIsRead(t: Tracked, files: seq<string>, k: nat)
    requires k < |t.log.segments| && Named(t, k) && t.log.segments[k] in t.disk.files && ReadsRotationSet(t, files)
    requires forall r :: r in t.log.rotations ==> Timestamp.InFourDigitYears(r.millis)
    ensures t.disk.files[t.log.segments[k]] in files
  {
    var name := t.log.segments[k];
    if name != t.disk.path {
      var r :| r in t.log.rotations && name == ArchiveName(t.disk.path, r);
      RotationIsRecognizedIff(t.disk.path, r);
    }
  }

  lemma AcceptedIsInFiles(w: Wire, t: Tracked, files: seq<string>, payload: string)
    requires Valid(t) && Text.EndsLine(t.log.before) && ReadsRotationSet(t, files)
    requires forall r :: r in t.log.rotations ==> Timestamp.InFourDigitYears(r.millis)
    requires forall p :: p in Flatten(t.log.accepted) ==> IsRecordLine(p)
    requires payload in Flatten(t.log.accepted)
    ensures InFiles(w, files, w.hash(payload))
  {
    var k := InFlatten(t.log.accepted, payload);
    var payloads, name := t.log.accepted[k], t.log.segments[k];
    assert Holds(t, k) && Named(t, k);
    forall p | p in payloads ensures IsRecordLine(p) {
      FlattenHas(t.log.accepted, k, p);
    }
    LinesOfSegment(BaseOf(t.log, k), payloads, payload);
    assert InLines(w, Text.Lines(t.disk.files[name]), w.hash(payload));
    SegmentIsRead(t, files, k);
  }

  /** Asked about any records the device accepted, the coverage of its own files is complete. */
  lemma OwnFilesCoverAccepted(w: Wire, t: Tracked, files: seq<string>, wanted: seq<StoredRecord>)
    requires Valid(t) && Text.EndsLine(t.log.before) && ReadsRotationSet(t, files)
    requires forall r :: r in t.log.rotations ==> Timestamp.InFourDigitYears(r.millis)
    requires forall p :: p in Flatten(t.log.accepted) ==> IsRecordLine(p)
    requires forall r :: r in wanted ==> r.payload in Flatten(t.log.accepted)
    ensures forall h :: h in Asked(w, wanted) ==> InFiles(w, files, h)
  {
    forall h | h in Asked(w, wanted) ensures InFiles(w, files, h) {
      AskedComesFrom(w, wanted, h);
      var i :| 0 <= i < |wanted| && w.hash(wanted[i].payload) == h;
      assert wanted[i] in wanted;
      AcceptedIsInFiles(w, t, files, wanted[i].payload);
    }
  }
}
