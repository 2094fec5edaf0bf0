/** Anchors: chain heads kept outside the store (crates/ciphr-audit/src/anchor.rs). */
module Anchor {
  import opened Basics
  import opened Chain
  import opened Verify
  import Hex
  import Text
  import Timestamp

  const FORMAT_VERSION := 1

  datatype Anchor = Anchor(takenAt: string, seqNo: nat, hash: Digest)

  function Over(verified: Verified, nowMillis: int): Anchor {
    Anchor(Timestamp.Rfc3339(nowMillis), verified.headSeq, verified.headHash)
  }

  // ----- the line an anchor is stored as

  datatype AnchorFields = AnchorFields(version: nat, takenAt: string, seqNo: nat, hash: string)

  /** The JSON layer of an anchor file. */
  datatype Json = Json(render: AnchorFields -> string, parse: string -> Option<AnchorFields>) {
    ghost predicate Lawful() {
      forall fields :: parse(render(fields)) == Some(fields) && IsRecordLine(render(fields))
    }

    /** The text of a JSON object is not one without its last characters. */
    ghost predicate NoPrefixParses() {
      forall fields, kept: nat :: kept < |render(fields)| ==> parse(render(fields)[..kept]) == None
    }
  }

  datatype AnchorError = Malformed | UnknownVersion(found: nat) | NotAHash(error: Hex.HexError) | ZeroSequence

  function Encode(json: Json, anchor: Anchor): string {
    json.render(AnchorFields(FORMAT_VERSION, anchor.takenAt, anchor.seqNo, Hex.Encoded(anchor.hash)))
  }

  function Parse(json: Json, line: string): Result<Anchor, AnchorError> {
    match json.parse(line)
    case None => Err(AnchorError.Malformed)
    case Some(fields) =>
      if fields.version != FORMAT_VERSION then Err(UnknownVersion(fields.version))
      else if fields.seqNo == 0 then Err(ZeroSequence)
      else
        match Hex.Decoded(fields.hash, 32)
        case Err(e) => Err(NotAHash(e))
        case Ok(hash) => Ok(Anchor(fields.takenAt, fields.seqNo, hash))
  }

  lemma ParseOfEncode(json: Json, anchor: Anchor)
    requires json.Lawful()
    ensures Parse(json, Encode(json, anchor)) == if anchor.seqNo == 0 then Err(ZeroSequence) else Ok(anchor)
  {
    var fields := AnchorFields(FORMAT_VERSION, anchor.takenAt, anchor.seqNo, Hex.Encoded(anchor.hash));
    assert json.parse(json.render(fields)) == Some(fields);
    Hex.DecodeOfEncode(anchor.hash);
  }

  /** The last line that is not blank. */
  function LastNonBlank(lines: seq<string>): Option<string> {
    if lines == [] then None
    else if !Text.IsBlank(lines[|lines| - 1]) then Some(lines[|lines| - 1])
    else LastNonBlank(lines[..|lines| - 1])
  }

  function Latest(json: Json, contents: string): Result<Option<Anchor>, AnchorError> {
    match LastNonBlank(Text.Lines(contents))
    case None => Ok(None)
    case Some(line) =>
      match Parse(json, line)
      case Err(e) => Err(e)
      case Ok(anchor) => Ok(Some(anchor))
  }

  lemma RecordLineIsPlain(line: string)
    requires IsRecordLine(line)
    ensures Text.IsPlainLine(line) && !Text.IsBlank(line)
  {
    Text.TrimKeeps(line);
  }

  /** The file as lines after one more anchor was appended to it. */
  lemma LinesAfterAppend(json: Json, contents: string, anchor: Anchor)
    requires json.Lawful() && Text.EndsLine(contents)
    ensures Text.Lines(contents + Encode(json, anchor) + "\n") == Text.Lines(contents) + [Encode(json, anchor)]
    ensures !Text.IsBlank(Encode(json, anchor))
  {
    var line := Encode(json, anchor);
    var fields := AnchorFields(FORMAT_VERSION, anchor.takenAt, anchor.seqNo, Hex.Encoded(anchor.hash));
    assert IsRecordLine(json.render(fields));
    RecordLineIsPlain(line);
    Text.LinesConcat(contents, line + "\n");
    assert contents + line + "\n" == contents + (line + "\n");
    Text.LinesOfOne(line, "");
    assert line + "\n" + "" == line + "\n";
  }

  /** The anchor appended last is the one that counts. */
  lemma LatestAfterAppend(json: Json, contents: string, anchor: Anchor)
    requires json.Lawful() && Text.EndsLine(contents) && anchor.seqNo > 0
    ensures Latest(json, contents + Encode(json, anchor) + "\n") == Ok(Some(anchor))
  {
    LinesAfterAppend(json, contents, anchor);
    ParseOfEncode(json, anchor);
  }

  /** What is left of an anchor's line after a crash inside its append, the line break not being reached. */
  function Torn(json: Json, anchor: Anchor, kept: nat): string
    requires kept <= |Encode(json, anchor)|
  {
    Encode(json, anchor)[..kept]
  }

  lemma LinesAfterTorn(json: Json, contents: string, anchor: Anchor, kept: nat)
    requires json.Lawful() && Text.EndsLine(contents) && 0 < kept <= |Encode(json, anchor)|
    ensures Text.Lines(contents + Torn(json, anchor, kept)) == Text.Lines(contents) + [Torn(json, anchor, kept)]
    ensures !Text.IsBlank(Torn(json, anchor, kept))
  {
    var fields := AnchorFields(FORMAT_VERSION, anchor.takenAt, anchor.seqNo, Hex.Encoded(anchor.hash));
    assert IsRecordLine(json.render(fields));
    var torn := Torn(json, anchor, kept);
    assert torn[0] == '{' && forall c :: c in torn ==> c in Encode(json, anchor);
    Text.LinesConcat(contents, torn);
    Text.LinesOfLast(torn);
    Text.TrimEndKeepsFirst(torn);
  }

  lemma LineIsNotEmpty(json: Json, anchor: Anchor)
    requires json.Lawful()
    ensures Encode(json, anchor) != ""
  {
    var fields := AnchorFields(FORMAT_VERSION, anchor.takenAt, anchor.seqNo, Hex.Encoded(anchor.hash));
    assert IsRecordLine(json.render(fields));
  }

  lemma ParseOfTorn(json: Json, anchor: Anchor, kept: nat)
    requires json.Lawful() && json.NoPrefixParses() && kept <= |Encode(json, anchor)|
    ensures Parse(json, Torn(json, anchor, kept)) ==
            if kept < |Encode(json, anchor)| then Err(AnchorError.Malformed)
            else if anchor.seqNo == 0 then Err(ZeroSequence)
            else Ok(anchor)
  {
    var fields := AnchorFields(FORMAT_VERSION, anchor.takenAt, anchor.seqNo, Hex.Encoded(anchor.hash));
    if kept < |Encode(json, anchor)| {
      assert json.parse(json.render(fields)[..kept]) == None;
    } else {
      assert Torn(json, anchor, kept) == Encode(json, anchor);
      ParseOfEncode(json, anchor);
    }
  }

  // ----- verification against an anchor

  function PositionOf(records: seq<StoredRecord>, seqNo: nat): (i: nat)
    ensures i <= |records|
    ensures i < |records| ==> records[i].seqNo == seqNo
    ensures forall j :: 0 <= j < i ==> records[j].seqNo != seqNo
  {
    if records == [] || records[0].seqNo == seqNo then 0 else 1 + PositionOf(records[1..], seqNo)
  }

  /** `u64::saturating_sub(1)`. */
  function SaturatingPred(n: nat): nat {
    if n == 0 then 0 else n - 1
  }

  function VerifyWithAnchor(
      w: Wire, anchor: Anchor, start: Start, records: seq<StoredRecord>): Result<Verified, ChainBreak> {
    if records == [] then Err(ChainBreak(anchor.seqNo, AnchorUnreachable(0)))
    else
      var headSeq := HeadSeq(records);
      var verified :- VerifyFrom(w, start, records);
      if anchor.seqNo == SaturatingPred(start.FirstSeq()) then
        var claimed := start.ExpectedPrev();
        if claimed != anchor.hash then
          Err(ChainBreak(anchor.seqNo, AnchorMismatch(Hex.Encoded(anchor.hash), Hex.Encoded(claimed))))
        else Ok(verified)
      else if anchor.seqNo < records[0].seqNo || anchor.seqNo > headSeq then
        Err(ChainBreak(anchor.seqNo, AnchorUnreachable(headSeq)))
      else
        var i := PositionOf(records, anchor.seqNo);
        if i == |records| then Err(ChainBreak(anchor.seqNo, AnchorUnreachable(verified.headSeq)))
        else
          var computed := w.hash(records[i].payload);
          if computed != anchor.hash then
            Err(ChainBreak(anchor.seqNo, AnchorMismatch(Hex.Encoded(anchor.hash), Hex.Encoded(computed))))
          else Ok(verified)
  }

  /** The anchor is what `over` gives for the first `k` records of a chain. */
  predicate AnchorsPrefix(w: Wire, anchor: Anchor, trail: seq<StoredRecord>, k: nat) {
    1 <= k <= |trail| && anchor.seqNo == trail[k - 1].seqNo && anchor.hash == w.hash(trail[k - 1].payload)
  }

  lemma OverAnchorsPrefix(w: Wire, trail: seq<StoredRecord>, k: nat, nowMillis: int)
    requires VerifyFrom(w, Genesis, trail).Ok? && 1 <= k <= |trail|
    ensures VerifyFrom(w, Genesis, trail[..k]).Ok?
    ensures AnchorsPrefix(w, Over(VerifyFrom(w, Genesis, trail[..k]).value, nowMillis), trail, k)
  {
    VerifyAcceptsIffSound(w, trail, GENESIS);
    SoundPrefix(w, trail, GENESIS, k);
    PrefixHead(w, trail, k);
    VerifyAcceptsIffSound(w, trail[..k], GENESIS);
  }

  lemma PrefixHead(w: Wire, trail: seq<StoredRecord>, k: nat)
    requires 1 <= k <= |trail|
    ensures trail[..k][0] == trail[0] && HeadSeq(trail[..k]) == trail[k - 1].seqNo
    ensures HeadHash(w, trail[..k], GENESIS) == w.hash(trail[k - 1].payload)
  {
  }

  /** The value the record with sequence number `seqNo` of a whole trail chains to. */
  function TrailPredecessor(w: Wire, trail: seq<StoredRecord>, seqNo: nat): Digest
    requires 1 <= seqNo <= |trail| + 1
  {
    Predecessor(w, trail, GENESIS, seqNo - 1)
  }

  /** The record that an anchor accepted inside the run was checked against. */
  lemma AnchoredRecord(w: Wire, anchor: Anchor, start: Start, records: seq<StoredRecord>) returns (n: nat)
    requires VerifyWithAnchor(w, anchor, start, records).Ok? && anchor.seqNo != SaturatingPred(start.FirstSeq())
    ensures n < |records| && records[n].seqNo == anchor.seqNo && w.hash(records[n].payload) == anchor.hash
    ensures Sound(w, records, start.ExpectedPrev()) && records[0].seqNo == start.FirstSeq()
  {
    n := PositionOf(records, anchor.seqNo);
    VerifyAcceptsIffSound(w, records, start.ExpectedPrev());
  }

  /** Equal hashes at `n` and `k - 1` make the runs the same back to the start of the one. */
  lemma SameUpTo(w: Wire, records: seq<StoredRecord>, prev: Digest, trail: seq<StoredRecord>, n: nat, k: nat)
    requires Sound(w, records, prev) && Sound(w, trail, GENESIS) && !CollisionIn(w, records, trail)
    requires n < |records| && n < k <= |trail| && w.hash(records[n].payload) == w.hash(trail[k - 1].payload)
    ensures forall i :: 0 <= i <= n ==> records[i].payload == trail[i + k - 1 - n].payload
    ensures prev == Predecessor(w, trail, GENESIS, k - 1 - n)
  {
    SameBackwards(w, records, prev, trail, GENESIS, n + 1, k, n + 1);
    forall i | 0 <= i <= n ensures records[i].payload == trail[i + k - 1 - n].payload {
      assert records[i].payload == trail[i - (n + 1) + k].payload;
    }
  }

  lemma SameRecordsUpTo(w: Wire, records: seq<StoredRecord>, prev: Digest, trail: seq<StoredRecord>, n: nat, k: nat)
    requires Sound(w, records, prev) && Sound(w, trail, GENESIS) && !CollisionIn(w, records, trail)
    requires n < |records| && 1 <= k <= |trail| && w.hash(records[n].payload) == w.hash(trail[k - 1].payload)
    requires records[0].seqNo > 0 && records[n].seqNo == k
    ensures records[0].seqNo <= k
    ensures forall i :: 0 <= i < |records| && records[i].seqNo <= k ==>
              1 <= records[i].seqNo && records[i].payload == trail[records[i].seqNo - 1].payload
    ensures prev == TrailPredecessor(w, trail, records[0].seqNo)
  {
    SoundSeqNos(w, records, prev, n);
    SameUpTo(w, records, prev, trail, n, k);
    forall i | 0 <= i < |records| && records[i].seqNo <= k
      ensures 1 <= records[i].seqNo && records[i].payload == trail[records[i].seqNo - 1].payload
    {
      SoundSeqNos(w, records, prev, i);
    }
  }

  /**
   * Soundness, inside the run: an accepted anchor pins every surviving record up to it and the
   * predecessor the start claims, or two stored payloads collide.
   */
  lemma AcceptedAnchorPinsRecords(
    w: Wire, trail: seq<StoredRecord>, k: nat, anchor: Anchor, start: Start, records: seq<StoredRecord>)
    requires VerifyFrom(w, Genesis, trail).Ok? && AnchorsPrefix(w, anchor, trail, k)
    requires VerifyWithAnchor(w, anchor, start, records).Ok?
    requires anchor.seqNo != SaturatingPred(start.FirstSeq())
    ensures || CollisionIn(w, records, trail)
            || (&& start.FirstSeq() <= k
                && (forall i :: 0 <= i < |records| && records[i].seqNo <= k ==>
                      1 <= records[i].seqNo && records[i].payload == trail[records[i].seqNo - 1].payload)
                && start.ExpectedPrev() == TrailPredecessor(w, trail, start.FirstSeq()))
  {
    VerifyAcceptsIffSound(w, trail, GENESIS);
    SoundSeqNos(w, trail, GENESIS, k - 1);
    var n := AnchoredRecord(w, anchor, start, records);
    if !CollisionIn(w, records, trail) {
      SameRecordsUpTo(w, records, start.ExpectedPrev(), trail, n, k);
    }
  }

  /** Soundness, at the cut: an accepted anchor pins the predecessor the start claims. */
  lemma AcceptedAnchorPinsCut(
    w: Wire, trail: seq<StoredRecord>, k: nat, anchor: Anchor, start: Start, records: seq<StoredRecord>)
    requires VerifyFrom(w, Genesis, trail).Ok? && AnchorsPrefix(w, anchor, trail, k)
    requires VerifyWithAnchor(w, anchor, start, records).Ok?
    requires anchor.seqNo == SaturatingPred(start.FirstSeq())
    ensures start.FirstSeq() == k + 1 && start.ExpectedPrev() == TrailPredecessor(w, trail, k + 1)
  {
    VerifyAcceptsIffSound(w, trail, GENESIS);
    SoundSeqNos(w, trail, GENESIS, k - 1);
  }

  // ----- honest growth

  /** What is left of a whole trail after its first `c` records were cut away. */
  function StartAt(w: Wire, trail: seq<StoredRecord>, c: nat): Start
    requires c <= |trail|
  {
    if c == 0 then Genesis else AfterCut(c, w.hash(trail[c - 1].payload))
  }

  lemma RemainderIsSound(w: Wire, trail: seq<StoredRecord>, c: nat)
    requires Sound(w, trail, GENESIS) && c <= |trail|
    ensures Sound(w, trail[c..], StartAt(w, trail, c).ExpectedPrev())
  {
    if c > 0 {
      assert trail == trail[..c] + trail[c..];
      SoundConcat(w, trail[..c], trail[c..], GENESIS);
    } else {
      assert trail[0..] == trail;
    }
  }

  lemma SoundRunVerifies(w: Wire, start: Start, run: seq<StoredRecord>)
    requires Sound(w, run, start.ExpectedPrev()) && (run != [] ==> run[0].seqNo == start.FirstSeq())
    ensures VerifyFrom(w, start, run) == Ok(Verified(|run|, HeadSeq(run), HeadHash(w, run, start.ExpectedPrev())))
  {
    VerifyAcceptsIffSound(w, run, start.ExpectedPrev());
  }

  lemma RemainderHead(w: Wire, trail: seq<StoredRecord>, c: nat)
    requires Sound(w, trail, GENESIS) && c <= |trail| && (trail != [] ==> trail[0].seqNo == 1)
    ensures c < |trail| ==> trail[c..][0].seqNo == StartAt(w, trail, c).FirstSeq()
    ensures HeadSeq(trail[c..]) == if c == |trail| then 0 else |trail|
    ensures HeadHash(w, trail[c..], StartAt(w, trail, c).ExpectedPrev()) == HeadHash(w, trail, GENESIS)
  {
    if c < |trail| {
      SoundSeqNos(w, trail, GENESIS, c);
      SoundSeqNos(w, trail, GENESIS, |trail| - 1);
    }
  }

  lemma RemainderVerifies(w: Wire, trail: seq<StoredRecord>, c: nat)
    requires VerifyFrom(w, Genesis, trail).Ok? && c <= |trail|
    ensures VerifyFrom(w, StartAt(w, trail, c), trail[c..]) == Ok(Verified(
              |trail| - c, if c == |trail| then 0 else |trail|, HeadHash(w, trail, GENESIS)))
  {
    VerifyAcceptsIffSound(w, trail, GENESIS);
    RemainderIsSound(w, trail, c);
    RemainderHead(w, trail, c);
    SoundRunVerifies(w, StartAt(w, trail, c), trail[c..]);
  }

  lemma PositionInRemainder(w: Wire, trail: seq<StoredRecord>, c: nat, k: nat)
    requires Sound(w, trail, GENESIS) && c < k <= |trail| && trail[0].seqNo == 1
    ensures PositionOf(trail[c..], k) == k - 1 - c
  {
    SoundSeqNos(w, trail, GENESIS, k - 1);
    assert trail[c..][k - 1 - c].seqNo == k;
    var i := PositionOf(trail[c..], k);
    if i < |trail| - c {
      SoundSeqNos(w, trail, GENESIS, c + i);
    }
  }

  /**
   * Completeness: an anchor taken over any prefix of a trail is accepted later exactly when it is
   * not behind the cut, whatever was recorded since.
   */
  lemma HonestGrowthIsAcceptedIff(w: Wire, trail: seq<StoredRecord>, k: nat, anchor: Anchor, c: nat)
    requires VerifyFrom(w, Genesis, trail).Ok? && AnchorsPrefix(w, anchor, trail, k) && c < |trail|
    ensures VerifyWithAnchor(w, anchor, StartAt(w, trail, c), trail[c..]).Ok? <==> k >= c
    ensures k < c ==> VerifyWithAnchor(w, anchor, StartAt(w, trail, c), trail[c..]) ==
                      Err(ChainBreak(k, AnchorUnreachable(|trail|)))
  {
    VerifyAcceptsIffSound(w, trail, GENESIS);
    SoundSeqNos(w, trail, GENESIS, k - 1);
    if k < c {
      AnchorBehindCut(w, trail, c, anchor);
    } else {
      if k > c {
        PositionInRemainder(w, trail, c, k);
      }
      AnchorReachesRun(w, trail, c, anchor);
    }
  }

  /** Where the remainder begins and ends. */
  lemma RemainderBounds(w: Wire, trail: seq<StoredRecord>, c: nat)
    requires VerifyFrom(w, Genesis, trail).Ok? && c < |trail|
    ensures trail[c..][0].seqNo == c + 1 && HeadSeq(trail[c..]) == |trail|
    ensures VerifyFrom(w, StartAt(w, trail, c), trail[c..]).Ok?
  {
    RemainderVerifies(w, trail, c);
    VerifyAcceptsIffSound(w, trail, GENESIS);
    SoundSeqNos(w, trail, GENESIS, c);
    SoundSeqNos(w, trail, GENESIS, |trail| - 1);
  }

  lemma AnchorBehindCut(w: Wire, trail: seq<StoredRecord>, c: nat, anchor: Anchor)
    requires VerifyFrom(w, Genesis, trail).Ok? && anchor.seqNo < c < |trail|
    ensures VerifyWithAnchor(w, anchor, StartAt(w, trail, c), trail[c..]) ==
            Err(ChainBreak(anchor.seqNo, AnchorUnreachable(|trail|)))
  {
    RemainderBounds(w, trail, c);
  }

  lemma AnchorReachesRun(w: Wire, trail: seq<StoredRecord>, c: nat, anchor: Anchor)
    requires VerifyFrom(w, Genesis, trail).Ok? && c < |trail| && 1 <= anchor.seqNo <= |trail| && c <= anchor.seqNo
    requires anchor.hash == w.hash(trail[anchor.seqNo - 1].payload)
    requires anchor.seqNo > c ==> PositionOf(trail[c..], anchor.seqNo) == anchor.seqNo - 1 - c
    ensures VerifyWithAnchor(w, anchor, StartAt(w, trail, c), trail[c..]).Ok?
  {
    RemainderBounds(w, trail, c);
    assert anchor.seqNo > c ==> trail[c..][anchor.seqNo - 1 - c] == trail[anchor.seqNo - 1];
  }

  // ----- what a verification against an anchor answers

  /** The hash that the anchor is compared with, and what the comparison answers. */
  function Compared(anchor: Anchor, actual: Digest, v: Verified): Result<Verified, ChainBreak> {
    if actual == anchor.hash then Ok(v)
    else Err(ChainBreak(anchor.seqNo, AnchorMismatch(Hex.Encoded(anchor.hash), Hex.Encoded(actual))))
  }

  lemma NumberedPosition(w: Wire, records: seq<StoredRecord>, prev: Digest, k: nat)
    requires Sound(w, records, prev) && records != [] && records[0].seqNo <= k < records[0].seqNo + |records|
    ensures PositionOf(records, k) == k - records[0].seqNo
  {
    var at := k - records[0].seqNo;
    SoundSeqNos(w, records, prev, at);
    var i := PositionOf(records, k);
    if i < |records| {
      SoundSeqNos(w, records, prev, i);
    }
  }

  /**
   * Against a run that verifies, the anchor is compared with the hash that the start claims if it
   * stands at the cut, with the record's own if it stands inside the run, and is out of reach
   * anywhere else; a mismatch names both hashes, the anchored one first.
   */
  lemma AnchorAnswers(w: Wire, anchor: Anchor, start: Start, records: seq<StoredRecord>, v: Verified)
    requires records != [] && VerifyFrom(w, start, records) == Ok(v)
    ensures var first := start.FirstSeq();
            VerifyWithAnchor(w, anchor, start, records) ==
            if anchor.seqNo + 1 == first then Compared(anchor, start.ExpectedPrev(), v)
            else if first <= anchor.seqNo < first + |records| then
              Compared(anchor, w.hash(records[anchor.seqNo - first].payload), v)
            else Err(ChainBreak(anchor.seqNo, AnchorUnreachable(first + |records| - 1)))
  {
    VerifyAcceptsIffSound(w, records, start.ExpectedPrev());
    SoundSeqNos(w, records, start.ExpectedPrev(), |records| - 1);
    if records[0].seqNo <= anchor.seqNo < records[0].seqNo + |records| {
      NumberedPosition(w, records, start.ExpectedPrev(), anchor.seqNo);
    }
  }

  /** Without records nothing can be reached, and a run that does not verify is answered as without an anchor. */
  lemma AnchorAnswersOtherwise(w: Wire, anchor: Anchor, start: Start, records: seq<StoredRecord>)
    ensures records == [] ==>
              VerifyWithAnchor(w, anchor, start, records) == Err(ChainBreak(anchor.seqNo, AnchorUnreachable(0)))
    ensures records != [] && VerifyFrom(w, start, records).Err? ==>
              VerifyWithAnchor(w, anchor, start, records) == VerifyFrom(w, start, records)
  {
  }

  /** A line is an anchor exactly if it is one of format version 1, numbered from one, with 32 bytes of hash. */
  lemma ParsedAnchorIff(json: Json, line: string, anchor: Anchor)
    ensures Parse(json, line) == Ok(anchor) <==>
              && json.parse(line).Some?
              && json.parse(line).value.version == 1
              && json.parse(line).value.seqNo == anchor.seqNo >= 1
              && json.parse(line).value.takenAt == anchor.takenAt
              && Hex.Decoded(json.parse(line).value.hash, 32) == Ok(anchor.hash)
  {
  }

  /** Reading an encoded anchor field by field gives the version, the time, the number and the hash in hexadecimal. */
  lemma EncodedFields(json: Json, verified: Verified, nowMillis: int)
    requires json.Lawful()
    ensures json.parse(Encode(json, Over(verified, nowMillis))) ==
            Some(AnchorFields(1, Timestamp.Rfc3339(nowMillis), verified.headSeq, Hex.Encoded(verified.headHash)))
  {
    var fields := AnchorFields(1, Timestamp.Rfc3339(nowMillis), verified.headSeq, Hex.Encoded(verified.headHash));
    assert json.parse(json.render(fields)) == Some(fields);
  }

  /** Why a line is no anchor: it is no record of the format, of another version, numbered zero, or without a hash. */
  lemma AnchorRefusedIff(json: Json, line: string, fields: AnchorFields)
    ensures Parse(json, line) == Err(AnchorError.Malformed) <==> json.parse(line).None?
    ensures json.parse(line) == Some(fields) ==>
              var r := Parse(json, line);
              && (r == Err(UnknownVersion(fields.version)) <==> fields.version != 1)
              && (r == Err(ZeroSequence) <==> fields.version == 1 && fields.seqNo == 0)
              && forall e :: r == Err(NotAHash(e)) <==>
                   fields.version == 1 && fields.seqNo != 0 && Hex.Decoded(fields.hash, 32) == Err(e)
  {
  }

  lemma {:induction false} LastNonBlankIs(lines: seq<string>, k: nat)
    requires k < |lines| && !Text.IsBlank(lines[k]) && forall j :: k < j < |lines| ==> Text.IsBlank(lines[j])
    ensures LastNonBlank(lines) == Some(lines[k])
    decreases |lines|
  {
    if k < |lines| - 1 {
      LastNonBlankIs(lines[..|lines| - 1], k);
    }
  }

  lemma {:induction false} NoneIsNonBlank(lines: seq<string>)
    requires forall line :: line in lines ==> Text.IsBlank(line)
    ensures LastNonBlank(lines) == None
  {
    if lines != [] {
      assert forall line :: line in lines[..|lines| - 1] ==> line in lines;
      NoneIsNonBlank(lines[..|lines| - 1]);
    }
  }

  /** The newest anchor is the last line that is not blank, and a file without one has none. */
  lemma LatestIs(json: Json, contents: string)
    ensures var lines := Text.Lines(contents);
            forall k :: 0 <= k < |lines| && !Text.IsBlank(lines[k])
                        && (forall j :: k < j < |lines| ==> Text.IsBlank(lines[j])) ==>
              match Parse(json, lines[k])
              case Ok(anchor) => Latest(json, contents) == Ok(Some(anchor))
              case Err(e) => Latest(json, contents) == Err(e)
    ensures (forall line :: line in Text.Lines(contents) ==> Text.IsBlank(line)) ==> Latest(json, contents) == Ok(None)
  {
    var lines := Text.Lines(contents);
    forall k | 0 <= k < |lines| && !Text.IsBlank(lines[k]) && (forall j :: k < j < |lines| ==> Text.IsBlank(lines[j]))
      ensures LastNonBlank(lines) == Some(lines[k])
    {
      LastNonBlankIs(lines, k);
    }
    if forall line :: line in lines ==> Text.IsBlank(line) {
      NoneIsNonBlank(lines);
    }
  }
}
