/** Chain verification (crates/ciphr-audit/src/verify.rs). */
module Verify {
  import opened Basics
  import opened Chain
  import Hex

  datatype StoredRecord = StoredRecord(seqNo: nat, payload: string, hash: Option<Digest>)

  datatype Start = Genesis | AfterCut(seqNo: nat, hash: Digest) {
    function FirstSeq(): nat {
      match this
      case Genesis => 1
      case AfterCut(seqNo, _) => seqNo + 1
    }

    function ExpectedPrev(): Digest {
      match this
      case Genesis => GENESIS
      case AfterCut(_, hash) => hash
    }
  }

  datatype Verified = Verified(records: nat, headSeq: nat, headHash: Digest)

  datatype MalformedDetail = NotAHeader | NotAChainHash(error: Hex.HexError)

  datatype BreakKind =
    | HashMismatch
    | PrevHashMismatch
    | SequenceGap(expected: nat)
    | Malformed(detail: MalformedDetail)
    | SequenceMismatch(payloadSeq: nat)
    | AnchorMismatch(anchored: string, stored: string)
    | AnchorUnreachable(headSeq: nat)

  datatype ChainBreak = ChainBreak(seqNo: nat, kind: BreakKind)

  // ----- the checks, in the order the source makes them

  function Inspect(w: Wire, record: StoredRecord, expected: Option<nat>, previous: Digest): Option<BreakKind> {
    if expected.Some? && record.seqNo != expected.value then Some(SequenceGap(expected.value))
    else
      match w.parse(record.payload)
      case None => Some(Malformed(NotAHeader))
      case Some(header) =>
        if header.seqNo != record.seqNo then Some(SequenceMismatch(header.seqNo))
        else
          match Hex.Decoded(header.prevHash, 32)
          case Err(e) => Some(Malformed(NotAChainHash(e)))
          case Ok(claimed) =>
            if claimed != previous then Some(PrevHashMismatch)
            else if record.hash.Some? && record.hash.value != w.hash(record.payload) then Some(HashMismatch)
            else None
  }

  function FirstBreak(w: Wire, records: seq<StoredRecord>, expected: Option<nat>, previous: Digest): Option<ChainBreak> {
    if records == [] then None
    else
      match Inspect(w, records[0], expected, previous)
      case Some(kind) => Some(ChainBreak(records[0].seqNo, kind))
      case None => FirstBreak(w, records[1..], Some(records[0].seqNo + 1), w.hash(records[0].payload))
  }

  function HeadHash(w: Wire, records: seq<StoredRecord>, prev: Digest): Digest {
    if records == [] then prev else w.hash(records[|records| - 1].payload)
  }

  function HeadSeq(records: seq<StoredRecord>): nat {
    if records == [] then 0 else records[|records| - 1].seqNo
  }

  function VerifyRun(w: Wire, records: seq<StoredRecord>, prev: Digest): Result<Verified, ChainBreak> {
    match FirstBreak(w, records, None, prev)
    case Some(b) => Err(b)
    case None => Ok(Verified(|records|, HeadSeq(records), HeadHash(w, records, prev)))
  }

  function VerifyFrom(w: Wire, start: Start, records: seq<StoredRecord>): Result<Verified, ChainBreak> {
    if records != [] && records[0].seqNo != start.FirstSeq() then
      Err(ChainBreak(records[0].seqNo, SequenceGap(start.FirstSeq())))
    else
      VerifyRun(w, records, start.ExpectedPrev())
  }

  method Verify(w: Wire, records: seq<StoredRecord>, expectedPrev: Digest) returns (r: Result<Verified, ChainBreak>)
    ensures r == VerifyRun(w, records, expectedPrev)
  {
    var previous := expectedPrev;
    var expectedSeq: Option<nat> := None;
    var count, headSeq := 0, 0;
    while count < |records|
      invariant 0 <= count <= |records|
      invariant previous == HeadHash(w, records[..count], expectedPrev)
      invariant headSeq == HeadSeq(records[..count])
      invariant FirstBreak(w, records, None, expectedPrev) == FirstBreak(w, records[count..], expectedSeq, previous)
    {
      var record := records[count];
      assert records[count..][0] == record && records[count..][1..] == records[count + 1..];
      if expectedSeq.Some? && record.seqNo != expectedSeq.value {
        return Err(ChainBreak(record.seqNo, SequenceGap(expectedSeq.value)));
      }
      var header := w.parse(record.payload);
      if header.None? {
        return Err(ChainBreak(record.seqNo, Malformed(NotAHeader)));
      }
      if header.value.seqNo != record.seqNo {
        return Err(ChainBreak(record.seqNo, SequenceMismatch(header.value.seqNo)));
      }
      var buffer := new byte[32](_ => 0);
      var decoded := Hex.DecodeInto(header.value.prevHash, buffer);
      if decoded.Err? {
        return Err(ChainBreak(record.seqNo, Malformed(NotAChainHash(decoded.error))));
      }
      if buffer[..] != previous {
        return Err(ChainBreak(record.seqNo, PrevHashMismatch));
      }
      var computed := w.hash(record.payload);
      if record.hash.Some? && record.hash.value != computed {
        return Err(ChainBreak(record.seqNo, HashMismatch));
      }
      previous, expectedSeq, headSeq, count := computed, Some(record.seqNo + 1), record.seqNo, count + 1;
    }
    assert records[..count] == records;
    return Ok(Verified(count, headSeq, previous));
  }

  // ----- what it means for a run to be sound

  /** What the record at index `i` has to chain to, or the head if there is none. */
  function Predecessor(w: Wire, records: seq<StoredRecord>, prev: Digest, i: nat): Digest
    requires i <= |records|
  {
    if i == 0 then prev else w.hash(records[i - 1].payload)
  }

  predicate RecordSound(w: Wire, records: seq<StoredRecord>, prev: Digest, i: nat)
    requires i < |records|
  {
    var r := records[i];
    && (i > 0 ==> r.seqNo == records[i - 1].seqNo + 1)
    && (r.hash == None || r.hash == Some(w.hash(r.payload)))
    && w.parse(r.payload).Some?
    && var header := w.parse(r.payload).value;
    && header.seqNo == r.seqNo
    && Hex.Decoded(header.prevHash, 32) == Ok(Predecessor(w, records, prev, i))
  }

  predicate Sound(w: Wire, records: seq<StoredRecord>, prev: Digest) {
    forall i :: 0 <= i < |records| ==> RecordSound(w, records, prev, i)
  }

  /** The check made on the record at index `i` when everything before it has passed. */
  function BreakAt(w: Wire, records: seq<StoredRecord>, prev: Digest, i: nat): Option<BreakKind>
    requires i < |records|
  {
    Inspect(w, records[i], if i == 0 then None else Some(records[i - 1].seqNo + 1), Predecessor(w, records, prev, i))
  }

  lemma BreakAtIff(w: Wire, records: seq<StoredRecord>, prev: Digest, i: nat)
    requires i < |records|
    ensures BreakAt(w, records, prev, i) == None <==> RecordSound(w, records, prev, i)
  {
  }

  /** The run's verdict is that of its first record that is not sound. */
  lemma {:induction false} FirstBreakIs(w: Wire, records: seq<StoredRecord>, prev: Digest, i: nat)
    requires i <= |records| && Sound(w, records[..i], prev)
    ensures FirstBreak(w, records, None, prev) ==
            if i == 0 then FirstBreak(w, records, None, prev)
            else FirstBreak(w, records[i..], Some(records[i - 1].seqNo + 1), w.hash(records[i - 1].payload))
  {
    if i > 0 {
      assert records[..i][..i - 1] == records[..i - 1];
      SoundPrefix(w, records[..i], prev, i - 1);
      FirstBreakIs(w, records, prev, i - 1);
      assert RecordSound(w, records[..i], prev, i - 1);
      BreakAtIff(w, records[..i], prev, i - 1);
      assert records[i - 1..][0] == records[i - 1] && records[i - 1..][1..] == records[i..];
    }
  }

  lemma SoundPrefix(w: Wire, records: seq<StoredRecord>, prev: Digest, k: nat)
    requires k <= |records| && Sound(w, records, prev)
    ensures Sound(w, records[..k], prev)
  {
    forall i | 0 <= i < k
      ensures RecordSound(w, records[..k], prev, i)
    {
      assert RecordSound(w, records, prev, i);
    }
  }

  /** `verify` accepts exactly the sound runs, and says where they end. */
  lemma VerifyAcceptsIffSound(w: Wire, records: seq<StoredRecord>, prev: Digest)
    ensures VerifyRun(w, records, prev).Ok? <==> Sound(w, records, prev)
    ensures Sound(w, records, prev) ==>
              VerifyRun(w, records, prev) == Ok(Verified(|records|, HeadSeq(records), HeadHash(w, records, prev)))
  {
    if Sound(w, records, prev) {
      assert records[..|records|] == records && records[|records|..] == [];
      FirstBreakIs(w, records, prev, |records|);
    } else {
      var i := FirstUnsound(w, records, prev);
      VerifyReportsFirst(w, records, prev, i);
    }
  }

  lemma FirstUnsound(w: Wire, records: seq<StoredRecord>, prev: Digest) returns (i: nat)
    requires !Sound(w, records, prev)
    ensures i < |records| && Sound(w, records[..i], prev) && !RecordSound(w, records, prev, i)
  {
    i := 0;
    while RecordSound(w, records, prev, i)
      invariant i < |records|
      invariant forall j :: 0 <= j < i ==> RecordSound(w, records, prev, j)
      decreases |records| - i
    {
      i := i + 1;
    }
    forall j | 0 <= j < i
      ensures RecordSound(w, records[..i], prev, j)
    {
      assert RecordSound(w, records, prev, j);
    }
  }

  /** A refusal names the first record that is not sound, and the first check it fails. */
  lemma VerifyReportsFirst(w: Wire, records: seq<StoredRecord>, prev: Digest, i: nat)
    requires i < |records| && Sound(w, records[..i], prev) && !RecordSound(w, records, prev, i)
    ensures BreakAt(w, records, prev, i).Some?
    ensures VerifyRun(w, records, prev) == Err(ChainBreak(records[i].seqNo, BreakAt(w, records, prev, i).value))
  {
    FirstBreakIs(w, records, prev, i);
    BreakAtIff(w, records, prev, i);
    assert records[i..][0] == records[i];
  }

  // ----- runs compose

  lemma SoundConcat(w: Wire, a: seq<StoredRecord>, b: seq<StoredRecord>, prev: Digest)
    requires a != []
    ensures Sound(w, a + b, prev) <==>
            && Sound(w, a, prev) && Sound(w, b, HeadHash(w, a, prev))
            && (b != [] ==> b[0].seqNo == HeadSeq(a) + 1)
  {
    var ab := a + b;
    assert forall i :: 0 <= i < |a| ==> (RecordSound(w, ab, prev, i) <==> RecordSound(w, a, prev, i));
    assert forall i :: 0 < i < |b| ==>
        (RecordSound(w, ab, prev, |a| + i) <==> RecordSound(w, b, HeadHash(w, a, prev), i));
    assert b != [] ==> (RecordSound(w, ab, prev, |a|) <==>
        RecordSound(w, b, HeadHash(w, a, prev), 0) && b[0].seqNo == HeadSeq(a) + 1);
    if Sound(w, ab, prev) {
      forall i | 0 <= i < |b| ensures RecordSound(w, b, HeadHash(w, a, prev), i) {
        assert RecordSound(w, ab, prev, |a| + i);
      }
    }
    if Sound(w, a, prev) && Sound(w, b, HeadHash(w, a, prev)) && (b != [] ==> b[0].seqNo == HeadSeq(a) + 1) {
      forall i | 0 <= i < |ab| ensures RecordSound(w, ab, prev, i) {
        if i >= |a| {
          assert RecordSound(w, b, HeadHash(w, a, prev), i - |a|);
        }
      }
    }
  }

  /** Verifying a concatenation is verifying the second part from where the first ended. */
  lemma VerifyComposes(w: Wire, a: seq<StoredRecord>, b: seq<StoredRecord>, prev: Digest)
    requires a != [] && VerifyRun(w, a, prev).Ok?
    ensures VerifyRun(w, a + b, prev) ==
            match VerifyFrom(w, AfterCut(HeadSeq(a), HeadHash(w, a, prev)), b)
            case Err(e) => Err(e)
            case Ok(v) => Ok(Verified(|a| + v.records, if b == [] then HeadSeq(a) else v.headSeq, v.headHash))
  {
    VerifyAcceptsIffSound(w, a, prev);
    assert (a + b)[..|a|] == a && (a + b)[|a|..] == b;
    FirstBreakIs(w, a + b, prev, |a|);
    if b != [] {
      FirstBreakExpecting(w, b, HeadSeq(a) + 1, HeadHash(w, a, prev));
    }
  }

  lemma FirstBreakExpecting(w: Wire, records: seq<StoredRecord>, expected: nat, previous: Digest)
    requires records != []
    ensures FirstBreak(w, records, Some(expected), previous) ==
            if records[0].seqNo != expected then Some(ChainBreak(records[0].seqNo, SequenceGap(expected)))
            else FirstBreak(w, records, None, previous)
  {
  }

  // ----- the head hash commits to the run

  /** The two different payloads are stored in these runs. */
  ghost predicate CollisionIn(w: Wire, a: seq<StoredRecord>, b: seq<StoredRecord>) {
    exists i, j :: 0 <= i < |a| && 0 <= j < |b| && Collide(w, a[i], b[j])
  }

  predicate Collide(w: Wire, r: StoredRecord, q: StoredRecord) {
    r.payload != q.payload && w.hash(r.payload) == w.hash(q.payload)
  }

  lemma SameBefore(w: Wire, a: seq<StoredRecord>, pa: Digest, b: seq<StoredRecord>, pb: Digest, i: nat, j: nat)
    requires i < |a| && j < |b| && RecordSound(w, a, pa, i) && RecordSound(w, b, pb, j)
    requires w.hash(a[i].payload) == w.hash(b[j].payload) && !Collide(w, a[i], b[j])
    ensures a[i].payload == b[j].payload && a[i].seqNo == b[j].seqNo
    ensures Predecessor(w, a, pa, i) == Predecessor(w, b, pb, j)
  {
  }

  /** Equal hashes at `i` and `j` force the `k` records before them to be the same. */
  lemma {:induction false} SameBackwards(
    w: Wire, a: seq<StoredRecord>, pa: Digest, b: seq<StoredRecord>, pb: Digest, i: nat, j: nat, k: nat)
    requires Sound(w, a, pa) && Sound(w, b, pb) && !CollisionIn(w, a, b)
    requires k <= i <= |a| && k <= j <= |b|
    requires Predecessor(w, a, pa, i) == Predecessor(w, b, pb, j)
    ensures forall t :: i - k <= t < i ==>
              a[t].payload == b[t - i + j].payload && a[t].seqNo == b[t - i + j].seqNo
    ensures Predecessor(w, a, pa, i - k) == Predecessor(w, b, pb, j - k)
    decreases k
  {
    if k > 0 {
      SameBefore(w, a, pa, b, pb, i - 1, j - 1);
      SameBackwards(w, a, pa, b, pb, i - 1, j - 1, k - 1);
    }
  }

  lemma {:induction false} SoundSeqNos(w: Wire, records: seq<StoredRecord>, prev: Digest, i: nat)
    requires Sound(w, records, prev) && i < |records|
    ensures records[i].seqNo == records[0].seqNo + i
  {
    if i > 0 {
      SoundSeqNos(w, records, prev, i - 1);
      assert RecordSound(w, records, prev, i);
    }
  }

  /** The payloads of a run, which are all of it that the chain protects. */
  function Payloads(records: seq<StoredRecord>): (p: seq<string>)
    ensures |p| == |records|
    ensures forall i :: 0 <= i < |p| ==> p[i] == records[i].payload
  {
    seq(|records|, i requires 0 <= i < |records| => records[i].payload)
  }

  /** Two runs from one start with one head are the same run, or two stored payloads collide. */
  lemma HeadCommitsToRun(w: Wire, start: Start, a: seq<StoredRecord>, b: seq<StoredRecord>)
    requires a != [] && b != []
    requires VerifyFrom(w, start, a).Ok? && VerifyFrom(w, start, b).Ok?
    requires VerifyFrom(w, start, a).value.headHash == VerifyFrom(w, start, b).value.headHash
    ensures Payloads(a) == Payloads(b) || CollisionIn(w, a, b)
  {
    var prev := start.ExpectedPrev();
    VerifyAcceptsIffSound(w, a, prev);
    VerifyAcceptsIffSound(w, b, prev);
    if !CollisionIn(w, a, b) {
      SameBackwards(w, a, prev, b, prev, |a|, |b|, 1);
      SoundSeqNos(w, a, prev, |a| - 1);
      SoundSeqNos(w, b, prev, |b| - 1);
      SameBackwards(w, a, prev, b, prev, |a|, |a|, |a|);
    }
  }

  lemma PayloadsOfSuffix(a: seq<StoredRecord>, b: seq<StoredRecord>, k: nat)
    requires |b| == |a| + k && forall t :: 0 <= t < |a| ==> a[t].payload == b[t + k].payload
    ensures Payloads(a) == Payloads(b)[k..]
    ensures k == 0 ==> Payloads(a) == Payloads(b)
  {
  }

  lemma SameFromTheEnd(w: Wire, a: seq<StoredRecord>, pa: Digest, b: seq<StoredRecord>, pb: Digest)
    requires Sound(w, a, pa) && Sound(w, b, pb) && !CollisionIn(w, a, b)
    requires |a| <= |b| && Predecessor(w, a, pa, |a|) == Predecessor(w, b, pb, |b|)
    ensures Payloads(a) == Payloads(b)[|b| - |a|..] && pa == Predecessor(w, b, pb, |b| - |a|)
    ensures |a| == |b| ==> Payloads(a) == Payloads(b)
  {
    SameBackwards(w, a, pa, b, pb, |a|, |b|, |a|);
    var k := |b| - |a|;
    forall t | 0 <= t < |a| ensures a[t].payload == b[t + k].payload {
      assert t - |a| + |b| == t + k;
    }
    PayloadsOfSuffix(a, b, k);
  }

  /** Without a first sequence number, the longer run may also hash to the start's predecessor. */
  lemma HeadCommitsUpToPredecessor(w: Wire, prev: Digest, a: seq<StoredRecord>, b: seq<StoredRecord>)
    requires 0 < |a| <= |b|
    requires VerifyRun(w, a, prev).Ok? && VerifyRun(w, b, prev).Ok?
    requires VerifyRun(w, a, prev).value.headHash == VerifyRun(w, b, prev).value.headHash
    ensures || CollisionIn(w, a, b)
            || Payloads(a) == Payloads(b)
            || (|a| < |b| && Payloads(a) == Payloads(b)[|b| - |a|..] && w.hash(b[|b| - |a| - 1].payload) == prev)
  {
    VerifyAcceptsIffSound(w, a, prev);
    VerifyAcceptsIffSound(w, b, prev);
    if !CollisionIn(w, a, b) {
      SameFromTheEnd(w, a, prev, b, prev);
    }
  }
}
