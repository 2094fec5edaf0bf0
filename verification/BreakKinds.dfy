/**
 * Which break a verification reports, and what each kind of tampering is reported as
 * (crates/ciphr-audit/src/verify.rs).
 */
module BreakKinds {
  import opened Basics
  import opened Chain
  import opened Verify
  import Hex

  predicate InOrder(records: seq<StoredRecord>, i: nat)
    requires i < |records|
  {
    i > 0 ==> records[i].seqNo == records[i - 1].seqNo + 1
  }

  /** The record has a header, and under its own number. */
  predicate Numbered(w: Wire, record: StoredRecord) {
    w.parse(record.payload).Some? && w.parse(record.payload).value.seqNo == record.seqNo
  }

  /** What the record claims to follow, if that is a hash at all. */
  function Claimed(w: Wire, record: StoredRecord): Result<Digest, Hex.HexError>
    requires w.parse(record.payload).Some?
  {
    Hex.Decoded(w.parse(record.payload).value.prevHash, 32)
  }

  /** The kind of break at the first record that is not sound, check by check in the source's order. */
  lemma BreakKindIff(w: Wire, records: seq<StoredRecord>, prev: Digest, i: nat) returns (kind: BreakKind)
    requires i < |records| && Sound(w, records[..i], prev) && !RecordSound(w, records, prev, i)
    ensures VerifyRun(w, records, prev) == Err(ChainBreak(records[i].seqNo, kind))
    ensures kind.SequenceGap? <==> !InOrder(records, i)
    ensures kind.SequenceGap? ==> kind.expected == records[i - 1].seqNo + 1
    ensures kind == Malformed(NotAHeader) <==> InOrder(records, i) && w.parse(records[i].payload).None?
    ensures kind.SequenceMismatch? <==>
              InOrder(records, i) && w.parse(records[i].payload).Some? && !Numbered(w, records[i])
    ensures kind.SequenceMismatch? ==> kind.payloadSeq == w.parse(records[i].payload).value.seqNo
    ensures kind.Malformed? && kind.detail.NotAChainHash? <==>
              InOrder(records, i) && Numbered(w, records[i]) && Claimed(w, records[i]).Err?
    ensures kind.Malformed? && kind.detail.NotAChainHash? ==> Claimed(w, records[i]) == Err(kind.detail.error)
    ensures kind == PrevHashMismatch <==>
              && InOrder(records, i) && Numbered(w, records[i]) && Claimed(w, records[i]).Ok?
              && Claimed(w, records[i]).value != Predecessor(w, records, prev, i)
    ensures kind == HashMismatch <==>
              && InOrder(records, i) && Numbered(w, records[i])
              && Claimed(w, records[i]) == Ok(Predecessor(w, records, prev, i))
              && records[i].hash.Some? && records[i].hash.value != w.hash(records[i].payload)
  {
    VerifyReportsFirst(w, records, prev, i);
    kind := BreakAt(w, records, prev, i).value;
  }

  /** Against a start, a run that begins at another number is a gap at its first record. */
  lemma WrongFirstIsGap(w: Wire, start: Start, records: seq<StoredRecord>)
    requires records != [] && records[0].seqNo != start.FirstSeq()
    ensures VerifyFrom(w, start, records) == Err(ChainBreak(records[0].seqNo, SequenceGap(start.FirstSeq())))
  {
  }

  // ----- what tampering looks like

  lemma SoundBefore(w: Wire, records: seq<StoredRecord>, tampered: seq<StoredRecord>, prev: Digest, i: nat)
    requires Sound(w, records, prev) && i <= |records| && i <= |tampered| && records[..i] == tampered[..i]
    ensures Sound(w, tampered[..i], prev)
  {
    SoundPrefix(w, records, prev, i);
  }

  /** Editing a record whose hash is stored is found at that record, or exhibits a collision. */
  lemma EditIsHashMismatch(w: Wire, records: seq<StoredRecord>, prev: Digest, i: nat, payload: string)
    requires Sound(w, records, prev) && i < |records| && records[i].hash.Some?
    requires payload != records[i].payload && w.parse(payload) == w.parse(records[i].payload)
    ensures var edited := records[i := records[i].(payload := payload)];
            || w.hash(payload) == w.hash(records[i].payload)
            || VerifyRun(w, edited, prev) == Err(ChainBreak(records[i].seqNo, HashMismatch))
  {
    var edited := records[i := records[i].(payload := payload)];
    assert RecordSound(w, records, prev, i);
    if w.hash(payload) != w.hash(records[i].payload) {
      assert edited[..i] == records[..i];
      SoundBefore(w, records, edited, prev, i);
      assert !RecordSound(w, edited, prev, i);
      var kind := BreakKindIff(w, edited, prev, i);
    }
  }

  /** Without a stored hash it is found at the next record, which no longer follows it. */
  lemma EditWithoutHashBreaksNext(w: Wire, records: seq<StoredRecord>, prev: Digest, i: nat, payload: string)
    requires Sound(w, records, prev) && i + 1 < |records| && records[i].hash.None?
    requires payload != records[i].payload && w.parse(payload) == w.parse(records[i].payload)
    ensures var edited := records[i := records[i].(payload := payload)];
            || w.hash(payload) == w.hash(records[i].payload)
            || VerifyRun(w, edited, prev) == Err(ChainBreak(records[i + 1].seqNo, PrevHashMismatch))
  {
    var edited := records[i := records[i].(payload := payload)];
    assert RecordSound(w, records, prev, i) && RecordSound(w, records, prev, i + 1);
    if w.hash(payload) != w.hash(records[i].payload) {
      var front := edited[..i + 1];
      forall j | 0 <= j < |front| ensures RecordSound(w, front, prev, j) {
        assert RecordSound(w, records, prev, j);
      }
      assert !RecordSound(w, edited, prev, i + 1);
      var kind := BreakKindIff(w, edited, prev, i + 1);
    }
  }

  /** Removing a record from the middle is found as a gap at the record after it. */
  lemma RemovalIsGap(w: Wire, records: seq<StoredRecord>, prev: Digest, i: nat)
    requires Sound(w, records, prev) && 0 < i < |records| - 1
    ensures VerifyRun(w, records[..i] + records[i + 1..], prev) ==
            Err(ChainBreak(records[i + 1].seqNo, SequenceGap(records[i].seqNo)))
  {
    var left := records[..i] + records[i + 1..];
    assert left[..i] == records[..i] && left[i] == records[i + 1] && left[i - 1] == records[i - 1];
    SoundBefore(w, records, left, prev, i);
    assert RecordSound(w, records, prev, i) && RecordSound(w, records, prev, i + 1);
    assert !RecordSound(w, left, prev, i);
    var kind := BreakKindIff(w, left, prev, i);
  }
}
