/**
 * What an accepted check proves about a store that somebody may have changed, and what the commands
 * demand before they change anything (crates/ciphr-cli/src/main.rs).
 */
module Tampering {
  import opened Basics
  import opened Chain
  import opened Verify
  import opened Anchor
  import opened Cut
  import opened CutRuns
  import Text

  /** The newest anchor of a file against which a check succeeded. */
  lemma AcceptedNewest(w: Wire, json: Json, store: Store, anchors: string) returns (newest: Anchor)
    requires VerifyChain(w, json, store, anchors).Ok?
    ensures Latest(json, anchors) == Ok(Some(newest))
    ensures VerifyWithAnchor(w, newest, store.StartPoint(), store.rows).Ok?
  {
    newest := Latest(json, anchors).value.value;
  }

  /** The anchor at the cut, if the file holds one, was checked as well. */
  lemma AcceptedAtCut(w: Wire, json: Json, store: Store, anchors: string, atCut: Anchor)
    requires VerifyChain(w, json, store, anchors).Ok? && store.cuts != []
    requires AnchorAt(json, Text.Lines(anchors), store.CutSeq()) == Some(atCut)
    ensures VerifyWithAnchor(w, atCut, store.StartPoint(), store.rows).Ok?
  {
  }

  /** The rows up to `k` are those of the history, and the start follows the record before them. */
  predicate HistoryUpTo(w: Wire, store: Store, trail: seq<StoredRecord>, k: nat) {
    && store.StartPoint().FirstSeq() <= k + 1 <= |trail| + 1
    && store.StartPoint().ExpectedPrev() == TrailPredecessor(w, trail, store.StartPoint().FirstSeq())
    && forall i :: 0 <= i < |store.rows| && store.rows[i].seqNo <= k ==>
         1 <= store.rows[i].seqNo && store.rows[i].payload == trail[store.rows[i].seqNo - 1].payload
  }

  /**
   * Whatever was done to the store: if `audit verify` accepts it against a file of anchors that were
   * honestly taken over a history, the store holds that history's records up to the newest anchor,
   * or two payloads collide.
   */
  lemma AcceptedStoreHoldsHistory(w: Wire, json: Json, store: Store, anchors: string, trail: seq<StoredRecord>)
    returns (newest: Anchor)
    requires SoundTrail(w, trail) && HonestAnchors(w, json, anchors, trail)
    requires VerifyChain(w, json, store, anchors).Ok?
    ensures Latest(json, anchors) == Ok(Some(newest))
    ensures CollisionIn(w, store.rows, trail) || HistoryUpTo(w, store, trail, newest.seqNo)
  {
    newest := AcceptedNewest(w, json, store, anchors);
    NewestIsHonest(w, json, anchors, trail);
    TrailVerifies(w, trail);
    AcceptedHoldsHistory(w, store, trail, newest);
  }

  lemma AcceptedHoldsHistory(w: Wire, store: Store, trail: seq<StoredRecord>, newest: Anchor)
    requires VerifyFrom(w, Genesis, trail).Ok? && AnchorsPrefix(w, newest, trail, newest.seqNo)
    requires VerifyWithAnchor(w, newest, store.StartPoint(), store.rows).Ok?
    ensures CollisionIn(w, store.rows, trail) || HistoryUpTo(w, store, trail, newest.seqNo)
  {
    var start := store.StartPoint();
    if newest.seqNo == SaturatingPred(start.FirstSeq()) {
      AcceptedAnchorPinsCut(w, trail, newest.seqNo, newest, start, store.rows);
      NothingBefore(w, start, store.rows, newest);
    } else {
      AcceptedAnchorPinsRecords(w, trail, newest.seqNo, newest, start, store.rows);
    }
  }

  lemma NothingBefore(w: Wire, start: Start, records: seq<StoredRecord>, anchor: Anchor)
    requires VerifyWithAnchor(w, anchor, start, records).Ok? && anchor.seqNo == SaturatingPred(start.FirstSeq())
    ensures forall i :: 0 <= i < |records| ==> records[i].seqNo > anchor.seqNo
  {
    VerifyAcceptsIffSound(w, records, start.ExpectedPrev());
    forall i | 0 <= i < |records| ensures records[i].seqNo > anchor.seqNo {
      SoundSeqNos(w, records, start.ExpectedPrev(), i);
    }
  }

  /** If the file holds the anchor of the cut, the store's record of the cut is true, without any condition. */
  lemma AcceptedCutIsTrue(w: Wire, json: Json, store: Store, anchors: string, trail: seq<StoredRecord>)
    requires SoundTrail(w, trail) && HonestAnchors(w, json, anchors, trail)
    requires VerifyChain(w, json, store, anchors).Ok? && store.cuts != []
    requires AnchorAt(json, Text.Lines(anchors), store.CutSeq()).Some?
    ensures 1 <= store.CutSeq() <= |trail|
    ensures store.StartPoint() == StartAt(w, trail, store.CutSeq())
  {
    var c := store.CutSeq();
    var atCut := AnchorAt(json, Text.Lines(anchors), c).value;
    AcceptedAtCut(w, json, store, anchors, atCut);
    AnchorAtIsHonest(w, json, Text.Lines(anchors), c, trail);
    TrailVerifies(w, trail);
    AcceptedAnchorPinsCut(w, trail, c, atCut, store.StartPoint(), store.rows);
  }

  // ----- what the commands demand first

  /** The whole trail verifies, and against the newest anchor if there is one; the file is readable. */
  predicate Proven(w: Wire, json: Json, store: Store, anchors: string) {
    && Latest(json, anchors).Ok?
    && VerifyFrom(w, store.StartPoint(), store.rows).Ok?
    && (Latest(json, anchors).value.Some? ==>
          VerifyWithAnchor(w, Latest(json, anchors).value.value, store.StartPoint(), store.rows).Ok?)
  }

  lemma CheckedIff(w: Wire, json: Json, store: Store, anchors: string)
    ensures CheckTrail(w, json, store, anchors).Ok? <==> Proven(w, json, store, anchors)
    ensures Proven(w, json, store, anchors) ==>
              CheckTrail(w, json, store, anchors) == Ok(VerifyFrom(w, store.StartPoint(), store.rows).value)
  {
  }

  /** An anchor is taken exactly over a proven trail that is not empty, and over its head. */
  lemma AnchorTakenIff(w: Wire, json: Json, store: Store, anchors: string, nowMillis: int)
    ensures var taken := AnchorToTake(w, json, store, anchors, nowMillis);
            && (taken.Ok? <==>
                  && Proven(w, json, store, anchors)
                  && VerifyFrom(w, store.StartPoint(), store.rows).value.headSeq > 0)
            && (taken.Ok? ==> taken.value == Over(VerifyFrom(w, store.StartPoint(), store.rows).value, nowMillis))
  {
    CheckedIff(w, json, store, anchors);
  }

  lemma PlanOutcomes(
    w: Wire, json: Json, store: Store, anchors: string, keep: nat, covered: bool,
    removing: seq<StoredRecord>, remainder: seq<StoredRecord>)
    requires |store.rows| > keep
    requires removing == store.rows[..|store.rows| - keep] && remainder == store.rows[|store.rows| - keep..]
    ensures var r := PlanCut(w, json, store, anchors, keep, covered);
            if Proven(w, json, store, anchors)
            then r == PlanFrom(VerifyFrom(w, store.StartPoint(), removing), remainder, covered)
            else r.Err?
  {
    CheckedIff(w, json, store, anchors);
  }

  lemma PlanFromIff(prefix: Result<Verified, ChainBreak>, remainder: seq<StoredRecord>, covered: bool, plan: Plan)
    ensures PlanFrom(prefix, remainder, covered) == Ok(Some(plan)) <==>
            covered && prefix == Ok(plan.prefix) && plan.remainder == remainder
    ensures PlanFrom(prefix, remainder, covered) != Ok(None)
  {
  }

  /** A cut is planned exactly over a proven trail with more than `keep` rows, archived or waived, and as stated. */
  lemma CutPlannedIff(w: Wire, json: Json, store: Store, anchors: string, keep: nat, covered: bool, plan: Plan)
    ensures PlanCut(w, json, store, anchors, keep, covered) == Ok(Some(plan)) <==>
              && Proven(w, json, store, anchors) && |store.rows| > keep && covered
              && VerifyFrom(w, store.StartPoint(), store.rows[..|store.rows| - keep]) == Ok(plan.prefix)
              && plan.remainder == store.rows[|store.rows| - keep..]
  {
    if |store.rows| > keep {
      var removing, remainder := store.rows[..|store.rows| - keep], store.rows[|store.rows| - keep..];
      PlanOutcomes(w, json, store, anchors, keep, covered, removing, remainder);
      PlanFromIff(VerifyFrom(w, store.StartPoint(), removing), remainder, covered, plan);
    } else {
      FewRows(w, json, store, anchors, keep, covered);
    }
  }

  lemma FewRows(w: Wire, json: Json, store: Store, anchors: string, keep: nat, covered: bool)
    requires |store.rows| <= keep
    ensures var r := PlanCut(w, json, store, anchors, keep, covered);
            if Proven(w, json, store, anchors) then r == Ok(None) else r.Err?
  {
    CheckedIff(w, json, store, anchors);
  }

  // ----- what a restart refuses to continue

  /** A table that lost its rows, or rows behind its own newest cut, is not continued. */
  lemma NotContinuedIff(store: Store)
    ensures ChainToContinue(store) == Err(EmptyAfterCut) <==> store.rows == [] && store.cuts != []
    ensures store.rows != [] ==>
              var last := store.rows[|store.rows| - 1].seqNo;
              ChainToContinue(store) == Err(EndsBeforeCut(last)) <==> store.cuts != [] && store.CutSeq() >= last
    ensures ChainToContinue(store).Err? ==> store.cuts != []
  {
  }
}
