/**
 * Anchors that are appended later than they were decided on: `ciphr audit anchor` reads the table,
 * then writes to the file, and a cut may run between the two (crates/ciphr-cli/src/main.rs,
 * `take_anchor`).
 */
module LateAnchors {
  import opened Basics
  import opened Chain
  import opened Verify
  import opened Anchor
  import opened Cut
  import opened CutRuns
  import Text

  lemma NewestRefusedAnswers(w: Wire, json: Json, store: Store, anchors: string, newest: Anchor, b: ChainBreak)
    requires Latest(json, anchors) == Ok(Some(newest))
    requires VerifyWithAnchor(w, newest, store.StartPoint(), store.rows) == Err(b)
    ensures VerifyChain(w, json, store, anchors) == Err(Broken(b))
  {
  }

  /** What `audit verify` answers while the newest anchor is behind the cut. */
  function BehindCut(anchor: Anchor, trail: seq<StoredRecord>): Result<Verified, Failure> {
    Err(Broken(ChainBreak(anchor.seqNo, AnchorUnreachable(|trail|))))
  }

  lemma NewestBehindCutIsUnreachable(
    w: Wire, json: Json, store: Store, anchors: string, trail: seq<StoredRecord>, anchor: Anchor)
    requires SoundTrail(w, trail) && StoreOf(w, store, trail) && Latest(json, anchors) == Ok(Some(anchor))
    requires AnchorsPrefix(w, anchor, trail, anchor.seqNo) && anchor.seqNo < store.CutSeq()
    ensures VerifyChain(w, json, store, anchors) == BehindCut(anchor, trail)
  {
    TrailVerifies(w, trail);
    HonestGrowthIsAcceptedIff(w, trail, anchor.seqNo, anchor, store.CutSeq());
    NewestRefusedAnswers(w, json, store, anchors, anchor, ChainBreak(anchor.seqNo, AnchorUnreachable(|trail|)));
  }

  /** What is known of an anchor that waits to be appended in a good state. */
  lemma PendingFacts(w: Wire, json: Json, world: World, anchor: Anchor)
    requires json.Lawful() && Good(w, json, world) && anchor in world.pending
    ensures AnchorsPrefix(w, anchor, world.trail, anchor.seqNo)
    ensures Latest(json, Appended(json, world.anchors, anchor)) == Ok(Some(anchor))
    ensures SoundTrail(w, world.trail) && StoreOf(w, world.store, world.trail)
    ensures Sane(w, json, world.store, world.anchors, world.trail)
  {
    assert AnchorsPrefix(w, anchor, world.trail, anchor.seqNo);
    LatestAfterAppend(json, world.anchors, anchor);
  }

  /** A late append leaves a state that verifies exactly if its anchor is not behind the cut. */
  lemma PublishVerifiesIff(w: Wire, json: Json, world: World, anchor: Anchor)
    requires json.Lawful() && Good(w, json, world) && anchor in world.pending
    ensures var after := Step(w, json, world, Publish(anchor));
            VerifyChain(w, json, after.store, after.anchors) ==
            if anchor.seqNo >= world.store.CutSeq()
            then Ok(Verified(|world.store.rows|, |world.trail|, HeadHash(w, world.trail, GENESIS)))
            else BehindCut(anchor, world.trail)
  {
    var anchors := Appended(json, world.anchors, anchor);
    PendingFacts(w, json, world, anchor);
    PublishOutcome(w, json, world, anchor);
    if anchor.seqNo >= world.store.CutSeq() {
      HonestAnchorKeepsSane(w, json, world.store, world.anchors, world.trail, anchor);
      SaneStateVerifies(w, json, world.store, anchors, world.trail);
    } else {
      NewestBehindCutIsUnreachable(w, json, world.store, anchors, world.trail, anchor);
    }
  }

  // ----- an anchor file that holds an anchor keeps holding one

  lemma AppendHasAnchor(json: Json, anchors: string, anchor: Anchor)
    requires json.Lawful() && Text.EndsLine(anchors) && anchor.seqNo > 0
    ensures HasAnchor(json, Appended(json, anchors, anchor))
  {
    LatestAfterAppend(json, anchors, anchor);
  }

  lemma PendingIsNumbered(w: Wire, json: Json, world: World, anchor: Anchor)
    requires Good(w, json, world) && anchor in world.pending
    ensures anchor.seqNo > 0
  {
    assert AnchorsPrefix(w, anchor, world.trail, anchor.seqNo);
  }

  lemma HeadIsAppended(w: Wire, json: Json, world: World, nowMillis: int) returns (anchor: Anchor)
    requires Good(w, json, world) && world.cutter.Removed?
    ensures anchor.seqNo > 0
    ensures Step(w, json, world, WriteHead(nowMillis)).anchors == Appended(json, world.anchors, anchor)
  {
    var v := RemainderIsAnchored(w, world.cutter.at, world.cutter.plan.remainder, world.trail, nowMillis);
    WriteHeadOutcome(w, json, world, nowMillis, v);
    anchor := Over(v, nowMillis);
  }

  /** The event appends no anchor. */
  predicate AppendsNothing(world: World, e: Event) {
    match e
    case Publish(anchor) => anchor !in world.pending
    case WriteAnchor(_) => !world.cutter.Planned?
    case WriteHead(_) => !world.cutter.Removed?
    case _ => true
  }

  lemma NothingAppended(w: Wire, json: Json, world: World, e: Event)
    requires AppendsNothing(world, e)
    ensures Step(w, json, world, e).anchors == world.anchors
  {
  }

  /** The anchor file of the next state is the same, or one numbered anchor longer. */
  lemma StepKeepsOrAppends(w: Wire, json: Json, world: World, e: Event) returns (anchor: Anchor)
    requires Good(w, json, world)
    ensures var next := Step(w, json, world, e).anchors;
            next == world.anchors || (anchor.seqNo > 0 && next == Appended(json, world.anchors, anchor))
  {
    if AppendsNothing(world, e) {
      NothingAppended(w, json, world, e);
      anchor := *;
    } else {
      anchor := StepAppends(w, json, world, e);
    }
  }

  lemma StepAppends(w: Wire, json: Json, world: World, e: Event) returns (anchor: Anchor)
    requires Good(w, json, world) && !AppendsNothing(world, e)
    ensures anchor.seqNo > 0 && Step(w, json, world, e).anchors == Appended(json, world.anchors, anchor)
  {
    match e
    case Publish(late) =>
      PendingIsNumbered(w, json, world, late);
      anchor := late;
    case WriteAnchor(nowMillis) =>
      PlannedIsAnchored(w, json, world, nowMillis);
      anchor := Over(world.cutter.plan.prefix, nowMillis);
    case WriteHead(nowMillis) =>
      anchor := HeadIsAppended(w, json, world, nowMillis);
  }

  lemma StepKeepsAnchor(w: Wire, json: Json, world: World, e: Event)
    requires json.Lawful() && Good(w, json, world) && HasAnchor(json, world.anchors)
    ensures HasAnchor(json, Step(w, json, world, e).anchors)
  {
    var anchor := StepKeepsOrAppends(w, json, world, e);
    if anchor.seqNo > 0 {
      AppendHasAnchor(json, world.anchors, anchor);
    }
  }

  /** From a good state with an anchor, every state of every run verifies. */
  lemma {:induction false} RunsKeepVerifying(w: Wire, json: Json, world: World, events: seq<Event>)
    requires json.Lawful() && Good(w, json, world) && HasAnchor(json, world.anchors)
    requires AllAdmissible(w, json, world, events)
    ensures VerifyChain(w, json, Run(w, json, world, events).store, Run(w, json, world, events).anchors).Ok?
    decreases |events|
  {
    if events == [] {
      GoodStateVerifies(w, json, world);
    } else {
      StepKeepsGood(w, json, world, events[0]);
      StepKeepsAnchor(w, json, world, events[0]);
      RunsKeepVerifying(w, json, Step(w, json, world, events[0]), events[1..]);
    }
  }

  // ----- exactly which late appends are harmless

  /** The cut that is about to be made moves past the anchor that was appended late. */
  lemma DeleteMovesPast(w: Wire, json: Json, world: World, anchor: Anchor)
    requires json.Lawful() && Good(w, json, world) && anchor in world.pending
    requires world.cutter.Anchored? && anchor.seqNo < world.cutter.plan.prefix.headSeq
    ensures var after := Step(w, json, Step(w, json, world, Publish(anchor)), Delete);
            VerifyChain(w, json, after.store, after.anchors) == BehindCut(anchor, world.trail)
  {
    PendingFacts(w, json, world, anchor);
    PublishOutcome(w, json, world, anchor);
    AnchoredFacts(w, json, world);
    var store, cut := StoreAfterPlan(w, world.store, world.cutter.plan, world.trail);
    DeleteOutcome(w, json, Step(w, json, world, Publish(anchor)), store);
    NewestBehindCutIsUnreachable(w, json, store, Appended(json, world.anchors, anchor), world.trail, anchor);
  }

  /**
   * After a late append every state of every run verifies exactly if the anchor was timely: not
   * behind the cut that was made, nor behind the one that is about to be made.
   */
  lemma PublishIsSafeIff(w: Wire, json: Json, world: World, anchor: Anchor)
    requires json.Lawful() && Good(w, json, world) && anchor in world.pending
    ensures var after := Step(w, json, world, Publish(anchor));
            (forall events :: AllAdmissible(w, json, after, events) ==>
               VerifyChain(w, json, Run(w, json, after, events).store, Run(w, json, after, events).anchors).Ok?)
            <==> Timely(world, anchor)
  {
    var after := Step(w, json, world, Publish(anchor));
    if Timely(world, anchor) {
      PublishKeepsGood(w, json, world, anchor);
      PublishHasAnchor(w, json, world, anchor);
      forall events | AllAdmissible(w, json, after, events)
        ensures VerifyChain(w, json, Run(w, json, after, events).store, Run(w, json, after, events).anchors).Ok?
      {
        RunsKeepVerifying(w, json, after, events);
      }
    } else {
      var events := UntimelyBreaks(w, json, world, anchor);
    }
  }

  lemma PublishHasAnchor(w: Wire, json: Json, world: World, anchor: Anchor)
    requires json.Lawful() && Good(w, json, world) && anchor in world.pending
    ensures HasAnchor(json, Step(w, json, world, Publish(anchor)).anchors)
  {
    PendingFacts(w, json, world, anchor);
    PublishOutcome(w, json, world, anchor);
  }

  lemma UntimelyBreaks(w: Wire, json: Json, world: World, anchor: Anchor) returns (events: seq<Event>)
    requires json.Lawful() && Good(w, json, world) && anchor in world.pending && !Timely(world, anchor)
    ensures var after := Step(w, json, world, Publish(anchor));
            && AllAdmissible(w, json, after, events)
            && VerifyChain(w, json, Run(w, json, after, events).store, Run(w, json, after, events).anchors).Err?
  {
    var after := Step(w, json, world, Publish(anchor));
    if anchor.seqNo < world.store.CutSeq() {
      events := [];
      PublishVerifiesIff(w, json, world, anchor);
    } else {
      events := [Delete];
      DeleteMovesPast(w, json, world, anchor);
      RunOfDelete(w, json, after);
    }
  }

  lemma RunOfDelete(w: Wire, json: Json, world: World)
    ensures Run(w, json, world, [Delete]) == Step(w, json, world, Delete)
    ensures AllAdmissible(w, json, world, [Delete])
  {
    var none: seq<Event> := [];
    assert [Delete][1..] == none;
    assert Run(w, json, Step(w, json, world, Delete), none) == Step(w, json, world, Delete);
    assert AllAdmissible(w, json, Step(w, json, world, Delete), none);
  }
}
