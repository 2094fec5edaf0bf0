/**
 * Cutting while the service appends: every interleaving of one cut at a time, any number of
 * anchors taken meanwhile, and crashes at any point (crates/ciphr-cli/src/main.rs, `cut_trail` and
 * `take_anchor`).
 */
module CutRuns {
  import opened Basics
  import opened Chain
  import opened Verify
  import opened Anchor
  import opened Cut
  import Text

  /** How far the running cut has come. */
  datatype Phase =
    | Idle
    | Planned(plan: Plan)
    | Anchored(plan: Plan)
    | Removed(at: AuditCut, plan: Plan)

  /**
   * The store, the anchor file, the running cut, the anchors that running `audit anchor` commands
   * have decided on and not yet appended, and every record the service ever appended.
   */
  datatype World = World(
    store: Store, anchors: string, cutter: Phase, pending: multiset<Anchor>, trail: seq<StoredRecord>)

  function FreshWorld(): World {
    World(Store([], []), "", Idle, multiset{}, [])
  }

  datatype Event =
    | Append(record: StoredRecord)
    | Read(nowMillis: int)
    | Publish(anchor: Anchor)
    | Begin(keep: nat, archive: Option<seq<string>>)
    | WriteAnchor(nowMillis: int)
    | Delete
    | WriteHead(nowMillis: int)
    | Stop

  /** The service appends only what its sink committed. */
  predicate Continues(w: Wire, trail: seq<StoredRecord>, record: StoredRecord) {
    VerifyFrom(w, Genesis, trail + [record]).Ok? && record.hash == Some(w.hash(record.payload))
  }

  ghost function Step(w: Wire, json: Json, world: World, e: Event): World {
    match e
    case Append(record) =>
      if Continues(w, world.trail, record)
      then world.(store := world.store.(rows := world.store.rows + [record]), trail := world.trail + [record])
      else world
    case Read(nowMillis) =>
      (match AnchorToTake(w, json, world.store, world.anchors, nowMillis)
       case Ok(anchor) => world.(pending := world.pending + multiset{anchor})
       case Err(_) => world)
    case Publish(anchor) =>
      if anchor !in world.pending then world
      else
        world.(anchors := Appended(json, world.anchors, anchor), pending := world.pending - multiset{anchor})
    case Begin(keep, archive) =>
      if !world.cutter.Idle? then world
      else
        (match PlanCut(w, json, world.store, world.anchors, keep, Covered(w, world.store.rows, keep, archive))
         case Ok(Some(plan)) => world.(cutter := Planned(plan))
         case _ => world)
    case WriteAnchor(nowMillis) =>
      if !world.cutter.Planned? then world
      else
        world.(anchors := Appended(json, world.anchors, Over(world.cutter.plan.prefix, nowMillis)),
               cutter := Anchored(world.cutter.plan))
    case Delete =>
      if !world.cutter.Anchored? then world
      else
        (match StoreCut(world.store, world.cutter.plan.prefix.headSeq, world.cutter.plan.prefix.headHash)
         case Ok(store) => world.(store := store, cutter := Removed(store.cuts[|store.cuts| - 1], world.cutter.plan))
         case Err(_) => world.(cutter := Idle))
    case WriteHead(nowMillis) =>
      if !world.cutter.Removed? then world
      else
        (match VerifyFrom(w, AfterCut(world.cutter.at.seqNo, world.cutter.at.hash), world.cutter.plan.remainder)
         case Ok(v) => world.(anchors := Appended(json, world.anchors, Over(v, nowMillis)), cutter := Idle)
         case Err(_) => world.(cutter := Idle))
    case Stop => world.(cutter := Idle)
  }

  ghost function Run(w: Wire, json: Json, world: World, events: seq<Event>): World
    decreases |events|
  {
    if events == [] then world else Run(w, json, Step(w, json, world, events[0]), events[1..])
  }

  // ----- what every step keeps

  /** The whole history is sound and its stored hashes are right. */
  predicate SoundTrail(w: Wire, trail: seq<StoredRecord>) {
    && Sound(w, trail, GENESIS)
    && (trail != [] ==> trail[0].seqNo == 1)
    && forall i :: 0 <= i < |trail| ==> trail[i].hash == Some(w.hash(trail[i].payload))
  }

  /** The table holds what the cuts have not removed, and the newest cut names what it continues. */
  predicate StoreOf(w: Wire, store: Store, trail: seq<StoredRecord>) {
    var c := store.CutSeq();
    && c <= |trail| && store.rows == trail[c..]
    && store.StartPoint() == StartAt(w, trail, c)
    && (store.cuts != [] ==> 0 < c < |trail|)
  }

  /** Every readable line of the anchor file is an anchor over a prefix of the history. */
  predicate HonestAnchors(w: Wire, json: Json, anchors: string, trail: seq<StoredRecord>) {
    Text.EndsLine(anchors) && forall line :: line in Text.Lines(anchors) && Parse(json, line).Ok? ==>
      AnchorsPrefix(w, Parse(json, line).value, trail, Parse(json, line).value.seqNo)
  }

  /** The newest anchor, if there is one, is readable and stands at or after `c`. */
  predicate NewestReaches(json: Json, anchors: string, c: nat) {
    var newest := Latest(json, anchors);
    newest.Ok? && (newest.value.Some? ==> newest.value.value.seqNo >= c)
  }

  predicate HasAnchor(json: Json, anchors: string) {
    Latest(json, anchors) != Ok(None)
  }

  /** The plan was made over rows that are still there, from the store's cut `c` on. */
  predicate PlanHolds(w: Wire, plan: Plan, c: nat, trail: seq<StoredRecord>) {
    var k, n := plan.prefix.headSeq, plan.prefix.headSeq + |plan.remainder|;
    && c < k < n <= |trail|
    && plan.prefix.headHash == w.hash(trail[k - 1].payload)
    && plan.remainder == trail[k..n]
  }

  /** A plan that can be carried out over a table that ends a sound history. */
  predicate CanBeCut(w: Wire, plan: Plan, c: nat, rows: seq<StoredRecord>, trail: seq<StoredRecord>) {
    SoundTrail(w, trail) && PlanHolds(w, plan, c, trail) && rows == trail[c..]
  }

  /** What is kept follows the cut in the history. */
  predicate RemainderHolds(w: Wire, at: AuditCut, remainder: seq<StoredRecord>, trail: seq<StoredRecord>) {
    var c, n := at.seqNo, at.seqNo + |remainder|;
    0 < c < n <= |trail| && at.hash == w.hash(trail[c - 1].payload) && remainder == trail[c..n]
  }

  predicate CutterHolds(w: Wire, json: Json, world: World) {
    var c := world.store.CutSeq();
    match world.cutter
    case Idle => true
    case Planned(plan) => PlanHolds(w, plan, c, world.trail)
    case Anchored(plan) =>
      PlanHolds(w, plan, c, world.trail) && HasAnchor(json, world.anchors)
      && NewestReaches(json, world.anchors, plan.prefix.headSeq)
    case Removed(at, plan) =>
      at.seqNo == c == plan.prefix.headSeq && RemainderHolds(w, at, plan.remainder, world.trail)
      && HasAnchor(json, world.anchors)
  }

  predicate Sane(w: Wire, json: Json, store: Store, anchors: string, trail: seq<StoredRecord>) {
    && SoundTrail(w, trail)
    && StoreOf(w, store, trail)
    && HonestAnchors(w, json, anchors, trail)
    && NewestReaches(json, anchors, store.CutSeq())
    && (store.cuts != [] ==> HasAnchor(json, anchors))
  }

  /** Every anchor that is still to be appended is one over a prefix of the history. */
  predicate PendingHonest(w: Wire, pending: multiset<Anchor>, trail: seq<StoredRecord>) {
    forall anchor :: anchor in pending ==> AnchorsPrefix(w, anchor, trail, anchor.seqNo)
  }

  predicate Good(w: Wire, json: Json, world: World) {
    && Sane(w, json, world.store, world.anchors, world.trail)
    && CutterHolds(w, json, world)
    && PendingHonest(w, world.pending, world.trail)
  }

  lemma TrailVerifies(w: Wire, trail: seq<StoredRecord>)
    requires SoundTrail(w, trail)
    ensures VerifyFrom(w, Genesis, trail).Ok?
  {
    SoundRunVerifies(w, Genesis, trail);
  }

  lemma ContinuedIsSound(w: Wire, trail: seq<StoredRecord>, record: StoredRecord)
    requires SoundTrail(w, trail) && Continues(w, trail, record)
    ensures SoundTrail(w, trail + [record])
  {
    VerifyAcceptsIffSound(w, trail + [record], GENESIS);
  }

  lemma TrailSeqNo(w: Wire, trail: seq<StoredRecord>, i: nat)
    requires SoundTrail(w, trail) && i < |trail|
    ensures trail[i].seqNo == i + 1
  {
    SoundSeqNos(w, trail, GENESIS, i);
  }

  lemma LastNonBlankIsALine(lines: seq<string>)
    requires LastNonBlank(lines).Some?
    ensures LastNonBlank(lines).value in lines
  {
  }

  lemma NewestIsHonest(w: Wire, json: Json, anchors: string, trail: seq<StoredRecord>)
    requires HonestAnchors(w, json, anchors, trail)
    requires Latest(json, anchors).Ok? && Latest(json, anchors).value.Some?
    ensures var a := Latest(json, anchors).value.value; AnchorsPrefix(w, a, trail, a.seqNo)
  {
    LastNonBlankIsALine(Text.Lines(anchors));
  }

  lemma CheckOutcome(w: Wire, json: Json, store: Store, anchors: string, v: Verified)
    requires Latest(json, anchors).Ok? && VerifyFrom(w, store.StartPoint(), store.rows) == Ok(v)
    requires Latest(json, anchors).value.Some? ==>
               VerifyWithAnchor(w, Latest(json, anchors).value.value, store.StartPoint(), store.rows) == Ok(v)
    ensures CheckTrail(w, json, store, anchors) == Ok(v)
  {
  }

  /** An accepting anchor answers what the run without it answers. */
  lemma AcceptedAnswersRun(w: Wire, anchor: Anchor, start: Start, records: seq<StoredRecord>)
    requires VerifyWithAnchor(w, anchor, start, records).Ok?
    ensures VerifyWithAnchor(w, anchor, start, records) == VerifyFrom(w, start, records)
  {
  }

  lemma HonestAnchorAccepts(w: Wire, trail: seq<StoredRecord>, c: nat, anchor: Anchor)
    requires VerifyFrom(w, Genesis, trail).Ok? && c < |trail|
    requires AnchorsPrefix(w, anchor, trail, anchor.seqNo) && anchor.seqNo >= c
    ensures VerifyWithAnchor(w, anchor, StartAt(w, trail, c), trail[c..]) == VerifyFrom(w, StartAt(w, trail, c), trail[c..])
  {
    HonestGrowthIsAcceptedIff(w, trail, anchor.seqNo, anchor, c);
    AcceptedAnswersRun(w, anchor, StartAt(w, trail, c), trail[c..]);
  }

  /** A sane trail verifies against the newest anchor, and up to the whole history's head. */
  lemma SaneTrailVerifies(w: Wire, json: Json, store: Store, anchors: string, trail: seq<StoredRecord>)
    requires Sane(w, json, store, anchors, trail)
    ensures |store.rows| == |trail| - store.CutSeq()
    ensures VerifyFrom(w, store.StartPoint(), store.rows) ==
            Ok(Verified(|store.rows|, |trail|, HeadHash(w, trail, GENESIS)))
    ensures var newest := Latest(json, anchors).value;
            newest.Some? ==>
              VerifyWithAnchor(w, newest.value, store.StartPoint(), store.rows) ==
              VerifyFrom(w, store.StartPoint(), store.rows)
  {
    var c, newest := store.CutSeq(), Latest(json, anchors).value;
    TrailVerifies(w, trail);
    RemainderVerifies(w, trail, c);
    if newest.Some? {
      NewestIsHonest(w, json, anchors, trail);
      HonestAnchorAccepts(w, trail, c, newest.value);
    }
  }

  lemma GoodTrailVerifies(w: Wire, json: Json, world: World)
    requires Good(w, json, world)
    ensures CheckTrail(w, json, world.store, world.anchors) ==
            Ok(Verified(|world.store.rows|, |world.trail|, HeadHash(w, world.trail, GENESIS)))
    ensures |world.store.rows| == |world.trail| - world.store.CutSeq()
  {
    SaneTrailVerifies(w, json, world.store, world.anchors, world.trail);
    CheckOutcome(w, json, world.store, world.anchors,
                 Verified(|world.store.rows|, |world.trail|, HeadHash(w, world.trail, GENESIS)));
  }

  lemma AppendKeepsAnchorsHonest(w: Wire, json: Json, anchors: string, anchor: Anchor, trail: seq<StoredRecord>)
    requires json.Lawful() && HonestAnchors(w, json, anchors, trail)
    requires AnchorsPrefix(w, anchor, trail, anchor.seqNo)
    ensures HonestAnchors(w, json, Appended(json, anchors, anchor), trail)
    ensures Latest(json, Appended(json, anchors, anchor)) == Ok(Some(anchor))
  {
    LinesAfterAppend(json, anchors, anchor);
    LatestAfterAppend(json, anchors, anchor);
    ParseOfEncode(json, anchor);
  }

  lemma AnchorsSurviveGrowth(w: Wire, json: Json, anchors: string, trail: seq<StoredRecord>, record: StoredRecord)
    requires HonestAnchors(w, json, anchors, trail)
    ensures HonestAnchors(w, json, anchors, trail + [record])
  {
    forall line | line in Text.Lines(anchors) && Parse(json, line).Ok?
      ensures AnchorsPrefix(w, Parse(json, line).value, trail + [record], Parse(json, line).value.seqNo)
    {
      assert AnchorsPrefix(w, Parse(json, line).value, trail, Parse(json, line).value.seqNo);
    }
  }

  lemma SaneSurvivesGrowth(
      w: Wire, json: Json, store: Store, anchors: string, trail: seq<StoredRecord>, record: StoredRecord)
    requires Sane(w, json, store, anchors, trail) && Continues(w, trail, record)
    ensures Sane(w, json, store.(rows := store.rows + [record]), anchors, trail + [record])
  {
    var c, more := store.CutSeq(), trail + [record];
    ContinuedIsSound(w, trail, record);
    AnchorsSurviveGrowth(w, json, anchors, trail, record);
    assert more[c..] == trail[c..] + [record];
    assert StartAt(w, more, c) == StartAt(w, trail, c);
  }

  lemma CutterSurvivesGrowth(w: Wire, json: Json, world: World, record: StoredRecord)
    requires CutterHolds(w, json, world)
    ensures CutterHolds(w, json, world.(store := world.store.(rows := world.store.rows + [record]),
                                        trail := world.trail + [record]))
  {
    var c, more := world.store.CutSeq(), world.trail + [record];
    match world.cutter
    case Idle =>
    case Planned(plan) => PlanSurvivesGrowth(w, plan, c, world.trail, record);
    case Anchored(plan) => PlanSurvivesGrowth(w, plan, c, world.trail, record);
    case Removed(at, plan) => RemainderSurvivesGrowth(w, at, plan.remainder, world.trail, record);
  }

  lemma AppendKeepsGood(w: Wire, json: Json, world: World, record: StoredRecord)
    requires Good(w, json, world) && Continues(w, world.trail, record)
    ensures Good(w, json, Step(w, json, world, Append(record)))
  {
    SaneSurvivesGrowth(w, json, world.store, world.anchors, world.trail, record);
    CutterSurvivesGrowth(w, json, world, record);
    PendingSurvivesGrowth(w, world.pending, world.trail, record);
  }

  lemma PendingSurvivesGrowth(w: Wire, pending: multiset<Anchor>, trail: seq<StoredRecord>, record: StoredRecord)
    requires PendingHonest(w, pending, trail)
    ensures PendingHonest(w, pending, trail + [record])
  {
    forall anchor | anchor in pending ensures AnchorsPrefix(w, anchor, trail + [record], anchor.seqNo) {
      assert AnchorsPrefix(w, anchor, trail, anchor.seqNo);
    }
  }

  lemma RemainderSurvivesGrowth(
      w: Wire, at: AuditCut, remainder: seq<StoredRecord>, trail: seq<StoredRecord>, record: StoredRecord)
    requires RemainderHolds(w, at, remainder, trail)
    ensures RemainderHolds(w, at, remainder, trail + [record])
  {
    var c, n := at.seqNo, at.seqNo + |remainder|;
    assert (trail + [record])[c..n] == trail[c..n];
  }

  lemma PlanSurvivesGrowth(w: Wire, plan: Plan, c: nat, trail: seq<StoredRecord>, record: StoredRecord)
    requires PlanHolds(w, plan, c, trail)
    ensures PlanHolds(w, plan, c, trail + [record])
  {
    var k, n := plan.prefix.headSeq, plan.prefix.headSeq + |plan.remainder|;
    assert (trail + [record])[k..n] == trail[k..n];
  }

  lemma HonestAnchorKeepsSane(
      w: Wire, json: Json, store: Store, anchors: string, trail: seq<StoredRecord>, anchor: Anchor)
    requires json.Lawful() && Sane(w, json, store, anchors, trail)
    requires AnchorsPrefix(w, anchor, trail, anchor.seqNo) && anchor.seqNo >= store.CutSeq()
    ensures Sane(w, json, store, Appended(json, anchors, anchor), trail)
    ensures Latest(json, Appended(json, anchors, anchor)) == Ok(Some(anchor))
  {
    AppendKeepsAnchorsHonest(w, json, anchors, anchor, trail);
  }

  lemma NewestAnchorKeepsCutter(w: Wire, json: Json, world: World, anchors: string, anchor: Anchor)
    requires CutterHolds(w, json, world) && Latest(json, anchors) == Ok(Some(anchor))
    requires world.cutter.Anchored? ==> anchor.seqNo >= world.cutter.plan.prefix.headSeq
    ensures CutterHolds(w, json, world.(anchors := anchors))
  {
  }

  /** An honest anchor at or after everything that is cut keeps the state good. */
  lemma HonestAnchorKeepsGood(w: Wire, json: Json, world: World, anchor: Anchor)
    requires json.Lawful() && Good(w, json, world)
    requires AnchorsPrefix(w, anchor, world.trail, anchor.seqNo)
    requires anchor.seqNo >= world.store.CutSeq()
    requires world.cutter.Anchored? ==> anchor.seqNo >= world.cutter.plan.prefix.headSeq
    ensures Good(w, json, world.(anchors := Appended(json, world.anchors, anchor)))
  {
    HonestAnchorKeepsSane(w, json, world.store, world.anchors, world.trail, anchor);
    NewestAnchorKeepsCutter(w, json, world, Appended(json, world.anchors, anchor), anchor);
  }

  lemma ReadOutcome(w: Wire, json: Json, world: World, nowMillis: int, v: Verified)
    requires CheckTrail(w, json, world.store, world.anchors) == Ok(v)
    ensures Step(w, json, world, Read(nowMillis)) ==
            if v.headSeq == 0 then world else world.(pending := world.pending + multiset{Over(v, nowMillis)})
  {
  }

  /** An anchor over a point of a sound history anchors the history up to there. */
  lemma PointIsAnchored(w: Wire, trail: seq<StoredRecord>, k: nat, v: Verified, nowMillis: int)
    requires SoundTrail(w, trail) && 0 < k <= |trail|
    requires v.headSeq == k && v.headHash == w.hash(trail[k - 1].payload)
    ensures AnchorsPrefix(w, Over(v, nowMillis), trail, k) && Over(v, nowMillis).seqNo == k
  {
    TrailSeqNo(w, trail, k - 1);
    NumberedPointIsAnchored(w, trail, k, v, nowMillis);
  }

  lemma NumberedPointIsAnchored(w: Wire, trail: seq<StoredRecord>, k: nat, v: Verified, nowMillis: int)
    requires 0 < k <= |trail| && trail[k - 1].seqNo == k
    requires v.headSeq == k && v.headHash == w.hash(trail[k - 1].payload)
    ensures AnchorsPrefix(w, Over(v, nowMillis), trail, k) && Over(v, nowMillis).seqNo == k
  {
  }

  lemma ReadKeepsGood(w: Wire, json: Json, world: World, nowMillis: int)
    requires json.Lawful() && Good(w, json, world)
    ensures Good(w, json, Step(w, json, world, Read(nowMillis)))
  {
    GoodTrailVerifies(w, json, world);
    var v := Verified(|world.store.rows|, |world.trail|, HeadHash(w, world.trail, GENESIS));
    ReadOutcome(w, json, world, nowMillis, v);
    if world.trail != [] {
      PointIsAnchored(w, world.trail, |world.trail|, v, nowMillis);
      CutterIgnoresPending(w, json, world, world.pending + multiset{Over(v, nowMillis)});
    }
  }

  lemma CutterIgnoresPending(w: Wire, json: Json, world: World, pending: multiset<Anchor>)
    ensures CutterHolds(w, json, world.(pending := pending)) <==> CutterHolds(w, json, world)
  {
  }

  /** What a late append must not be behind: the cut that is made and the one that is about to be. */
  predicate Timely(world: World, anchor: Anchor) {
    && anchor.seqNo >= world.store.CutSeq()
    && (world.cutter.Anchored? ==> anchor.seqNo >= world.cutter.plan.prefix.headSeq)
  }

  lemma PublishOutcome(w: Wire, json: Json, world: World, anchor: Anchor)
    requires anchor in world.pending
    ensures Step(w, json, world, Publish(anchor)) ==
            world.(anchors := Appended(json, world.anchors, anchor), pending := world.pending - multiset{anchor})
  {
  }

  lemma PublishKeepsGood(w: Wire, json: Json, world: World, anchor: Anchor)
    requires json.Lawful() && Good(w, json, world) && (anchor in world.pending ==> Timely(world, anchor))
    ensures Good(w, json, Step(w, json, world, Publish(anchor)))
  {
    if anchor in world.pending {
      PublishOutcome(w, json, world, anchor);
      HonestAnchorKeepsGood(w, json, world, anchor);
      var published := world.(anchors := Appended(json, world.anchors, anchor));
      CutterIgnoresPending(w, json, published, world.pending - multiset{anchor});
    }
  }

  /** The plan for keeping the newest `keep` records. */
  function PlanFor(w: Wire, trail: seq<StoredRecord>, c: nat, keep: nat): Plan
    requires c + keep < |trail|
  {
    var k := |trail| - keep;
    Plan(Verified(k - c, k, w.hash(trail[k - 1].payload)), trail[k..])
  }

  lemma NothingToPlan(w: Wire, json: Json, store: Store, anchors: string, keep: nat, covered: bool)
    requires CheckTrail(w, json, store, anchors).Ok? && |store.rows| <= keep
    ensures PlanCut(w, json, store, anchors, keep, covered) == Ok(None)
  {
  }

  lemma PlanOutcome(
    w: Wire, json: Json, store: Store, anchors: string, keep: nat, covered: bool,
    removing: seq<StoredRecord>, remainder: seq<StoredRecord>, prefix: Verified)
    requires CheckTrail(w, json, store, anchors).Ok?
    requires store.rows == removing + remainder && removing != [] && |remainder| == keep
    requires VerifyFrom(w, store.StartPoint(), removing) == Ok(prefix)
    ensures PlanCut(w, json, store, anchors, keep, covered) == PlanFrom(Ok(prefix), remainder, covered)
  {
    assert store.rows[..|store.rows| - keep] == removing;
    assert store.rows[|store.rows| - keep..] == remainder;
  }

  /** The records that a cut removes, those it keeps, and what verifying the former answers. */
  lemma RowsToRemove(w: Wire, start: Start, rows: seq<StoredRecord>, trail: seq<StoredRecord>, c: nat, keep: nat)
    returns (removing: seq<StoredRecord>, plan: Plan)
    requires SoundTrail(w, trail) && c + keep < |trail| && rows == trail[c..] && start == StartAt(w, trail, c)
    ensures rows == removing + plan.remainder && removing != [] && |plan.remainder| == keep
    ensures VerifyFrom(w, start, removing) == Ok(plan.prefix) && plan == PlanFor(w, trail, c, keep)
  {
    removing := SplitRows(w, rows, trail, c, keep);
    plan := PlanFor(w, trail, c, keep);
    PlanPrefixVerifies(w, start, removing, trail, c, keep);
  }

  lemma SplitRows(w: Wire, rows: seq<StoredRecord>, trail: seq<StoredRecord>, c: nat, keep: nat)
    returns (removing: seq<StoredRecord>)
    requires c + keep < |trail| && rows == trail[c..]
    ensures removing == trail[c..|trail| - keep] && removing != []
    ensures var remainder := PlanFor(w, trail, c, keep).remainder;
            rows == removing + remainder && |remainder| == keep
  {
    removing := trail[c..|trail| - keep];
    SuffixSplit(trail, c, |trail| - keep);
  }

  lemma PlanPrefixVerifies(
    w: Wire, start: Start, removing: seq<StoredRecord>, trail: seq<StoredRecord>, c: nat, keep: nat)
    requires SoundTrail(w, trail) && c + keep < |trail| && removing == trail[c..|trail| - keep]
    requires start == StartAt(w, trail, c)
    ensures VerifyFrom(w, start, removing) == Ok(PlanFor(w, trail, c, keep).prefix)
  {
    var prefix := StretchVerifies(w, start, removing, trail, c, |trail| - keep);
  }

  /** What a cut decides in a good state. */
  lemma PlanOfGood(w: Wire, json: Json, world: World, keep: nat, covered: bool)
    requires Good(w, json, world)
    ensures |world.store.rows| == |world.trail| - world.store.CutSeq()
    ensures PlanCut(w, json, world.store, world.anchors, keep, covered) ==
            if |world.store.rows| <= keep then Ok(None)
            else if !covered then Err(CutRefused(NotArchived))
            else Ok(Some(PlanFor(w, world.trail, world.store.CutSeq(), keep)))
  {
    GoodTrailVerifies(w, json, world);
    var c, trail, rows := world.store.CutSeq(), world.trail, world.store.rows;
    if |rows| > keep {
      var removing, plan := RowsToRemove(w, world.store.StartPoint(), rows, trail, c, keep);
      PlanOutcome(w, json, world.store, world.anchors, keep, covered, removing, plan.remainder, plan.prefix);
    } else {
      NothingToPlan(w, json, world.store, world.anchors, keep, covered);
    }
  }

  lemma BeginOutcome(
    w: Wire, json: Json, world: World, keep: nat, archive: Option<seq<string>>, r: Result<Option<Plan>, Failure>)
    requires PlanCut(w, json, world.store, world.anchors, keep, Covered(w, world.store.rows, keep, archive)) == r
    ensures Step(w, json, world, Begin(keep, archive)) ==
            if world.cutter.Idle? && r.Ok? && r.value.Some? then world.(cutter := Planned(r.value.value)) else world
  {
  }

  lemma BeginKeepsGood(w: Wire, json: Json, world: World, keep: nat, archive: Option<seq<string>>)
    requires Good(w, json, world) && keep > 0
    ensures Good(w, json, Step(w, json, world, Begin(keep, archive)))
  {
    var covered := Covered(w, world.store.rows, keep, archive);
    PlanOfGood(w, json, world, keep, covered);
    var r := PlanCut(w, json, world.store, world.anchors, keep, covered);
    BeginOutcome(w, json, world, keep, archive, r);
    if |world.store.rows| > keep {
      PlanForHolds(w, world.trail, world.store.CutSeq(), keep);
    }
  }

  lemma PlanForHolds(w: Wire, trail: seq<StoredRecord>, c: nat, keep: nat)
    requires c + keep < |trail| && keep > 0
    ensures PlanHolds(w, PlanFor(w, trail, c, keep), c, trail)
  {
    assert trail[|trail| - keep..|trail|] == trail[|trail| - keep..];
  }

  /** The records between the cut and any later point verify on their own. */
  lemma PrefixVerifies(w: Wire, trail: seq<StoredRecord>, c: nat, k: nat)
    requires SoundTrail(w, trail) && c < k <= |trail|
    ensures VerifyFrom(w, StartAt(w, trail, c), trail[c..k]) == Ok(Verified(k - c, k, w.hash(trail[k - 1].payload)))
  {
    var prefix := trail[..k];
    PrefixIsSoundTrail(w, trail, k);
    TrailVerifies(w, prefix);
    RemainderVerifies(w, prefix, c);
    assert prefix[c..] == trail[c..k];
    assert StartAt(w, prefix, c) == StartAt(w, trail, c);
    assert HeadHash(w, prefix, GENESIS) == w.hash(trail[k - 1].payload);
  }

  lemma PrefixIsSoundTrail(w: Wire, trail: seq<StoredRecord>, k: nat)
    requires SoundTrail(w, trail) && 0 < k <= |trail|
    ensures SoundTrail(w, trail[..k])
  {
    SoundPrefix(w, trail, GENESIS, k);
  }

  lemma WriteAnchorOutcome(w: Wire, json: Json, world: World, nowMillis: int)
    requires world.cutter.Planned?
    ensures Step(w, json, world, WriteAnchor(nowMillis)) ==
            world.(anchors := Appended(json, world.anchors, Over(world.cutter.plan.prefix, nowMillis)),
                   cutter := Anchored(world.cutter.plan))
  {
  }

  lemma AnchoredPlanHolds(w: Wire, json: Json, world: World, anchors: string, anchor: Anchor)
    requires world.cutter.Planned? && CutterHolds(w, json, world)
    requires Latest(json, anchors) == Ok(Some(anchor)) && anchor.seqNo == world.cutter.plan.prefix.headSeq
    ensures CutterHolds(w, json, world.(anchors := anchors, cutter := Anchored(world.cutter.plan)))
  {
  }

  lemma PlannedIsAnchored(w: Wire, json: Json, world: World, nowMillis: int)
    requires Good(w, json, world) && world.cutter.Planned?
    ensures var anchor := Over(world.cutter.plan.prefix, nowMillis);
            && AnchorsPrefix(w, anchor, world.trail, anchor.seqNo)
            && anchor.seqNo == world.cutter.plan.prefix.headSeq > world.store.CutSeq()
  {
    var prefix := world.cutter.plan.prefix;
    PointIsAnchored(w, world.trail, prefix.headSeq, prefix, nowMillis);
  }

  lemma AnchoredIsGood(w: Wire, json: Json, world: World, anchor: Anchor)
    requires json.Lawful() && world.cutter.Planned? && Sane(w, json, world.store, world.anchors, world.trail)
    requires CutterHolds(w, json, world) && PendingHonest(w, world.pending, world.trail)
    requires AnchorsPrefix(w, anchor, world.trail, anchor.seqNo)
    requires anchor.seqNo == world.cutter.plan.prefix.headSeq > world.store.CutSeq()
    ensures Good(w, json, world.(anchors := Appended(json, world.anchors, anchor), cutter := Anchored(world.cutter.plan)))
  {
    HonestAnchorKeepsSane(w, json, world.store, world.anchors, world.trail, anchor);
    AnchoredPlanHolds(w, json, world, Appended(json, world.anchors, anchor), anchor);
  }

  lemma PlannedFacts(w: Wire, json: Json, world: World)
    requires Good(w, json, world) && world.cutter.Planned?
    ensures Sane(w, json, world.store, world.anchors, world.trail) && CutterHolds(w, json, world)
    ensures PendingHonest(w, world.pending, world.trail)
  {
  }

  lemma PlannedWriteIsGood(w: Wire, json: Json, world: World, nowMillis: int) returns (next: World)
    requires json.Lawful() && Good(w, json, world) && world.cutter.Planned?
    ensures next == world.(anchors := Appended(json, world.anchors, Over(world.cutter.plan.prefix, nowMillis)),
                           cutter := Anchored(world.cutter.plan))
    ensures Good(w, json, next)
  {
    var anchor := Over(world.cutter.plan.prefix, nowMillis);
    PlannedFacts(w, json, world);
    PlannedIsAnchored(w, json, world, nowMillis);
    AnchoredIsGood(w, json, world, anchor);
    next := world.(anchors := Appended(json, world.anchors, anchor), cutter := Anchored(world.cutter.plan));
  }

  lemma WriteAnchorKeepsGood(w: Wire, json: Json, world: World, nowMillis: int)
    requires json.Lawful() && Good(w, json, world)
    ensures Good(w, json, Step(w, json, world, WriteAnchor(nowMillis)))
  {
    if world.cutter.Planned? {
      var next := PlannedWriteIsGood(w, json, world, nowMillis);
      assert Step(w, json, world, WriteAnchor(nowMillis)) == next by {
        WriteAnchorOutcome(w, json, world, nowMillis);
      }
    }
  }

  lemma {:induction false} RowsAboveOfTrail(w: Wire, trail: seq<StoredRecord>, c: nat, k: nat)
    requires SoundTrail(w, trail) && c <= k <= |trail|
    ensures RowsAbove(trail[c..], k) == trail[k..]
    decreases |trail| - c
  {
    if c < |trail| {
      TrailSeqNo(w, trail, c);
      assert trail[c..][0] == trail[c] && trail[c..][1..] == trail[c + 1..];
      if c < k {
        RowsAboveOfTrail(w, trail, c + 1, k);
      } else {
        RowsAboveAll(w, trail, c);
      }
    }
  }

  lemma {:induction false} RowsAboveAll(w: Wire, trail: seq<StoredRecord>, c: nat)
    requires SoundTrail(w, trail) && c <= |trail|
    ensures forall k :: 0 <= k <= c ==> RowsAbove(trail[c..], k) == trail[c..]
    decreases |trail| - c
  {
    if c < |trail| {
      TrailSeqNo(w, trail, c);
      assert trail[c..][0] == trail[c] && trail[c..][1..] == trail[c + 1..];
      RowsAboveAll(w, trail, c + 1);
    }
  }

  lemma PositionInTrail(w: Wire, trail: seq<StoredRecord>, c: nat, k: nat)
    requires SoundTrail(w, trail) && c < k <= |trail|
    ensures PositionOf(trail[c..], k) == k - 1 - c
  {
    TrailSeqNo(w, trail, k - 1);
    assert trail[c..][k - 1 - c].seqNo == k;
    var i := PositionOf(trail[c..], k);
    if i < |trail| - c {
      TrailSeqNo(w, trail, c + i);
    }
  }

  lemma StoreCutOutcome(store: Store, k: nat, hash: Digest, kept: seq<StoredRecord>)
    requires PositionOf(store.rows, k) < |store.rows| && store.rows[PositionOf(store.rows, k)].hash == Some(hash)
    requires RowsAbove(store.rows, k) == kept != [] && store.CutSeq() < k && |kept| <= |store.rows|
    ensures StoreCut(store, k, hash) == Ok(Store(kept, store.cuts + [AuditCut(k, hash, |store.rows| - |kept|)]))
  {
  }

  /** What a table that ends a sound history holds above and at `k`. */
  lemma RowsAtCut(
      w: Wire, rows: seq<StoredRecord>, trail: seq<StoredRecord>, c: nat, k: nat) returns (kept: seq<StoredRecord>)
    requires SoundTrail(w, trail) && c < k < |trail| && rows == trail[c..]
    ensures kept == RowsAbove(rows, k) == trail[k..] && kept != [] && |rows| - |kept| == k - c
    ensures PositionOf(rows, k) < |rows| && rows[PositionOf(rows, k)].hash == Some(w.hash(trail[k - 1].payload))
  {
    RowsAboveOfTrail(w, trail, c, k);
    PositionInTrail(w, trail, c, k);
    kept := trail[k..];
    assert rows[k - 1 - c] == trail[k - 1];
  }

  /** Once planned over a good state, the store carries the cut out: none of its refusals can occur. */
  lemma PlannedCutIsNotRefused(w: Wire, store: Store, plan: Plan, trail: seq<StoredRecord>)
    requires SoundTrail(w, trail) && store.CutSeq() < plan.prefix.headSeq < |trail|
    requires store.rows == trail[store.CutSeq()..]
    requires plan.prefix.headHash == w.hash(trail[plan.prefix.headSeq - 1].payload)
    ensures var k := plan.prefix.headSeq;
            StoreCut(store, k, plan.prefix.headHash) ==
            Ok(Store(trail[k..], store.cuts + [AuditCut(k, w.hash(trail[k - 1].payload), k - store.CutSeq())]))
  {
    var k := plan.prefix.headSeq;
    var kept := RowsAtCut(w, store.rows, trail, store.CutSeq(), k);
    StoreCutOutcome(store, k, plan.prefix.headHash, kept);
  }

  lemma DeleteOutcome(w: Wire, json: Json, world: World, store: Store)
    requires world.cutter.Anchored?
    requires StoreCut(world.store, world.cutter.plan.prefix.headSeq, world.cutter.plan.prefix.headHash) == Ok(store)
    ensures store.cuts != []
    ensures Step(w, json, world, Delete) ==
            world.(store := store, cutter := Removed(store.cuts[|store.cuts| - 1], world.cutter.plan))
  {
  }

  lemma CutStoreHolds(
    w: Wire, cuts: seq<AuditCut>, trail: seq<StoredRecord>, k: nat, cut: AuditCut, kept: seq<StoredRecord>)
    requires 0 < k < |trail| && kept == trail[k..] && cut.seqNo == k && cut.hash == w.hash(trail[k - 1].payload)
    ensures StoreOf(w, Store(kept, cuts + [cut]), trail) && Store(kept, cuts + [cut]).CutSeq() == k
  {
  }

  lemma CutKeepsSane(w: Wire, json: Json, before: Store, store: Store, anchors: string, trail: seq<StoredRecord>)
    requires Sane(w, json, before, anchors, trail) && StoreOf(w, store, trail)
    requires HasAnchor(json, anchors) && NewestReaches(json, anchors, store.CutSeq())
    ensures Sane(w, json, store, anchors, trail)
  {
  }

  lemma RemovedPlanHolds(w: Wire, json: Json, world: World, store: Store, cut: AuditCut)
    requires world.cutter.Anchored? && CutterHolds(w, json, world) && StoreOf(w, store, world.trail)
    requires store.cuts != [] && cut == store.cuts[|store.cuts| - 1] && cut.seqNo == world.cutter.plan.prefix.headSeq
    ensures CutterHolds(w, json, world.(store := store, cutter := Removed(cut, world.cutter.plan)))
  {
  }

  lemma StoreAfterCut(w: Wire, store: Store, k: nat, hash: Digest, trail: seq<StoredRecord>)
    returns (after: Store, cut: AuditCut)
    requires SoundTrail(w, trail) && store.CutSeq() < k < |trail| && store.rows == trail[store.CutSeq()..]
    requires hash == w.hash(trail[k - 1].payload)
    ensures StoreCut(store, k, hash) == Ok(after) && StoreOf(w, after, trail)
    ensures after.cuts == store.cuts + [cut] && cut.seqNo == after.CutSeq() == k
  {
    var kept := RowsAtCut(w, store.rows, trail, store.CutSeq(), k);
    StoreCutOutcome(store, k, hash, kept);
    cut := AuditCut(k, hash, |store.rows| - |kept|);
    after := Store(kept, store.cuts + [cut]);
    CutStoreHolds(w, store.cuts, trail, k, cut, kept);
  }

  lemma PlanFacts(w: Wire, store: Store, plan: Plan, trail: seq<StoredRecord>)
    requires CanBeCut(w, plan, store.CutSeq(), store.rows, trail)
    ensures SoundTrail(w, trail) && store.CutSeq() < plan.prefix.headSeq < |trail|
    ensures store.rows == trail[store.CutSeq()..]
    ensures plan.prefix.headHash == w.hash(trail[plan.prefix.headSeq - 1].payload)
  {
  }

  lemma StoreAfterPlan(w: Wire, store: Store, plan: Plan, trail: seq<StoredRecord>) returns (after: Store, cut: AuditCut)
    requires CanBeCut(w, plan, store.CutSeq(), store.rows, trail)
    ensures StoreCut(store, plan.prefix.headSeq, plan.prefix.headHash) == Ok(after) && StoreOf(w, after, trail)
    ensures after.cuts == store.cuts + [cut] && cut.seqNo == after.CutSeq() == plan.prefix.headSeq
  {
    PlanFacts(w, store, plan, trail);
    after, cut := StoreAfterCut(w, store, plan.prefix.headSeq, plan.prefix.headHash, trail);
  }

  lemma AnchoredFacts(w: Wire, json: Json, world: World)
    requires Good(w, json, world) && world.cutter.Anchored?
    ensures CanBeCut(w, world.cutter.plan, world.store.CutSeq(), world.store.rows, world.trail)
    ensures Sane(w, json, world.store, world.anchors, world.trail) && CutterHolds(w, json, world)
    ensures PendingHonest(w, world.pending, world.trail)
    ensures HasAnchor(json, world.anchors) && NewestReaches(json, world.anchors, world.cutter.plan.prefix.headSeq)
  {
  }

  lemma StoreAfterAnchored(w: Wire, json: Json, world: World) returns (after: Store, cut: AuditCut)
    requires world.cutter.Anchored? && Sane(w, json, world.store, world.anchors, world.trail)
    requires CanBeCut(w, world.cutter.plan, world.store.CutSeq(), world.store.rows, world.trail)
    requires HasAnchor(json, world.anchors) && NewestReaches(json, world.anchors, world.cutter.plan.prefix.headSeq)
    ensures StoreCut(world.store, world.cutter.plan.prefix.headSeq, world.cutter.plan.prefix.headHash) == Ok(after)
    ensures StoreOf(w, after, world.trail) && after.cuts == world.store.cuts + [cut]
    ensures cut.seqNo == world.cutter.plan.prefix.headSeq
    ensures Sane(w, json, after, world.anchors, world.trail)
  {
    after, cut := StoreAfterPlan(w, world.store, world.cutter.plan, world.trail);
    CutKeepsSane(w, json, world.store, after, world.anchors, world.trail);
  }

  lemma DeletedIsGood(w: Wire, json: Json, world: World) returns (after: Store, cut: AuditCut)
    requires world.cutter.Anchored? && Sane(w, json, world.store, world.anchors, world.trail)
    requires CutterHolds(w, json, world) && PendingHonest(w, world.pending, world.trail)
    requires CanBeCut(w, world.cutter.plan, world.store.CutSeq(), world.store.rows, world.trail)
    requires HasAnchor(json, world.anchors) && NewestReaches(json, world.anchors, world.cutter.plan.prefix.headSeq)
    ensures StoreCut(world.store, world.cutter.plan.prefix.headSeq, world.cutter.plan.prefix.headHash) == Ok(after)
    ensures after.cuts != [] && cut == after.cuts[|after.cuts| - 1]
    ensures Good(w, json, world.(store := after, cutter := Removed(cut, world.cutter.plan)))
  {
    after, cut := StoreAfterAnchored(w, json, world);
    RemovedPlanHolds(w, json, world, after, cut);
  }

  lemma DeleteKeepsGood(w: Wire, json: Json, world: World)
    requires Good(w, json, world)
    ensures Good(w, json, Step(w, json, world, Delete))
    ensures world.cutter.Anchored? ==> Step(w, json, world, Delete).cutter.Removed?
  {
    if world.cutter.Anchored? {
      AnchoredFacts(w, json, world);
      var store, cut := DeletedIsGood(w, json, world);
      var next := world.(store := store, cutter := Removed(cut, world.cutter.plan));
      assert Step(w, json, world, Delete) == next by {
        DeleteOutcome(w, json, world, store);
      }
    }
  }

  lemma WriteHeadOutcome(w: Wire, json: Json, world: World, nowMillis: int, v: Verified)
    requires world.cutter.Removed?
    requires VerifyFrom(w, AfterCut(world.cutter.at.seqNo, world.cutter.at.hash), world.cutter.plan.remainder) == Ok(v)
    ensures Step(w, json, world, WriteHead(nowMillis)) ==
            world.(anchors := Appended(json, world.anchors, Over(v, nowMillis)), cutter := Idle)
  {
  }

  lemma RemainderIsStretch(w: Wire, at: AuditCut, remainder: seq<StoredRecord>, trail: seq<StoredRecord>)
    returns (n: nat)
    requires RemainderHolds(w, at, remainder, trail)
    ensures at.seqNo < n <= |trail| && remainder == trail[at.seqNo..n]
    ensures AfterCut(at.seqNo, at.hash) == StartAt(w, trail, at.seqNo)
  {
    n := at.seqNo + |remainder|;
  }

  lemma RemainderVerifiesAlone(w: Wire, at: AuditCut, remainder: seq<StoredRecord>, trail: seq<StoredRecord>)
    returns (v: Verified)
    requires SoundTrail(w, trail) && RemainderHolds(w, at, remainder, trail)
    ensures VerifyFrom(w, AfterCut(at.seqNo, at.hash), remainder) == Ok(v)
    ensures at.seqNo < v.headSeq <= |trail| && v.headHash == w.hash(trail[v.headSeq - 1].payload)
  {
    var n := RemainderIsStretch(w, at, remainder, trail);
    v := StretchVerifies(w, AfterCut(at.seqNo, at.hash), remainder, trail, at.seqNo, n);
  }

  lemma StretchVerifies(w: Wire, start: Start, run: seq<StoredRecord>, trail: seq<StoredRecord>, c: nat, k: nat)
    returns (v: Verified)
    requires SoundTrail(w, trail) && c < k <= |trail| && run == trail[c..k] && start == StartAt(w, trail, c)
    ensures VerifyFrom(w, start, run) == Ok(v) && v == Verified(k - c, k, w.hash(trail[k - 1].payload))
  {
    PrefixVerifies(w, trail, c, k);
    v := Verified(k - c, k, w.hash(trail[k - 1].payload));
  }

  /** The records that survived the cut are still what follows it, and their head can be anchored. */
  lemma RemainderIsAnchored(w: Wire, at: AuditCut, remainder: seq<StoredRecord>, trail: seq<StoredRecord>, nowMillis: int)
    returns (v: Verified)
    requires SoundTrail(w, trail) && RemainderHolds(w, at, remainder, trail)
    ensures VerifyFrom(w, AfterCut(at.seqNo, at.hash), remainder) == Ok(v)
    ensures AnchorsPrefix(w, Over(v, nowMillis), trail, v.headSeq) && v.headSeq > at.seqNo
  {
    v := RemainderVerifiesAlone(w, at, remainder, trail);
    PointIsAnchored(w, trail, v.headSeq, v, nowMillis);
  }

  lemma WriteHeadKeepsGood(w: Wire, json: Json, world: World, nowMillis: int)
    requires json.Lawful() && Good(w, json, world)
    ensures Good(w, json, Step(w, json, world, WriteHead(nowMillis)))
  {
    if world.cutter.Removed? {
      var v := RemainderIsAnchored(w, world.cutter.at, world.cutter.plan.remainder, world.trail, nowMillis);
      WriteHeadOutcome(w, json, world, nowMillis, v);
      HonestAnchorKeepsSane(w, json, world.store, world.anchors, world.trail, Over(v, nowMillis));
    }
  }

  /** The command line refuses to keep nothing, and a late append is timely. */
  predicate Admissible(world: World, e: Event) {
    && (e.Begin? ==> e.keep > 0)
    && (e.Publish? && e.anchor in world.pending ==> Timely(world, e.anchor))
  }

  ghost predicate AllAdmissible(w: Wire, json: Json, world: World, events: seq<Event>)
    decreases |events|
  {
    events == [] ||
    (Admissible(world, events[0]) && AllAdmissible(w, json, Step(w, json, world, events[0]), events[1..]))
  }

  lemma StepKeepsGood(w: Wire, json: Json, world: World, e: Event)
    requires json.Lawful() && Good(w, json, world) && Admissible(world, e)
    ensures Good(w, json, Step(w, json, world, e))
  {
    match e
    case Append(record) =>
      if Continues(w, world.trail, record) {
        AppendKeepsGood(w, json, world, record);
      }
    case Read(nowMillis) => ReadKeepsGood(w, json, world, nowMillis);
    case Publish(anchor) => PublishKeepsGood(w, json, world, anchor);
    case Begin(keep, archive) => BeginKeepsGood(w, json, world, keep, archive);
    case WriteAnchor(nowMillis) => WriteAnchorKeepsGood(w, json, world, nowMillis);
    case Delete => DeleteKeepsGood(w, json, world);
    case WriteHead(nowMillis) => WriteHeadKeepsGood(w, json, world, nowMillis);
    case Stop =>
  }

  // ----- what a reader of any intermediate state finds

  /** Every reachable state, also one a crash leaves behind, is good. */
  lemma {:induction false} RunsStayGood(w: Wire, json: Json, world: World, events: seq<Event>)
    requires json.Lawful() && Good(w, json, world) && AllAdmissible(w, json, world, events)
    ensures Good(w, json, Run(w, json, world, events))
    decreases |events|
  {
    if events != [] {
      StepKeepsGood(w, json, world, events[0]);
      RunsStayGood(w, json, Step(w, json, world, events[0]), events[1..]);
    }
  }

  lemma NoAnchors(w: Wire, json: Json)
    ensures HonestAnchors(w, json, "", []) && Latest(json, "") == Ok(None)
  {
    assert Text.Lines("") == [];
  }

  lemma NoRecords(w: Wire)
    ensures SoundTrail(w, []) && StoreOf(w, Store([], []), []) && PendingHonest(w, multiset{}, [])
  {
  }

  lemma FreshStoreIsGood(w: Wire, json: Json)
    ensures Good(w, json, FreshWorld())
  {
    NoAnchors(w, json);
    NoRecords(w);
    assert Sane(w, json, Store([], []), "", []);
  }

  lemma {:induction false} AnchorAtIsHonest(w: Wire, json: Json, lines: seq<string>, seqNo: nat, trail: seq<StoredRecord>)
    requires forall line :: line in lines && Parse(json, line).Ok? ==>
               AnchorsPrefix(w, Parse(json, line).value, trail, Parse(json, line).value.seqNo)
    requires AnchorAt(json, lines, seqNo).Some?
    ensures AnchorAt(json, lines, seqNo).value.seqNo == seqNo
    ensures AnchorsPrefix(w, AnchorAt(json, lines, seqNo).value, trail, seqNo)
  {
    assert lines[0] in lines;
    if Parse(json, lines[0]).Err? || Parse(json, lines[0]).value.seqNo != seqNo {
      AnchorAtIsHonest(w, json, lines[1..], seqNo, trail);
    }
  }

  lemma AnchorAtCutVerifies(
    w: Wire, json: Json, store: Store, anchors: string, trail: seq<StoredRecord>, anchor: Anchor)
    requires Sane(w, json, store, anchors, trail) && store.cuts != []
    requires AnchorAt(json, Text.Lines(anchors), store.CutSeq()) == Some(anchor)
    ensures VerifyWithAnchor(w, anchor, store.StartPoint(), store.rows).Ok?
  {
    var c := store.CutSeq();
    TrailVerifies(w, trail);
    AnchorAtIsHonest(w, json, Text.Lines(anchors), c, trail);
    HonestGrowthIsAcceptedIff(w, trail, c, anchor, c);
  }

  lemma VerifyOutcome(w: Wire, json: Json, store: Store, anchors: string, v: Verified)
    requires Latest(json, anchors).Ok?
    requires var newest := Latest(json, anchors).value;
             newest.Some? ==> VerifyWithAnchor(w, newest.value, store.StartPoint(), store.rows) == Ok(v)
    requires var atCut := AnchorAt(json, Text.Lines(anchors), store.CutSeq());
             store.cuts != [] && atCut.Some? ==>
               VerifyWithAnchor(w, atCut.value, store.StartPoint(), store.rows).Ok?
    ensures VerifyChain(w, json, store, anchors) == if HasAnchor(json, anchors) then Ok(v) else Err(NoAnchor)
  {
  }

  /** A sane store verifies, against the newest anchor and the one at the cut, as soon as there is one. */
  lemma SaneStateVerifies(w: Wire, json: Json, store: Store, anchors: string, trail: seq<StoredRecord>)
    requires Sane(w, json, store, anchors, trail)
    ensures VerifyChain(w, json, store, anchors) ==
            if HasAnchor(json, anchors)
            then Ok(Verified(|store.rows|, |trail|, HeadHash(w, trail, GENESIS)))
            else Err(NoAnchor)
  {
    SaneTrailVerifies(w, json, store, anchors, trail);
    var atCut := AnchorAt(json, Text.Lines(anchors), store.CutSeq());
    if store.cuts != [] && atCut.Some? {
      AnchorAtCutVerifies(w, json, store, anchors, trail, atCut.value);
    }
    VerifyOutcome(w, json, store, anchors, Verified(|store.rows|, |trail|, HeadHash(w, trail, GENESIS)));
  }

  lemma GoodStateVerifies(w: Wire, json: Json, world: World)
    requires Good(w, json, world)
    ensures VerifyChain(w, json, world.store, world.anchors) ==
            if HasAnchor(json, world.anchors)
            then Ok(Verified(|world.store.rows|, |world.trail|, HeadHash(w, world.trail, GENESIS)))
            else Err(NoAnchor)
  {
    SaneStateVerifies(w, json, world.store, world.anchors, world.trail);
  }

  lemma PlannedAnchorIsNewest(w: Wire, json: Json, world: World, nowMillis: int)
    requires json.Lawful() && Good(w, json, world) && world.cutter.Planned?
    ensures Text.EndsLine(world.anchors) && Over(world.cutter.plan.prefix, nowMillis).seqNo > 0
    ensures Latest(json, Appended(json, world.anchors, Over(world.cutter.plan.prefix, nowMillis))) ==
            Ok(Some(Over(world.cutter.plan.prefix, nowMillis)))
  {
    LatestAfterAppend(json, world.anchors, Over(world.cutter.plan.prefix, nowMillis));
  }

  lemma AnchoredStateVerifies(w: Wire, json: Json, world: World, nowMillis: int)
    requires json.Lawful() && Good(w, json, world) && world.cutter.Planned?
    ensures VerifyChain(w, json, world.store, Appended(json, world.anchors, Over(world.cutter.plan.prefix, nowMillis))).Ok?
  {
    WriteAnchorKeepsGood(w, json, world, nowMillis);
    PlannedAnchorIsNewest(w, json, world, nowMillis);
    WriteAnchorOutcome(w, json, world, nowMillis);
    GoodStateVerifies(w, json, Step(w, json, world, WriteAnchor(nowMillis)));
  }

  /** In a good state, a crash inside the append of the planned anchor leaves what a check accepts exactly in these cases. */
  lemma TornAnchorVerifiesIff(w: Wire, json: Json, world: World, nowMillis: int, kept: nat)
    requires json.Lawful() && json.NoPrefixParses() && Good(w, json, world) && world.cutter.Planned?
    requires kept <= |Encode(json, Over(world.cutter.plan.prefix, nowMillis))|
    ensures var anchor := Over(world.cutter.plan.prefix, nowMillis);
            VerifyChain(w, json, world.store, world.anchors + Torn(json, anchor, kept)).Ok? <==>
            (kept == 0 && HasAnchor(json, world.anchors)) || kept == |Encode(json, anchor)|
  {
    var anchor := Over(world.cutter.plan.prefix, nowMillis);
    PlannedAnchorIsNewest(w, json, world, nowMillis);
    TornAnchorAnswers(w, json, world.store, world.anchors, anchor, kept);
    GoodStateVerifies(w, json, world);
    AnchoredStateVerifies(w, json, world, nowMillis);
    LineIsNotEmpty(json, anchor);
  }

  /**
   * In every state of every run, `ciphr audit verify --anchor` succeeds as soon as there is an
   * anchor, against the newest one and against the one at the cut; a cut never lacks one; and what
   * was removed together with what is kept is the original history.
   */
  lemma EveryStateVerifies(w: Wire, json: Json, events: seq<Event>)
    requires json.Lawful() && AllAdmissible(w, json, FreshWorld(), events)
    ensures var world := Run(w, json, FreshWorld(), events);
            var c := world.store.CutSeq();
            && c <= |world.trail| && world.trail[..c] + world.store.rows == world.trail
            && (world.store.cuts != [] ==> HasAnchor(json, world.anchors))
            && VerifyChain(w, json, world.store, world.anchors) ==
               (if HasAnchor(json, world.anchors)
                then Ok(Verified(|world.store.rows|, |world.trail|, HeadHash(w, world.trail, GENESIS)))
                else Err(NoAnchor))
  {
    FreshStoreIsGood(w, json);
    RunsStayGood(w, json, FreshWorld(), events);
    GoodStateVerifies(w, json, Run(w, json, FreshWorld(), events));
  }

  lemma LastRow(w: Wire, trail: seq<StoredRecord>, c: nat)
    requires SoundTrail(w, trail) && c < |trail|
    ensures var last := trail[c..][|trail| - c - 1];
            last.seqNo == |trail| && last.hash == Some(w.hash(trail[|trail| - 1].payload))
  {
    TrailSeqNo(w, trail, |trail| - 1);
  }

  lemma StoreContinues(w: Wire, store: Store, trail: seq<StoredRecord>)
    requires SoundTrail(w, trail) && StoreOf(w, store, trail)
    ensures ChainToContinue(store) ==
            Ok(if trail == [] then START else ResumedAt(|trail|, w.hash(trail[|trail| - 1].payload)))
  {
    if store.rows != [] {
      LastRow(w, trail, store.CutSeq());
    }
  }

  /** A restart in a good state continues the history where it ends, however much of it was cut. */
  lemma GoodStoreContinues(w: Wire, json: Json, world: World)
    requires Good(w, json, world)
    ensures ChainToContinue(world.store) ==
            Ok(if world.trail == [] then START
               else ResumedAt(|world.trail|, w.hash(world.trail[|world.trail| - 1].payload)))
  {
    StoreContinues(w, world.store, world.trail);
  }

  // ----- cuts compose

  lemma {:induction false} RowsAboveTwice(rows: seq<StoredRecord>, j: nat, k: nat)
    requires j <= k
    ensures RowsAbove(RowsAbove(rows, j), k) == RowsAbove(rows, k)
  {
    if rows != [] {
      RowsAboveTwice(rows[1..], j, k);
      var rest := RowsAbove(rows[1..], j);
      assert ([rows[0]] + rest)[1..] == rest;
      assert [] + rest == rest;
    }
  }

  /** Two cuts leave the records, the start and the total removed that the later one alone leaves. */
  lemma CutsCompose(store: Store, j: nat, hj: Digest, k: nat, hk: Digest)
    requires StoreCut(store, j, hj).Ok? && StoreCut(StoreCut(store, j, hj).value, k, hk).Ok?
    requires StoreCut(store, k, hk).Ok?
    ensures var once, twice := StoreCut(store, k, hk).value, StoreCut(StoreCut(store, j, hj).value, k, hk).value;
            && twice.rows == once.rows && twice.StartPoint() == once.StartPoint()
            && twice.cuts[|twice.cuts| - 2].removed + twice.cuts[|twice.cuts| - 1].removed
               == once.cuts[|once.cuts| - 1].removed
  {
    RowsAboveTwice(store.rows, j, k);
  }
}
