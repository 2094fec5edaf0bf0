/**
 * What becomes of the removed records over a whole run: a cut that was made against an archive
 * leaves each of them there (crates/ciphr-cli/src/main.rs, `require_archived`).
 */
module Evidence {
  import opened Basics
  import opened Chain
  import opened Verify
  import opened Anchor
  import opened Cut
  import opened CutRuns
  import Archive

  /** The files that a cut was checked against, if it was. */
  function FilesOf(e: Event): seq<string> {
    if e.Begin? && e.archive.Some? then e.archive.value else []
  }

  /** The files that all cuts of a run were checked against. */
  function ArchivesRead(events: seq<Event>): seq<string> {
    if events == [] then [] else FilesOf(events[0]) + ArchivesRead(events[1..])
  }

  /** Up to where records are removed, or are about to be. */
  function Decided(world: World): nat {
    match world.cutter
    case Planned(plan) => plan.prefix.headSeq
    case Anchored(plan) => plan.prefix.headSeq
    case _ => world.store.CutSeq()
  }

  /** The payload of each of the first `n` records has its hash among the lines of these files. */
  ghost predicate FoundIn(w: Wire, files: seq<string>, trail: seq<StoredRecord>, n: nat) {
    n <= |trail| && forall i :: 0 <= i < n ==> Archive.InFiles(w, files, w.hash(trail[i].payload))
  }

  lemma MoreFilesFindMore(w: Wire, files: seq<string>, more: seq<string>, h: Digest)
    requires Archive.InFiles(w, files, h) || Archive.InFiles(w, more, h)
    ensures Archive.InFiles(w, files + more, h)
  {
    assert forall f :: f in files || f in more ==> f in files + more;
  }

  /** A covered cut finds each record that it removes in the files it was given. */
  lemma CoveredIsFound(
    w: Wire, rows: seq<StoredRecord>, keep: nat, files: seq<string>, trail: seq<StoredRecord>, c: nat, i: nat)
    requires c <= i && i + keep < |trail| && rows == trail[c..] && Covered(w, rows, keep, Some(files))
    ensures Archive.InFiles(w, files, w.hash(trail[i].payload))
  {
    var removing := rows[..|rows| - keep];
    assert removing[i - c] == trail[i];
    Archive.AskedHas(w, removing, i - c);
  }

  /** A plan decides on nothing that the files do not hold. */
  lemma PlanIsFound(
    w: Wire, json: Json, world: World, keep: nat, files: seq<string>, seen: seq<string>, plan: Plan)
    requires Good(w, json, world) && FoundIn(w, seen, world.trail, world.store.CutSeq())
    requires PlanCut(w, json, world.store, world.anchors, keep, Covered(w, world.store.rows, keep, Some(files)))
             == Ok(Some(plan))
    ensures FoundIn(w, seen + files, world.trail, plan.prefix.headSeq)
  {
    var c, trail, rows := world.store.CutSeq(), world.trail, world.store.rows;
    PlanOfGood(w, json, world, keep, Covered(w, rows, keep, Some(files)));
    forall i | 0 <= i < plan.prefix.headSeq ensures Archive.InFiles(w, seen + files, w.hash(trail[i].payload)) {
      if c <= i {
        CoveredIsFound(w, rows, keep, files, trail, c, i);
      }
      MoreFilesFindMore(w, seen, files, w.hash(trail[i].payload));
    }
  }

  /** Between two steps nothing is decided on unless it is a cut that begins. */
  lemma OthersDecideNothing(w: Wire, json: Json, world: World, e: Event)
    requires Good(w, json, world) && !e.Begin?
    ensures Decided(Step(w, json, world, e)) <= Decided(world)
    ensures world.trail <= Step(w, json, world, e).trail
  {
    if e.Delete? && world.cutter.Anchored? {
      DeleteDecidesNothing(w, json, world);
    } else {
      CutIsDecided(w, json, world);
      StepWithoutCutDecidesNothing(w, json, world, e);
    }
  }

  lemma DeleteDecidesNothing(w: Wire, json: Json, world: World)
    requires Good(w, json, world) && world.cutter.Anchored?
    ensures Decided(Step(w, json, world, Delete)) == Decided(world)
    ensures Step(w, json, world, Delete).trail == world.trail
  {
    AnchoredFacts(w, json, world);
    var store, cut := StoreAfterPlan(w, world.store, world.cutter.plan, world.trail);
    DeleteOutcome(w, json, world, store);
  }

  lemma StepWithoutCutDecidesNothing(w: Wire, json: Json, world: World, e: Event)
    requires world.store.CutSeq() <= Decided(world) && !e.Begin? && (e.Delete? ==> !world.cutter.Anchored?)
    ensures Decided(Step(w, json, world, e)) <= Decided(world)
    ensures world.trail <= Step(w, json, world, e).trail
  {
  }

  lemma CutIsDecided(w: Wire, json: Json, world: World)
    requires Good(w, json, world)
    ensures world.store.CutSeq() <= Decided(world) <= |world.trail|
  {
  }

  lemma BeginIsFound(
    w: Wire, json: Json, world: World, keep: nat, files: seq<string>, seen: seq<string>)
    requires Good(w, json, world) && FoundIn(w, seen, world.trail, Decided(world))
    ensures var next := Step(w, json, world, Begin(keep, Some(files)));
            FoundIn(w, seen + files, next.trail, Decided(next))
  {
    var r := PlanCut(w, json, world.store, world.anchors, keep, Covered(w, world.store.rows, keep, Some(files)));
    BeginOutcome(w, json, world, keep, Some(files), r);
    if world.cutter.Idle? && r.Ok? && r.value.Some? {
      PlanIsFound(w, json, world, keep, files, seen, r.value.value);
    } else {
      StillFound(w, seen, files, world.trail, Decided(world), world.trail, Decided(world));
    }
  }

  lemma StillFound(
    w: Wire, seen: seq<string>, files: seq<string>,
    trail: seq<StoredRecord>, n: nat, grown: seq<StoredRecord>, m: nat)
    requires FoundIn(w, seen, trail, n) && m <= n && trail <= grown
    ensures FoundIn(w, seen + files, grown, m)
  {
    forall i | 0 <= i < m ensures Archive.InFiles(w, seen + files, w.hash(grown[i].payload)) {
      assert grown[i] == trail[i];
      MoreFilesFindMore(w, seen, files, w.hash(trail[i].payload));
    }
  }

  lemma StepKeepsFound(w: Wire, json: Json, world: World, e: Event, seen: seq<string>)
    requires Good(w, json, world) && FoundIn(w, seen, world.trail, Decided(world))
    requires e.Begin? ==> e.archive.Some?
    ensures var next := Step(w, json, world, e);
            FoundIn(w, seen + FilesOf(e), next.trail, Decided(next))
  {
    if e.Begin? {
      BeginIsFound(w, json, world, e.keep, e.archive.value, seen);
    } else {
      OthersDecideNothing(w, json, world, e);
      var next := Step(w, json, world, e);
      StillFound(w, seen, FilesOf(e), world.trail, Decided(world), next.trail, Decided(next));
    }
  }

  lemma {:induction false} RunsKeepFound(w: Wire, json: Json, world: World, events: seq<Event>, seen: seq<string>)
    requires json.Lawful() && Good(w, json, world) && FoundIn(w, seen, world.trail, Decided(world))
    requires AllAdmissible(w, json, world, events)
    requires forall e :: e in events && e.Begin? ==> e.archive.Some?
    ensures var last := Run(w, json, world, events);
            FoundIn(w, seen + ArchivesRead(events), last.trail, Decided(last))
    decreases |events|
  {
    if events == [] {
      assert seen + [] == seen;
    } else {
      var e, next := events[0], Step(w, json, world, events[0]);
      StepKeepsGood(w, json, world, e);
      StepKeepsFound(w, json, world, e, seen);
      RunsKeepFound(w, json, next, events[1..], seen + FilesOf(e));
      Regroup(seen, FilesOf(e), ArchivesRead(events[1..]));
    }
  }

  /**
   * If every cut of a run is made against an archive, then each record that is no longer in the
   * table has a line with its payload's hash in a file that one of the cuts read.
   */
  lemma RemovedIsArchived(w: Wire, json: Json, events: seq<Event>)
    requires json.Lawful() && AllAdmissible(w, json, FreshWorld(), events)
    requires forall e :: e in events && e.Begin? ==> e.archive.Some?
    ensures var world := Run(w, json, FreshWorld(), events);
            && world.store.CutSeq() <= |world.trail|
            && forall i :: 0 <= i < world.store.CutSeq() ==>
                 Archive.InFiles(w, ArchivesRead(events), w.hash(world.trail[i].payload))
  {
    FreshStoreIsGood(w, json);
    RunsKeepFound(w, json, FreshWorld(), events, []);
    RunsStayGood(w, json, FreshWorld(), events);
    CutIsDecided(w, json, Run(w, json, FreshWorld(), events));
    assert [] + ArchivesRead(events) == ArchivesRead(events);
  }
}
