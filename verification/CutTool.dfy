/** `ciphr audit cut` as the program runs it (crates/ciphr-cli/src/main.rs, `cut_trail`). */
module CutTool {
  import opened Basics
  import opened Chain
  import opened Verify
  import opened Anchor
  import opened Cut
  import opened CutRuns
  import Archive

  /** How a run of the command ended; `Crashed` after the step the environment chose. */
  datatype Ending = NothingToRemove | WouldRemove | Done | Failed(failure: Failure) | Crashed

  /** Records the service appends, each continuing the history. */
  ghost predicate AllContinue(w: Wire, trail: seq<StoredRecord>, records: seq<StoredRecord>)
    decreases |records|
  {
    records == [] || (Continues(w, trail, records[0]) && AllContinue(w, trail + [records[0]], records[1..]))
  }

  function Appends(records: seq<StoredRecord>): (events: seq<Event>)
    ensures |events| == |records| && forall i :: 0 <= i < |records| ==> events[i] == Append(records[i])
  {
    seq(|records|, i requires 0 <= i < |records| => Append(records[i]))
  }

  lemma {:induction false} RunConcat(w: Wire, json: Json, world: World, a: seq<Event>, b: seq<Event>)
    ensures Run(w, json, world, a + b) == Run(w, json, Run(w, json, world, a), b)
    decreases |a|
  {
    if a == [] {
      assert a + b == b;
    } else {
      assert (a + b)[0] == a[0] && (a + b)[1..] == a[1..] + b;
      RunConcat(w, json, Step(w, json, world, a[0]), a[1..], b);
    }
  }

  lemma RunOne(w: Wire, json: Json, world: World, e: Event)
    ensures Run(w, json, world, [e]) == Step(w, json, world, e)
  {
    assert Run(w, json, Step(w, json, world, e), []) == Step(w, json, world, e);
  }

  class Deployment {
    var store: Store
    var anchors: string
    ghost var cutter: Phase
    ghost var pending: multiset<Anchor>
    ghost var trail: seq<StoredRecord>

    ghost function View(): World
      reads this
    {
      World(store, anchors, cutter, pending, trail)
    }

    /** Whether every record to be removed was found in the archive, by hash. */
    method RequireArchived(w: Wire, keep: nat, archive: Option<seq<string>>) returns (covered: bool)
      ensures covered <==> Covered(w, store.rows, keep, archive)
    {
      if archive.None? || |store.rows| <= keep {
        return true;
      }
      var coverage := Archive.CoverageOf(w, archive.value, store.rows[..|store.rows| - keep]);
      return coverage.missing == [];
    }

    /** The service appends one record. */
    method ArriveOne(w: Wire, json: Json, record: StoredRecord)
      requires Continues(w, trail, record)
      modifies this
      ensures View() == Step(w, json, old(View()), Append(record))
      ensures store == old(store).(rows := old(store).rows + [record]) && trail == old(trail) + [record]
      ensures anchors == old(anchors) && cutter == old(cutter)
    {
      store := store.(rows := store.rows + [record]);
      trail := trail + [record];
    }

    /** The service appends while the command is between two of its steps. */
    method Arrive(w: Wire, json: Json, records: seq<StoredRecord>)
      requires AllContinue(w, trail, records)
      modifies this
      ensures View() == Run(w, json, old(View()), Appends(records))
      ensures store.rows == old(store.rows) + records && trail == old(trail) + records
      ensures store.cuts == old(store.cuts) && anchors == old(anchors) && cutter == old(cutter)
    {
      ghost var rows, before := store.rows, trail;
      for i := 0 to |records|
        invariant AllContinue(w, trail, records[i..])
        invariant View() == Run(w, json, old(View()), Appends(records[..i]))
        invariant store == old(store).(rows := rows + records[..i]) && trail == before + records[..i]
        invariant anchors == old(anchors) && cutter == old(cutter)
      {
        assert records[i..][0] == records[i] && records[i..][1..] == records[i + 1..];
        ArriveOne(w, json, records[i]);
        AppendsGrow(w, json, old(View()), records, i);
        assert records[..i + 1] == records[..i] + [records[i]];
        Regroup(rows, records[..i], [records[i]]);
        Regroup(before, records[..i], [records[i]]);
      }
      assert records[..|records|] == records;
    }

    method WriteAnchorLine(w: Wire, json: Json, plan: Plan, nowMillis: int)
      requires cutter == Planned(plan)
      modifies this
      ensures View() == Step(w, json, old(View()), WriteAnchor(nowMillis))
      ensures cutter == Anchored(plan) && store == old(store) && trail == old(trail)
      ensures anchors == Appended(json, old(anchors), Over(plan.prefix, nowMillis))
    {
      anchors := Appended(json, anchors, Over(plan.prefix, nowMillis));
      cutter := Anchored(plan);
    }

    method DeleteRows(w: Wire, json: Json, plan: Plan) returns (r: Result<AuditCut, Refusal>)
      requires cutter == Anchored(plan)
      modifies this
      ensures View() == Step(w, json, old(View()), Delete)
      ensures anchors == old(anchors) && trail == old(trail)
      ensures var after := StoreCut(old(store), plan.prefix.headSeq, plan.prefix.headHash);
              match r
              case Ok(cut) => after == Ok(store) && store.cuts == old(store.cuts) + [cut] && cutter == Removed(cut, plan)
              case Err(why) => after == Err(why) && store == old(store) && cutter == Idle
    {
      var after := StoreCut(store, plan.prefix.headSeq, plan.prefix.headHash);
      if after.Err? {
        cutter := Idle;
        return Err(after.error);
      }
      store := after.value;
      cutter := Removed(store.cuts[|store.cuts| - 1], plan);
      return Ok(store.cuts[|store.cuts| - 1]);
    }

    method WriteHeadLine(
        w: Wire, json: Json, cut: AuditCut, plan: Plan, nowMillis: int) returns (r: Result<Verified, ChainBreak>)
      requires cutter == Removed(cut, plan)
      modifies this
      ensures View() == Step(w, json, old(View()), WriteHead(nowMillis))
      ensures store == old(store) && trail == old(trail) && cutter == Idle
      ensures r == VerifyFrom(w, AfterCut(cut.seqNo, cut.hash), plan.remainder)
      ensures r.Ok? ==> anchors == Appended(json, old(anchors), Over(r.value, nowMillis))
    {
      r := VerifyFrom(w, AfterCut(cut.seqNo, cut.hash), plan.remainder);
      if r.Ok? {
        anchors := Appended(json, anchors, Over(r.value, nowMillis));
      }
      cutter := Idle;
    }

    /**
     * The whole command, with the service appending `a`, `b` and `c` between its steps and a crash
     * after step `crash`: which steps it takes, how it ends, and that its effect is theirs.
     */
    method CutTrail(w: Wire, json: Json, keep: nat, archive: Option<seq<string>>, dryRun: bool, nowMillis: int,
                    a: seq<StoredRecord>, b: seq<StoredRecord>, c: seq<StoredRecord>, crash: nat)
      returns (ending: Ending, ghost events: seq<Event>)
      requires keep > 0 && cutter == Idle
      requires AllContinue(w, trail, a) && AllContinue(w, trail + a, b) && AllContinue(w, trail + a + b, c)
      modifies this
      ensures View() == Run(w, json, old(View()), events) && cutter == Idle
      ensures var covered := Covered(w, old(store).rows, keep, archive);
              match PlanCut(w, json, old(store), old(anchors), keep, covered)
              case Err(e) => ending == Failed(e) && events == []
              case Ok(None) => ending == NothingToRemove && events == []
              case Ok(Some(plan)) =>
                if dryRun then ending == WouldRemove && events == []
                else
                  var cut := CutOf(old(store).rows + a + b, old(store).cuts, plan);
                  && events == [Begin(keep, archive)] + Appends(a) + FinishEvents(cut.Err?, nowMillis, b, c, crash)
                  && ending == EndingOf(w, plan, cut, crash)
    {
      var covered := RequireArchived(w, keep, archive);
      var planned := PlanCut(w, json, store, anchors, keep, covered);
      events := [];
      if planned.Err? {
        return Failed(planned.error), events;
      }
      if planned.value.None? {
        return NothingToRemove, events;
      }
      var plan := planned.value.value;
      if dryRun {
        return WouldRemove, events;
      }
      ghost var start := View();
      BeginOutcome(w, json, start, keep, archive, planned);
      StartCut(w, json, keep, archive, plan);
      events := [Begin(keep, archive)];
      Arrive(w, json, a);
      RunConcat(w, json, start, events, Appends(a));
      events := events + Appends(a);
      ghost var rest;
      ending, rest := FinishCut(w, json, plan, nowMillis, b, c, crash);
      RunConcat(w, json, start, events, rest);
      events := events + rest;
    }

    /** The plan is made; nothing has changed yet. */
    ghost method StartCut(w: Wire, json: Json, keep: nat, archive: Option<seq<string>>, plan: Plan)
      requires Step(w, json, View(), Begin(keep, archive)) == View().(cutter := Planned(plan))
      modifies this`cutter
      ensures View() == Run(w, json, old(View()), [Begin(keep, archive)]) && cutter == Planned(plan)
    {
      RunOne(w, json, View(), Begin(keep, archive));
      cutter := Planned(plan);
    }

    method FinishCut(w: Wire, json: Json, plan: Plan, nowMillis: int,
                     b: seq<StoredRecord>, c: seq<StoredRecord>, crash: nat)
      returns (ending: Ending, ghost events: seq<Event>)
      requires cutter == Planned(plan) && AllContinue(w, trail, b) && AllContinue(w, trail + b, c)
      modifies this
      ensures View() == Run(w, json, old(View()), events) && cutter == Idle
      ensures var cut := CutOf(old(store).rows + b, old(store).cuts, plan);
              events == FinishEvents(cut.Err?, nowMillis, b, c, crash) && ending == EndingOf(w, plan, cut, crash)
    {
      ghost var start := View();
      if crash == 0 {
        cutter := Idle;
        RunOne(w, json, start, Stop);
        return Crashed, [Stop];
      }
      WriteAnchorLine(w, json, plan, nowMillis);
      events := [WriteAnchor(nowMillis)];
      RunOne(w, json, start, WriteAnchor(nowMillis));
      Arrive(w, json, b);
      RunConcat(w, json, start, events, Appends(b));
      events := events + Appends(b);
      ghost var rest;
      ending, rest := RemoveAndClose(w, json, plan, nowMillis, c, crash);
      RunConcat(w, json, start, events, rest);
      events := events + rest;
    }

    method RemoveAndClose(w: Wire, json: Json, plan: Plan, nowMillis: int, c: seq<StoredRecord>, crash: nat)
      returns (ending: Ending, ghost events: seq<Event>)
      requires cutter == Anchored(plan) && AllContinue(w, trail, c) && crash > 0
      modifies this
      ensures View() == Run(w, json, old(View()), events) && cutter == Idle
      ensures var cut := CutOf(old(store).rows, old(store).cuts, plan);
              events == RemoveEvents(cut.Err?, nowMillis, c, crash) && ending == EndingOf(w, plan, cut, crash)
    {
      ghost var start := View();
      if crash == 1 {
        cutter := Idle;
        RunOne(w, json, start, Stop);
        return Crashed, [Stop];
      }
      var cut := DeleteRows(w, json, plan);
      events := [Delete];
      RunOne(w, json, start, Delete);
      if cut.Err? {
        return Failed(CutRefused(cut.error)), events;
      }
      Arrive(w, json, c);
      RunConcat(w, json, start, events, Appends(c));
      events := events + Appends(c);
      ghost var rest;
      ending, rest := Close(w, json, plan, cut.value, nowMillis, crash);
      RunConcat(w, json, start, events, rest);
      events := events + rest;
    }

    method Close(w: Wire, json: Json, plan: Plan, cut: AuditCut, nowMillis: int, crash: nat)
      returns (ending: Ending, ghost events: seq<Event>)
      requires cutter == Removed(cut, plan) && crash > 1
      modifies this
      ensures View() == Run(w, json, old(View()), events) && cutter == Idle
      ensures events == [if crash == 2 then Stop else WriteHead(nowMillis)] && ending == ClosingOf(w, plan, cut, crash)
    {
      ghost var start := View();
      if crash == 2 {
        cutter := Idle;
        RunOne(w, json, start, Stop);
        return Crashed, [Stop];
      }
      var head := WriteHeadLine(w, json, cut, plan, nowMillis);
      RunOne(w, json, start, WriteHead(nowMillis));
      return if head.Ok? then Done else Failed(Broken(head.error)), [WriteHead(nowMillis)];
    }
  }

  /** What the store answers to the planned cut. */
  function CutOf(rows: seq<StoredRecord>, cuts: seq<AuditCut>, plan: Plan): (r: Result<Store, Refusal>)
    ensures r.Ok? ==> r.value.cuts != []
  {
    StoreCut(Store(rows, cuts), plan.prefix.headSeq, plan.prefix.headHash)
  }

  /** The steps from the deletion on; a refused deletion is the last one. */
  function RemoveEvents(refused: bool, nowMillis: int, c: seq<StoredRecord>, crash: nat): seq<Event> {
    if crash == 1 then [Stop]
    else if refused then [Delete]
    else [Delete] + Appends(c) + [if crash == 2 then Stop else WriteHead(nowMillis)]
  }

  function FinishEvents(
      refused: bool, nowMillis: int, b: seq<StoredRecord>, c: seq<StoredRecord>, crash: nat): seq<Event> {
    if crash == 0 then [Stop] else [WriteAnchor(nowMillis)] + Appends(b) + RemoveEvents(refused, nowMillis, c, crash)
  }

  /** The anchor over what is kept is written only if that verifies from the cut. */
  function ClosingOf(w: Wire, plan: Plan, cut: AuditCut, crash: nat): Ending {
    if crash == 2 then Crashed
    else
      match VerifyFrom(w, AfterCut(cut.seqNo, cut.hash), plan.remainder)
      case Ok(_) => Done
      case Err(e) => Failed(Broken(e))
  }

  function EndingOf(w: Wire, plan: Plan, cut: Result<Store, Refusal>, crash: nat): Ending
    requires cut.Ok? ==> cut.value.cuts != []
  {
    if crash <= 1 then Crashed
    else
      match cut
      case Err(why) => Failed(CutRefused(why))
      case Ok(after) => ClosingOf(w, plan, after.cuts[|after.cuts| - 1], crash)
  }

  lemma {:induction false} NoAppendIsLate(w: Wire, json: Json, world: World, events: seq<Event>)
    requires forall e :: e in events ==> (e.Begin? ==> e.keep > 0) && !e.Publish?
    ensures AllAdmissible(w, json, world, events)
    decreases |events|
  {
    if events != [] {
      assert events[0] in events && forall e :: e in events[1..] ==> e in events;
      NoAppendIsLate(w, json, Step(w, json, world, events[0]), events[1..]);
    }
  }

  lemma ScheduleIsAdmissible(
    w: Wire, json: Json, world: World, keep: nat, archive: Option<seq<string>>, refused: bool, nowMillis: int,
    a: seq<StoredRecord>, b: seq<StoredRecord>, c: seq<StoredRecord>, crash: nat)
    requires keep > 0
    ensures AllAdmissible(w, json, world,
              [Begin(keep, archive)] + Appends(a) + FinishEvents(refused, nowMillis, b, c, crash))
  {
    assert forall e :: e in Appends(a) + Appends(b) + Appends(c) ==> e.Append?;
    assert forall e :: e in RemoveEvents(refused, nowMillis, c, crash) ==> e in Appends(c) || (!e.Begin? && !e.Publish?);
    assert forall e :: e in FinishEvents(refused, nowMillis, b, c, crash) ==>
        e in Appends(b) || e in Appends(c) || (!e.Begin? && !e.Publish?);
    NoAppendIsLate(w, json, world,
                   [Begin(keep, archive)] + Appends(a) + FinishEvents(refused, nowMillis, b, c, crash));
  }

  /** Wherever the command stops and whatever arrives in between, it leaves a good state good. */
  lemma CutTrailKeepsGood(
    w: Wire, json: Json, world: World, keep: nat, archive: Option<seq<string>>, refused: bool, nowMillis: int,
    a: seq<StoredRecord>, b: seq<StoredRecord>, c: seq<StoredRecord>, crash: nat)
    requires json.Lawful() && Good(w, json, world) && keep > 0
    ensures Good(w, json, Run(w, json, world,
              [Begin(keep, archive)] + Appends(a) + FinishEvents(refused, nowMillis, b, c, crash)))
  {
    ScheduleIsAdmissible(w, json, world, keep, archive, refused, nowMillis, a, b, c, crash);
    RunsStayGood(w, json, world, [Begin(keep, archive)] + Appends(a) + FinishEvents(refused, nowMillis, b, c, crash));
  }

  lemma AppendKeepsPlan(
    w: Wire, plan: Plan, c: nat, rows: seq<StoredRecord>, trail: seq<StoredRecord>, record: StoredRecord)
    requires CanBeCut(w, plan, c, rows, trail) && Continues(w, trail, record)
    ensures CanBeCut(w, plan, c, rows + [record], trail + [record])
  {
    ContinuedIsSound(w, trail, record);
    PlanSurvivesGrowth(w, plan, c, trail, record);
    RowsGrow(rows, trail, c, record);
  }

  lemma RowsGrow(rows: seq<StoredRecord>, trail: seq<StoredRecord>, c: nat, record: StoredRecord)
    requires c <= |trail| && rows == trail[c..]
    ensures rows + [record] == (trail + [record])[c..]
  {
  }

  /** Appending leaves a plan as good as it was. */
  lemma {:induction false} GrowthKeepsPlan(
    w: Wire, plan: Plan, c: nat, rows: seq<StoredRecord>, trail: seq<StoredRecord>, records: seq<StoredRecord>)
    requires CanBeCut(w, plan, c, rows, trail) && AllContinue(w, trail, records)
    ensures CanBeCut(w, plan, c, rows + records, trail + records)
    decreases |records|
  {
    if records == [] {
      assert trail + records == trail && rows + records == rows;
    } else {
      AppendKeepsPlan(w, plan, c, rows, trail, records[0]);
      GrowthKeepsPlan(w, plan, c, rows + [records[0]], trail + [records[0]], records[1..]);
      assert records == [records[0]] + records[1..];
      Regroup(trail, [records[0]], records[1..]);
      Regroup(rows, [records[0]], records[1..]);
    }
  }

  lemma EndingOutcome(w: Wire, plan: Plan, after: Store, cut: AuditCut, v: Verified, crash: nat)
    requires after.cuts != [] && after.cuts[|after.cuts| - 1] == cut
    requires VerifyFrom(w, AfterCut(cut.seqNo, cut.hash), plan.remainder) == Ok(v)
    ensures EndingOf(w, plan, Ok(after), crash) == if crash <= 2 then Crashed else Done
  {
  }

  /** What is kept follows the cut that the store records. */
  lemma RemainderFollowsCut(w: Wire, after: Store, cut: AuditCut, plan: Plan, c: nat, trail: seq<StoredRecord>)
    requires PlanHolds(w, plan, c, trail) && StoreOf(w, after, trail)
    requires after.cuts != [] && after.cuts[|after.cuts| - 1] == cut && cut.seqNo == plan.prefix.headSeq
    ensures RemainderHolds(w, cut, plan.remainder, trail)
  {
  }

  lemma PlannedCutCloses(w: Wire, store: Store, plan: Plan, trail: seq<StoredRecord>, crash: nat)
    requires CanBeCut(w, plan, store.CutSeq(), store.rows, trail)
    ensures EndingOf(w, plan, CutOf(store.rows, store.cuts, plan), crash) == if crash <= 2 then Crashed else Done
  {
    var after, cut := StoreAfterPlan(w, store, plan, trail);
    RemainderFollowsCut(w, after, cut, plan, store.CutSeq(), trail);
    var v := RemainderIsAnchored(w, cut, plan.remainder, trail, 0);
    EndingOutcome(w, plan, after, cut, v, crash);
  }

  lemma PlanOfGoodCanBeCut(w: Wire, json: Json, world: World, keep: nat, covered: bool, plan: Plan)
    requires Good(w, json, world) && keep > 0
    requires PlanCut(w, json, world.store, world.anchors, keep, covered) == Ok(Some(plan))
    ensures CanBeCut(w, plan, world.store.CutSeq(), world.store.rows, world.trail)
  {
    PlanOfGood(w, json, world, keep, covered);
    PlanForHolds(w, world.trail, world.store.CutSeq(), keep);
  }

  /** In a good state a planned cut is carried out to its end, whatever is appended, unless a crash stops it. */
  lemma PlannedCutSucceeds(
    w: Wire, json: Json, world: World, keep: nat, covered: bool, plan: Plan,
    a: seq<StoredRecord>, b: seq<StoredRecord>, crash: nat)
    requires Good(w, json, world) && keep > 0
    requires PlanCut(w, json, world.store, world.anchors, keep, covered) == Ok(Some(plan))
    requires AllContinue(w, world.trail, a) && AllContinue(w, world.trail + a, b)
    ensures EndingOf(w, plan, CutOf(world.store.rows + a + b, world.store.cuts, plan), crash) ==
            if crash <= 2 then Crashed else Done
  {
    var c, rows, trail := world.store.CutSeq(), world.store.rows, world.trail;
    PlanOfGoodCanBeCut(w, json, world, keep, covered, plan);
    GrowthKeepsPlan(w, plan, c, rows, trail, a);
    GrowthKeepsPlan(w, plan, c, rows + a, trail + a, b);
    PlannedCutCloses(w, Store(rows + a + b, world.store.cuts), plan, trail + a + b, crash);
  }

  lemma AppendsGrow(w: Wire, json: Json, world: World, records: seq<StoredRecord>, i: nat)
    requires i < |records|
    ensures Run(w, json, world, Appends(records[..i + 1])) ==
            Step(w, json, Run(w, json, world, Appends(records[..i])), Append(records[i]))
  {
    assert Appends(records[..i + 1]) == Appends(records[..i]) + [Append(records[i])];
    RunConcat(w, json, world, Appends(records[..i]), [Append(records[i])]);
    RunOne(w, json, Run(w, json, world, Appends(records[..i])), Append(records[i]));
  }
}
