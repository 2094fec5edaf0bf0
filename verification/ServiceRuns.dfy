/**
 * The service and its operator together: the sink over its devices, one of which is the store, and
 * the commands that anchor and cut the store's table beside it (crates/ciphr-audit/src/device.rs,
 * crates/ciphr-store/src/audit.rs, crates/ciphr-cli/src/main.rs).
 */
module ServiceRuns {
  import opened Basics
  import opened Chain
  import opened Verify
  import opened Anchor
  import opened Cut
  import Sink
  import S = SinkRuns
  import K = CutRuns

  /** The sink, the table behind its device `at`, and what the commands have made of that table. */
  datatype Service = Service(sink: S.World, table: K.World, at: nat) {
    function Slots(): seq<Sink.Slot> {
      sink.sink.slots
    }

    function Held(): seq<EncodedRecord>
      requires at < |Slots()|
    {
      Slots()[at].device.held
    }
  }

  /**
   * A record; other devices losing their oldest records; a restart, which resumes where the table
   * ends; and any step of a command.
   */
  datatype Event =
    | Record(entry: Entry, nowMillis: int, accepting: set<nat>)
    | Lose(lost: map<nat, nat>)
    | Restart(readable: set<nat>)
    | Command(e: K.Event)

  function RowOf(record: EncodedRecord): StoredRecord {
    StoredRecord(record.seqNo, record.payload, Some(record.hash))
  }

  /** How many of its first rows the table lost. */
  function RowsLost(before: Store, after: Store): nat {
    if |after.rows| <= |before.rows| then |before.rows| - |after.rows| else 0
  }

  ghost function Step(w: Wire, json: Json, s: Service, e: Event): Service
    requires s.at < |s.Slots()|
    ensures Step(w, json, s, e).at == s.at && |Step(w, json, s, e).Slots()| == |s.Slots()|
  {
    S.StepKeepsNames(w, s.sink, SinkEvent(w, json, s, e));
    var sink := S.Step(w, s.sink, SinkEvent(w, json, s, e));
    match e
    case Record(entry, nowMillis, accepting) =>
      var record := NextRecord(w, s.sink.sink.head, entry, nowMillis);
      if Sink.Stores(s.Slots(), accepting, s.at)
      then Service(sink, K.Step(w, json, s.table, K.Append(RowOf(record))), s.at)
      else s.(sink := sink)
    case Command(command) => Service(sink, TableAfter(w, json, s.table, command), s.at)
    case _ => s.(sink := sink)
  }

  /** What an event is to the sink. */
  ghost function SinkEvent(w: Wire, json: Json, s: Service, e: Event): S.Event {
    match e
    case Record(entry, nowMillis, accepting) => S.Record(entry, nowMillis, accepting)
    case Lose(lost) => S.Drop(lost - {s.at})
    case Restart(readable) =>
      (match ChainToContinue(s.table.store)
       case Ok(head) => S.Restart(head, readable)
       case Err(_) => S.Drop(map[]))
    case Command(command) =>
      S.Drop(map[s.at := RowsLost(s.table.store, TableAfter(w, json, s.table, command).store)])
  }

  /** Only the sink appends records. */
  ghost function TableAfter(w: Wire, json: Json, table: K.World, e: K.Event): K.World {
    if e.Append? then table else K.Step(w, json, table, e)
  }

  ghost function Run(w: Wire, json: Json, s: Service, events: seq<Event>): Service
    requires s.at < |s.Slots()|
    decreases |events|
  {
    if events == [] then s else Run(w, json, Step(w, json, s, events[0]), events[1..])
  }

  /**
   * A restart finds the table's end at the committed head and can read every device that missed
   * something; a command keeps something and appends no anchor too late.
   */
  predicate Admissible(s: Service, e: Event) {
    && (e.Restart? ==> ChainToContinue(s.table.store) == Ok(S.HeadOf(s.sink.committed)) && S.Readable(s.sink, e.readable))
    && (e.Command? ==> K.Admissible(s.table, e.e))
  }

  ghost predicate AllAdmissible(w: Wire, json: Json, s: Service, events: seq<Event>)
    requires s.at < |s.Slots()|
    decreases |events|
  {
    events == [] || (Admissible(s, events[0]) && AllAdmissible(w, json, Step(w, json, s, events[0]), events[1..]))
  }

  // ----- what the sink commits is what the table's history appends

  /** The history of the table is what was committed up to some point, and all of it while it is written to. */
  predicate Follows(trail: seq<StoredRecord>, committed: seq<EncodedRecord>, all: bool) {
    && |trail| <= |committed| && trail == S.StoredOf(committed[..|trail|])
    && (all ==> |trail| == |committed|)
  }

  predicate Linked(w: Wire, json: Json, s: Service) {
    && s.at < |s.Slots()|
    && S.Safe(w, s.sink)
    && K.Good(w, json, s.table)
    && s.table.store.rows == S.StoredOf(s.Held())
    && Follows(s.table.trail, s.sink.committed, s.Slots()[s.at].quarantined.None?)
  }

  lemma WholeRunIsSound(w: Wire, committed: seq<EncodedRecord>)
    requires S.Trail(w, committed)
    ensures Sound(w, S.StoredOf(committed), GENESIS)
    ensures committed != [] ==> S.StoredOf(committed)[0].seqNo == 1
  {
    if committed != [] {
      WholeIsRun(w, committed);
      S.TrailRunIsSound(w, committed, committed);
    }
  }

  lemma WholeIsRun(w: Wire, committed: seq<EncodedRecord>)
    requires S.Trail(w, committed) && committed != []
    ensures S.HoldsRun(committed, committed) && committed[0].seqNo == 1
  {
    FirstIsOne(w, committed);
    WholeSlice(committed, committed[0].seqNo - 1);
  }

  lemma FirstIsOne(w: Wire, committed: seq<EncodedRecord>)
    requires S.Trail(w, committed) && committed != []
    ensures committed[0].seqNo == 1
  {
    assert S.Chained(w, committed, 0);
  }

  lemma WholeSlice(committed: seq<EncodedRecord>, first: nat)
    requires first == 0
    ensures committed[first..first + |committed|] == committed
  {
  }

  lemma CommittedVerifies(w: Wire, committed: seq<EncodedRecord>)
    requires S.Trail(w, committed)
    ensures VerifyFrom(w, Genesis, S.StoredOf(committed)).Ok?
  {
    WholeRunIsSound(w, committed);
    SoundRunVerifies(w, Genesis, S.StoredOf(committed));
  }

  lemma CommittedIsSound(w: Wire, committed: seq<EncodedRecord>)
    requires S.Trail(w, committed)
    ensures K.SoundTrail(w, S.StoredOf(committed))
  {
    WholeRunIsSound(w, committed);
    StoredHashesAreRight(w, committed, S.StoredOf(committed));
  }

  lemma StoredHashesAreRight(w: Wire, committed: seq<EncodedRecord>, rows: seq<StoredRecord>)
    requires S.Trail(w, committed) && rows == S.StoredOf(committed)
    ensures forall i :: 0 <= i < |rows| ==> rows[i].hash == Some(w.hash(rows[i].payload))
  {
    forall i | 0 <= i < |rows| ensures rows[i].hash == Some(w.hash(rows[i].payload)) {
      assert S.Chained(w, committed, i);
    }
  }

  lemma RowsOfAppended(committed: seq<EncodedRecord>, record: EncodedRecord)
    ensures S.StoredOf(committed + [record]) == S.StoredOf(committed) + [RowOf(record)]
  {
  }

  /** The record that the sink encodes next continues the history of what it committed. */
  lemma NextContinues(w: Wire, world: S.World, entry: Entry, nowMillis: int)
    requires w.Lawful() && S.Safe(w, world)
    ensures K.Continues(w, S.StoredOf(world.committed), RowOf(NextRecord(w, world.sink.head, entry, nowMillis)))
  {
    var record := NextRecord(w, world.sink.head, entry, nowMillis);
    S.RecordExtendsTrailIff(w, world.committed, world.sink.head, entry, nowMillis);
    CommittedVerifies(w, world.committed + [record]);
    RowsOfAppended(world.committed, record);
  }

  lemma WholeHistory(trail: seq<StoredRecord>, committed: seq<EncodedRecord>)
    requires Follows(trail, committed, true)
    ensures trail == S.StoredOf(committed)
  {
    assert committed[..|committed|] == committed;
  }

  lemma HistoryOfGrown(trail: seq<StoredRecord>, committed: seq<EncodedRecord>, all: bool, record: EncodedRecord)
    requires Follows(trail, committed, all)
    ensures Follows(trail, committed + [record], false)
    ensures all ==> Follows(trail + [RowOf(record)], committed + [record], true)
  {
    var more := committed + [record];
    assert more[..|trail|] == committed[..|trail|];
    if all {
      WholeHistory(trail, committed);
      RowsOfAppended(committed, record);
      assert more[..|more|] == more;
    }
  }

  lemma RecordKeepsLinked(w: Wire, json: Json, s: Service, entry: Entry, nowMillis: int, accepting: set<nat>)
    requires w.Lawful() && json.Lawful() && Linked(w, json, s)
    ensures Linked(w, json, Step(w, json, s, Record(entry, nowMillis, accepting)))
  {
    var record := NextRecord(w, s.sink.sink.head, entry, nowMillis);
    var next := Step(w, json, s, Record(entry, nowMillis, accepting));
    S.StepKeepsSafe(w, s.sink, S.Record(entry, nowMillis, accepting));
    S.RecordOutcome(w, s.sink, entry, nowMillis, accepting, s.at);
    HistoryOfGrown(s.table.trail, s.sink.committed, s.Slots()[s.at].quarantined.None?, record);
    if Sink.Stores(s.Slots(), accepting, s.at) {
      WholeHistory(s.table.trail, s.sink.committed);
      NextContinues(w, s.sink, entry, nowMillis);
      K.AppendKeepsGood(w, json, s.table, RowOf(record));
      RowsOfAppended(s.Held(), record);
    }
  }

  lemma DropOutcome(w: Wire, world: S.World, lost: map<nat, nat>, i: nat)
    requires i < |world.sink.slots|
    ensures var after := S.Step(w, world, S.Drop(lost));
            && |after.sink.slots| == |world.sink.slots| && after.committed == world.committed
            && after.sink.slots[i] == S.Dropped(world.sink.slots[i], S.LostBy(lost, i))
  {
  }

  lemma NothingDropped(slot: Sink.Slot)
    ensures S.Dropped(slot, 0) == slot
  {
  }

  lemma LoseOutcome(w: Wire, json: Json, s: Service, lost: map<nat, nat>)
    requires s.at < |s.Slots()|
    ensures var next := Step(w, json, s, Lose(lost));
            && next == Service(S.Step(w, s.sink, S.Drop(lost - {s.at})), s.table, s.at)
            && next.sink.committed == s.sink.committed && next.Slots()[s.at] == s.Slots()[s.at]
  {
    DropOutcome(w, s.sink, lost - {s.at}, s.at);
    NothingDropped(s.Slots()[s.at]);
  }

  lemma LoseKeepsLinked(w: Wire, json: Json, s: Service, lost: map<nat, nat>)
    requires w.Lawful() && Linked(w, json, s)
    ensures Linked(w, json, Step(w, json, s, Lose(lost)))
  {
    LinkedFacts(w, json, s);
    S.StepKeepsSafe(w, s.sink, S.Drop(lost - {s.at}));
    LoseOutcome(w, json, s, lost);
    SameTableIsLinked(w, json, s, Step(w, json, s, Lose(lost)));
  }

  /** The head of the table's history, and of the committed records that it follows. */
  lemma HistoryHead(w: Wire, trail: seq<StoredRecord>, committed: seq<EncodedRecord>, all: bool)
    requires S.Trail(w, committed) && Follows(trail, committed, all)
    ensures S.HeadOf(committed[..|trail|]) ==
            if trail == [] then START else ResumedAt(|trail|, w.hash(trail[|trail| - 1].payload))
  {
    var n := |trail|;
    if n > 0 {
      assert S.Chained(w, committed, n - 1);
      assert trail[n - 1] == RowOf(committed[n - 1]);
    }
  }

  lemma OnlyWholeHasHead(w: Wire, committed: seq<EncodedRecord>, n: nat)
    requires S.Trail(w, committed) && n <= |committed|
    ensures S.HeadOf(committed[..n]) == S.HeadOf(committed) <==> n == |committed|
  {
    if n > 0 {
      assert S.Chained(w, committed, n - 1);
    }
    if committed != [] {
      assert S.Chained(w, committed, |committed| - 1);
    }
    assert committed[..|committed|] == committed;
  }

  lemma LinkedFacts(w: Wire, json: Json, s: Service)
    requires Linked(w, json, s)
    ensures s.at < |s.Slots()| && S.Safe(w, s.sink) && S.Trail(w, s.sink.committed)
    ensures |s.table.store.rows| == |s.Held()|
    ensures Follows(s.table.trail, s.sink.committed, s.Slots()[s.at].quarantined.None?)
  {
  }

  lemma TableContinues(w: Wire, json: Json, s: Service)
    requires Linked(w, json, s)
    ensures |s.table.trail| <= |s.sink.committed|
    ensures ChainToContinue(s.table.store) == Ok(S.HeadOf(s.sink.committed[..|s.table.trail|]))
  {
    LinkedFacts(w, json, s);
    K.GoodStoreContinues(w, json, s.table);
    HistoryHead(w, s.table.trail, s.sink.committed, s.Slots()[s.at].quarantined.None?);
  }

  /** A restart resumes at the committed head exactly when the table's history misses nothing. */
  lemma ResumesAtHeadIff(w: Wire, json: Json, s: Service)
    requires Linked(w, json, s)
    ensures ChainToContinue(s.table.store) == Ok(S.HeadOf(s.sink.committed)) <==>
            |s.table.trail| == |s.sink.committed|
  {
    LinkedFacts(w, json, s);
    TableContinues(w, json, s);
    OnlyWholeHasHead(w, s.sink.committed, |s.table.trail|);
  }

  lemma RestartOutcome(w: Wire, json: Json, s: Service, head: Head, readable: set<nat>)
    requires s.at < |s.Slots()| && ChainToContinue(s.table.store) == Ok(head)
    ensures var next := Step(w, json, s, Restart(readable));
            && next == Service(S.Step(w, s.sink, S.Restart(head, readable)), s.table, s.at)
            && next.sink.committed == s.sink.committed
            && next.Slots()[s.at].device == s.Slots()[s.at].device
  {
  }

  lemma RestartKeepsLinked(w: Wire, json: Json, s: Service, readable: set<nat>)
    requires w.Lawful() && Linked(w, json, s) && Admissible(s, Restart(readable))
    ensures Linked(w, json, Step(w, json, s, Restart(readable)))
  {
    var head := S.HeadOf(s.sink.committed);
    ResumesAtHeadIff(w, json, s);
    LinkedFacts(w, json, s);
    S.StepKeepsSafe(w, s.sink, S.Restart(head, readable));
    RestartOutcome(w, json, s, head, readable);
    SameTableIsLinked(w, json, s, Step(w, json, s, Restart(readable)));
  }

  /** A state with the same table is linked if the sink is safe and its device is not let back in behind it. */
  lemma SameTableIsLinked(w: Wire, json: Json, s: Service, next: Service)
    requires Linked(w, json, s) && next.at == s.at < |next.Slots()| && S.Safe(w, next.sink) && next.table == s.table
    requires next.Held() == s.Held() && next.sink.committed == s.sink.committed
    requires |s.table.trail| == |s.sink.committed| || next.Slots()[s.at].quarantined == s.Slots()[s.at].quarantined
    ensures Linked(w, json, next)
  {
  }

  lemma OthersKeepStore(w: Wire, json: Json, table: K.World, e: K.Event)
    requires !e.Append? && (e.Delete? ==> !table.cutter.Anchored?)
    ensures K.Step(w, json, table, e).store == table.store && K.Step(w, json, table, e).trail == table.trail
  {
  }

  /** A command leaves the history alone, and the table with the last of its rows. */
  lemma CommandRows(w: Wire, json: Json, table: K.World, e: K.Event)
    requires K.Good(w, json, table)
    ensures var next := TableAfter(w, json, table, e);
            var n := RowsLost(table.store, next.store);
            next.trail == table.trail && n <= |table.store.rows| && next.store.rows == table.store.rows[n..]
  {
    if e.Delete? && table.cutter.Anchored? {
      K.AnchoredFacts(w, json, table);
      CutRows(w, json, table);
    } else if !e.Append? {
      OthersKeepStore(w, json, table, e);
    }
  }

  lemma CutRows(w: Wire, json: Json, table: K.World)
    requires table.cutter.Anchored?
    requires K.CanBeCut(w, table.cutter.plan, table.store.CutSeq(), table.store.rows, table.trail)
    ensures var next := K.Step(w, json, table, K.Delete);
            var rows, kept := table.store.rows, next.store.rows;
            next.trail == table.trail && |kept| <= |rows| && kept == rows[|rows| - |kept|..] && kept != []
  {
    var store, cut := K.StoreAfterPlan(w, table.store, table.cutter.plan, table.trail);
    K.DeleteOutcome(w, json, table, store);
    var c, k, rows := table.store.CutSeq(), store.CutSeq(), table.store.rows;
    assert store.rows == table.trail[k..];
    assert rows[|rows| - |store.rows|..] == table.trail[c..][k - c..] == table.trail[k..];
  }

  lemma StoredOfSuffix(held: seq<EncodedRecord>, n: nat)
    requires n <= |held|
    ensures S.StoredOf(held[n..]) == S.StoredOf(held)[n..]
  {
  }

  lemma CommandOutcome(w: Wire, json: Json, s: Service, e: K.Event, table: K.World)
    requires s.at < |s.Slots()| && table == TableAfter(w, json, s.table, e)
    ensures Step(w, json, s, Command(e)) ==
            Service(S.Step(w, s.sink, S.Drop(map[s.at := RowsLost(s.table.store, table.store)])), table, s.at)
  {
  }

  lemma CommandFacts(w: Wire, json: Json, s: Service, e: K.Event) returns (table: K.World, n: nat)
    requires json.Lawful() && Linked(w, json, s) && K.Admissible(s.table, e)
    ensures table == TableAfter(w, json, s.table, e) && n == RowsLost(s.table.store, table.store)
    ensures K.Good(w, json, table) && table.trail == s.table.trail
    ensures n <= |s.Held()| && table.store.rows == s.table.store.rows[n..]
  {
    table := TableAfter(w, json, s.table, e);
    n := RowsLost(s.table.store, table.store);
    if !e.Append? {
      K.StepKeepsGood(w, json, s.table, e);
    }
    CommandRows(w, json, s.table, e);
    LinkedFacts(w, json, s);
  }

  lemma CommandKeepsLinked(w: Wire, json: Json, s: Service, e: K.Event)
    requires w.Lawful() && json.Lawful() && Linked(w, json, s) && K.Admissible(s.table, e)
    ensures Linked(w, json, Step(w, json, s, Command(e)))
  {
    var table, n := CommandFacts(w, json, s, e);
    CutKeepsLinked(w, json, s, table, n);
    CommandOutcome(w, json, s, e, table);
  }

  /** The store's device and the table lose the same rows. */
  lemma CutKeepsLinked(w: Wire, json: Json, s: Service, table: K.World, n: nat)
    requires w.Lawful() && Linked(w, json, s) && K.Good(w, json, table) && table.trail == s.table.trail
    requires n <= |s.Held()| && table.store.rows == s.table.store.rows[n..]
    ensures Linked(w, json, Service(S.Step(w, s.sink, S.Drop(map[s.at := n])), table, s.at))
  {
    S.StepKeepsSafe(w, s.sink, S.Drop(map[s.at := n]));
    DropOutcome(w, s.sink, map[s.at := n], s.at);
    StoredOfSuffix(s.Held(), n);
  }

  lemma StepKeepsLinked(w: Wire, json: Json, s: Service, e: Event)
    requires w.Lawful() && json.Lawful() && Linked(w, json, s) && Admissible(s, e)
    ensures Linked(w, json, Step(w, json, s, e))
  {
    match e
    case Record(entry, nowMillis, accepting) => RecordKeepsLinked(w, json, s, entry, nowMillis, accepting);
    case Lose(lost) => LoseKeepsLinked(w, json, s, lost);
    case Restart(readable) => RestartKeepsLinked(w, json, s, readable);
    case Command(command) => CommandKeepsLinked(w, json, s, command);
  }

  lemma {:induction false} RunsStayLinked(w: Wire, json: Json, s: Service, events: seq<Event>)
    requires w.Lawful() && json.Lawful() && Linked(w, json, s) && AllAdmissible(w, json, s, events)
    ensures Linked(w, json, Run(w, json, s, events))
    decreases |events|
  {
    if events != [] {
      StepKeepsLinked(w, json, s, events[0]);
      RunsStayLinked(w, json, Step(w, json, s, events[0]), events[1..]);
    }
  }

  // ----- what the operator finds

  function FreshService(devices: seq<Sink.Device>, at: nat, readable: set<nat>): Service {
    Service(S.World(Sink.Opened(devices, START, readable), []), K.FreshWorld(), at)
  }

  lemma FreshServiceIsLinked(w: Wire, json: Json, devices: seq<Sink.Device>, at: nat, readable: set<nat>)
    requires at < |devices| && forall i :: 0 <= i < |devices| ==> devices[i].held == []
    ensures Linked(w, json, FreshService(devices, at, readable))
  {
    S.FreshSinkIsSafe(w, devices, readable);
    K.FreshStoreIsGood(w, json);
    var none: seq<EncodedRecord> := [];
    assert none[..0] == none && S.StoredOf(none) == [];
  }

  /**
   * The table and what was cut from it are what the sink committed up to some point; `audit verify`
   * answers the number and the hash of that point, where a restart would also resume; and while the
   * store's device is written to this is the head at which the sink stands.
   */
  ghost predicate TableAgrees(w: Wire, json: Json, s: Service) {
    var committed, trail, store := s.sink.committed, s.table.trail, s.table.store;
    && s.at < |s.Slots()| && store.CutSeq() <= |trail| <= |committed|
    && (var head := S.HeadOf(committed[..|trail|]);
        && trail[..store.CutSeq()] + store.rows == S.StoredOf(committed[..|trail|])
        && store.rows == S.StoredOf(s.Held())
        && VerifyChain(w, json, store, s.table.anchors) ==
           (if K.HasAnchor(json, s.table.anchors) then Ok(Verified(|s.Held()|, |trail|, head.prevHash)) else Err(NoAnchor))
        && ChainToContinue(store) == Ok(head)
        && (s.Slots()[s.at].quarantined.None? ==> head == s.sink.sink.head))
  }

  lemma TableVerifies(w: Wire, json: Json, s: Service)
    requires Linked(w, json, s)
    ensures |s.table.trail| <= |s.sink.committed|
    ensures VerifyChain(w, json, s.table.store, s.table.anchors) ==
            if K.HasAnchor(json, s.table.anchors)
            then Ok(Verified(|s.Held()|, |s.table.trail|, S.HeadOf(s.sink.committed[..|s.table.trail|]).prevHash))
            else Err(NoAnchor)
  {
    LinkedFacts(w, json, s);
    K.GoodStateVerifies(w, json, s.table);
    HistoryHead(w, s.table.trail, s.sink.committed, s.Slots()[s.at].quarantined.None?);
  }

  lemma RowsFollowCut(w: Wire, json: Json, s: Service)
    requires Linked(w, json, s)
    ensures s.table.store.CutSeq() <= |s.table.trail| <= |s.sink.committed|
    ensures s.table.trail[..s.table.store.CutSeq()] + s.table.store.rows == S.StoredOf(s.sink.committed[..|s.table.trail|])
    ensures s.table.store.rows == S.StoredOf(s.Held())
    ensures s.Slots()[s.at].quarantined.None? ==> S.HeadOf(s.sink.committed[..|s.table.trail|]) == s.sink.sink.head
  {
    assert s.sink.committed[..|s.sink.committed|] == s.sink.committed;
  }

  lemma LinkedTableAgrees(w: Wire, json: Json, s: Service)
    requires Linked(w, json, s)
    ensures TableAgrees(w, json, s)
  {
    TableVerifies(w, json, s);
    TableContinues(w, json, s);
    RowsFollowCut(w, json, s);
  }

  /** The table agrees with the sink after any run of records, failures, rotations, commands, crashes and restarts. */
  lemma ServiceVerifies(
    w: Wire, json: Json, devices: seq<Sink.Device>, at: nat, readable: set<nat>, events: seq<Event>)
    requires w.Lawful() && json.Lawful()
    requires at < |devices| && forall i :: 0 <= i < |devices| ==> devices[i].held == []
    requires AllAdmissible(w, json, FreshService(devices, at, readable), events)
    ensures TableAgrees(w, json, Run(w, json, FreshService(devices, at, readable), events))
  {
    FreshServiceIsLinked(w, json, devices, at, readable);
    RunsStayLinked(w, json, FreshService(devices, at, readable), events);
    LinkedTableAgrees(w, json, Run(w, json, FreshService(devices, at, readable), events));
  }
}
