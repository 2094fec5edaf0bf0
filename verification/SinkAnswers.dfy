/**
 * What the callers of the sink are told over whole runs, and what the committed records hold
 * (crates/ciphr-audit/src/device.rs, `record`).
 */
module SinkAnswers {
  import opened Basics
  import opened Chain
  import opened Sink
  import opened SinkRuns
  import Hex
  import Timestamp

  /** A request that was answered with success, and the answer. */
  datatype Answered = Answered(entry: Entry, nowMillis: int, written: Written)

  function AnsweredAt(w: Wire, world: World, e: Event): seq<Answered> {
    if !e.Record? then []
    else
      match Recorded(w, world.sink, e.entry, e.nowMillis, e.accepting).1
      case Ok(written) => [Answered(e.entry, e.nowMillis, written)]
      case Err(_) => []
  }

  /** The successful requests of a run, in order. */
  function AnsweredRun(w: Wire, world: World, events: seq<Event>): seq<Answered>
    decreases |events|
  {
    if events == [] then []
    else AnsweredAt(w, world, events[0]) + AnsweredRun(w, Step(w, world, events[0]), events[1..])
  }

  /** What can be read from the record is what was asked for, and the answer says which record it is. */
  predicate Keeps(w: Wire, record: EncodedRecord, answered: Answered) {
    && w.readEntry(record.payload) == Some(answered.entry)
    && w.readTime(record.payload) == Some(Timestamp.Rfc3339(answered.nowMillis))
    && record.tsMillis == answered.nowMillis
    && answered.written.seqNo == record.seqNo
    && answered.written.hash == record.hash == w.hash(record.payload)
  }

  /** The records keep the requests one by one. */
  predicate AllKept(w: Wire, records: seq<EncodedRecord>, answered: seq<Answered>) {
    |records| == |answered| && forall i :: 0 <= i < |records| ==> Keeps(w, records[i], answered[i])
  }

  lemma StepKeepsRequest(w: Wire, world: World, e: Event) returns (added: seq<EncodedRecord>)
    requires w.Lawful()
    ensures Step(w, world, e).committed == world.committed + added && AllKept(w, added, AnsweredAt(w, world, e))
  {
    if AnsweredAt(w, world, e) == [] {
      added := [];
      assert world.committed + [] == world.committed;
    } else {
      added := [NextRecord(w, world.sink.head, e.entry, e.nowMillis)];
      RecordHolds(w, world.sink.head, e.entry, e.nowMillis);
    }
  }

  lemma AllKeptConcat(
    w: Wire, r: seq<EncodedRecord>, a: seq<Answered>, s: seq<EncodedRecord>, b: seq<Answered>)
    requires AllKept(w, r, a) && AllKept(w, s, b)
    ensures AllKept(w, r + s, a + b)
  {
    forall i | 0 <= i < |r + s| ensures Keeps(w, (r + s)[i], (a + b)[i]) {
      if i < |r| {
        assert Keeps(w, r[i], a[i]);
      } else {
        assert Keeps(w, s[i - |r|], b[i - |r|]);
      }
    }
  }

  lemma {:induction false} RunKeepsRequests(w: Wire, world: World, events: seq<Event>)
    returns (added: seq<EncodedRecord>)
    requires w.Lawful()
    ensures Run(w, world, events).committed == world.committed + added
    ensures AllKept(w, added, AnsweredRun(w, world, events))
    decreases |events|
  {
    if events == [] {
      added := [];
      assert world.committed + [] == world.committed;
    } else {
      var next := Step(w, world, events[0]);
      var first := StepKeepsRequest(w, world, events[0]);
      var rest := RunKeepsRequests(w, next, events[1..]);
      AllKeptConcat(w, first, AnsweredAt(w, world, events[0]), rest, AnsweredRun(w, next, events[1..]));
      added := first + rest;
      Regroup(world.committed, first, rest);
    }
  }

  /**
   * Over any run of a new sink the committed records are the requests answered with success, in
   * order: the entry and the time of each are what is read from its record, and its number, which
   * counts from one, and its hash are what the caller was told.
   */
  lemma RunRecordsWhatWasAsked(w: Wire, devices: seq<Device>, readable: set<nat>, events: seq<Event>)
    requires w.Lawful() && forall i :: 0 <= i < |devices| ==> devices[i].held == []
    requires AllAdmissible(w, World(Opened(devices, START, readable), []), events)
    ensures var start := World(Opened(devices, START, readable), []);
            var committed, answered := Run(w, start, events).committed, AnsweredRun(w, start, events);
            && |committed| == |answered|
            && forall i :: 0 <= i < |answered| ==>
                 && w.readEntry(committed[i].payload) == Some(answered[i].entry)
                 && w.readTime(committed[i].payload) == Some(Timestamp.Rfc3339(answered[i].nowMillis))
                 && answered[i].written.seqNo == i + 1 == committed[i].seqNo
                 && answered[i].written.hash == w.hash(committed[i].payload)
  {
    var start := World(Opened(devices, START, readable), []);
    FreshSinkIsSafe(w, devices, readable);
    RunCommitsConsecutively(w, start, events);
    var added := RunKeepsRequests(w, start, events);
    assert [] + added == added;
    forall i | 0 <= i < |added| ensures Keeps(w, added[i], AnsweredRun(w, start, events)[i]) {
    }
  }

  /** What is read from the record: its number, and as predecessor 64 zeros or the hash of the payload before. */
  predicate Linked(w: Wire, committed: seq<EncodedRecord>, i: nat)
    requires i < |committed|
  {
    var header := w.parse(committed[i].payload);
    && header.Some? && header.value.seqNo == i + 1
    && if i == 0 then |header.value.prevHash| == 64 && forall c :: c in header.value.prevHash ==> c == '0'
       else header.value.prevHash == Hex.Encoded(w.hash(committed[i - 1].payload))
  }

  lemma {:induction false} ZerosEncoded(bytes: seq<byte>)
    requires forall k :: 0 <= k < |bytes| ==> bytes[k] == 0
    ensures |Hex.Encoded(bytes)| == 2 * |bytes| && forall c :: c in Hex.Encoded(bytes) ==> c == '0'
  {
    if bytes != [] {
      ZerosEncoded(bytes[1..]);
    }
  }

  lemma GenesisIsZeros(d: Digest)
    requires d == GENESIS
    ensures forall k :: 0 <= k < |d| ==> d[k] == 0
  {
  }

  lemma FirstLink(w: Wire, committed: seq<EncodedRecord>) returns (prev: Digest)
    requires Trail(w, committed) && committed != []
    ensures w.parse(committed[0].payload) == Some(Header(1, Hex.Encoded(prev)))
    ensures forall k :: 0 <= k < |prev| ==> prev[k] == 0
  {
    assert Chained(w, committed, 0);
    prev := committed[0].prevHash;
    GenesisIsZeros(prev);
  }

  lemma TrailIsLinked(w: Wire, committed: seq<EncodedRecord>, i: nat)
    requires Trail(w, committed) && i < |committed|
    ensures Linked(w, committed, i)
  {
    if i > 0 {
      assert Chained(w, committed, i) && Chained(w, committed, i - 1);
    } else {
      var prev := FirstLink(w, committed);
      ZerosEncoded(prev);
    }
  }

  /** Over any run of a new sink, what is read from each record as its predecessor is the hash of the payload before. */
  lemma RunLinksRecords(w: Wire, devices: seq<Device>, readable: set<nat>, events: seq<Event>)
    requires w.Lawful() && forall i :: 0 <= i < |devices| ==> devices[i].held == []
    requires AllAdmissible(w, World(Opened(devices, START, readable), []), events)
    ensures var committed := Run(w, World(Opened(devices, START, readable), []), events).committed;
            forall i :: 0 <= i < |committed| ==> Linked(w, committed, i)
  {
    var start := World(Opened(devices, START, readable), []);
    FreshSinkIsSafe(w, devices, readable);
    RunsStaySafe(w, start, events);
    var committed := Run(w, start, events).committed;
    forall i | 0 <= i < |committed| ensures Linked(w, committed, i) {
      TrailIsLinked(w, committed, i);
    }
  }

  // ----- what the devices hold

  /** Each device in use holds everything that was committed. */
  predicate HoldAll(world: World) {
    forall i :: 0 <= i < |world.sink.slots| && world.sink.slots[i].quarantined.None? ==>
      world.sink.slots[i].device.held == world.committed
  }

  lemma RecordReachesAll(w: Wire, world: World, e: Event)
    requires e.Record? && HoldAll(world)
    ensures HoldAll(Step(w, world, e))
  {
    var slots := world.sink.slots;
    if SomeStore(slots, e.accepting, |slots|) {
      var record := NextRecord(w, world.sink.head, e.entry, e.nowMillis);
      RefusalsName(slots, e.accepting, |slots|);
      forall i | 0 <= i < |slots| && RecordedSlots(slots, e.accepting, record)[i].quarantined.None?
        ensures RecordedSlots(slots, e.accepting, record)[i].device.held == world.committed + [record]
      {
        assert slots[i].quarantined.None? && slots[i].device.held == world.committed;
      }
    }
  }

  /** While no device loses anything and nothing restarts, each device in use holds every committed record. */
  lemma {:induction false} RecordsReachAll(w: Wire, world: World, events: seq<Event>)
    requires HoldAll(world) && forall e :: e in events ==> e.Record?
    ensures HoldAll(Run(w, world, events))
    decreases |events|
  {
    if events != [] {
      assert events[0] in events && forall e :: e in events[1..] ==> e in events;
      RecordReachesAll(w, world, events[0]);
      RecordsReachAll(w, Step(w, world, events[0]), events[1..]);
    }
  }

  // ----- what the answer says about the devices

  /** The answer lists the devices that refused, and the stops it caused. */
  lemma {:induction false} NewStopsAre(slots: seq<Slot>, failures: seq<string>, record: EncodedRecord, n: nat)
    requires n <= |slots|
    ensures forall i :: 0 <= i < n && slots[i].quarantined.None? && slots[i].device.name in failures ==>
              Stop(slots[i].device.name, record) in NewStops(slots, failures, record, n)
    ensures forall q :: q in NewStops(slots, failures, record, n) ==>
              exists i :: 0 <= i < n && slots[i].quarantined.None? && slots[i].device.name in failures
                          && q == Stop(slots[i].device.name, record)
  {
    if n > 0 {
      NewStopsAre(slots, failures, record, n - 1);
    }
  }

  /** A device was asked and refused. */
  predicate Refused(slots: seq<Slot>, accepting: set<nat>, i: nat) {
    i < |slots| && slots[i].quarantined.None? && i !in accepting
  }

  /** A device was stopped by this record. */
  predicate StoppedBy(before: seq<Slot>, after: seq<Slot>, i: nat) {
    i < |before| && i < |after| && before[i].quarantined.None? && after[i].quarantined.Some?
  }

  ghost predicate RefusedUnder(slots: seq<Slot>, accepting: set<nat>, name: string) {
    exists i: nat :: Refused(slots, accepting, i) && slots[i].device.name == name
  }

  ghost predicate StoppedWith(before: seq<Slot>, after: seq<Slot>, q: Quarantined) {
    exists i: nat :: StoppedBy(before, after, i) && after[i].quarantined == Some(q)
  }

  lemma FailuresAreRefusals(slots: seq<Slot>, accepting: set<nat>, name: string)
    ensures name in Refusals(slots, accepting, |slots|) <==> RefusedUnder(slots, accepting, name)
  {
    RefusalsName(slots, accepting, |slots|);
    if name in Refusals(slots, accepting, |slots|) {
      var i :| 0 <= i < |slots| && slots[i].quarantined.None? && i !in accepting && slots[i].device.name == name;
      assert Refused(slots, accepting, i);
    }
  }

  lemma NewStopsAreStops(slots: seq<Slot>, accepting: set<nat>, record: EncodedRecord, q: Quarantined)
    ensures q in NewStops(slots, Refusals(slots, accepting, |slots|), record, |slots|) <==>
            StoppedWith(slots, RecordedSlots(slots, accepting, record), q)
  {
    var after, failures := RecordedSlots(slots, accepting, record), Refusals(slots, accepting, |slots|);
    NewStopsAre(slots, failures, record, |slots|);
    if q in NewStops(slots, failures, record, |slots|) {
      var i :| 0 <= i < |slots| && slots[i].quarantined.None? && slots[i].device.name in failures
               && q == Stop(slots[i].device.name, record);
      assert StoppedBy(slots, after, i);
    }
  }

  lemma AnswerOutcome(w: Wire, s: SinkState, entry: Entry, nowMillis: int, accepting: set<nat>)
    returns (after: SinkState, written: Written, record: EncodedRecord)
    requires Recorded(w, s, entry, nowMillis, accepting).1.Ok?
    ensures Recorded(w, s, entry, nowMillis, accepting) == (after, Ok(written))
    ensures after.slots == RecordedSlots(s.slots, accepting, record)
    ensures written.failures == Refusals(s.slots, accepting, |s.slots|)
    ensures written.quarantined == NewStops(s.slots, written.failures, record, |s.slots|)
  {
    after := Recorded(w, s, entry, nowMillis, accepting).0;
    written := Recorded(w, s, entry, nowMillis, accepting).1.value;
    record := NextRecord(w, s.head, entry, nowMillis);
  }

  /** Who refused, and who was stopped and how, is exactly what the caller is told. */
  lemma AnswerTellsFailures(w: Wire, s: SinkState, entry: Entry, nowMillis: int, accepting: set<nat>)
    returns (after: SinkState, written: Written)
    requires Recorded(w, s, entry, nowMillis, accepting).1.Ok?
    ensures Recorded(w, s, entry, nowMillis, accepting) == (after, Ok(written))
    ensures forall name :: name in written.failures <==> RefusedUnder(s.slots, accepting, name)
    ensures forall q :: q in written.quarantined <==> StoppedWith(s.slots, after.slots, q)
  {
    var record;
    after, written, record := AnswerOutcome(w, s, entry, nowMillis, accepting);
    forall name ensures name in written.failures <==> RefusedUnder(s.slots, accepting, name) {
      FailuresAreRefusals(s.slots, accepting, name);
    }
    forall q ensures q in written.quarantined <==> StoppedWith(s.slots, after.slots, q) {
      NewStopsAreStops(s.slots, accepting, record, q);
    }
  }

  /** A record is refused exactly when each device is stopped or refused, and the refusal names those that refused. */
  lemma RefusalTellsFailures(w: Wire, s: SinkState, entry: Entry, nowMillis: int, accepting: set<nat>)
    ensures var answer := Recorded(w, s, entry, nowMillis, accepting).1;
            && (answer.Err? <==> forall i: nat :: i < |s.slots| ==>
                  s.slots[i].quarantined.Some? || Refused(s.slots, accepting, i))
            && (answer.Err? ==>
                  && answer.error.AllDevicesFailed?
                  && forall name :: name in answer.error.failures <==> RefusedUnder(s.slots, accepting, name))
  {
    forall name
      ensures name in Refusals(s.slots, accepting, |s.slots|) <==> RefusedUnder(s.slots, accepting, name)
    {
      FailuresAreRefusals(s.slots, accepting, name);
    }
    if i: nat :| i < |s.slots| && s.slots[i].quarantined.None? && !Refused(s.slots, accepting, i) {
      assert Stores(s.slots, accepting, i);
    }
  }

  // ----- what a stop says is true

  /** The stop names the device, the last record it holds, and the first that it missed. */
  predicate StopIsTrue(slot: Slot, committed: seq<EncodedRecord>) {
    slot.quarantined.Some? ==>
      var q, held := slot.quarantined.value, slot.device.held;
      && q.device == slot.device.name
      && 1 <= q.missedFrom <= |committed|
      && q.lastHeld == Some(q.missedFrom - 1)
      && (held != [] ==> held[|held| - 1].seqNo == q.missedFrom - 1)
  }

  predicate StopsAreTrue(world: World) {
    forall i :: 0 <= i < |world.sink.slots| ==> StopIsTrue(world.sink.slots[i], world.committed)
  }

  /** With distinct names a record stops only a device that refused it, and leaves its contents alone. */
  lemma OnlyRefusersAreStopped(slots: seq<Slot>, accepting: set<nat>, record: EncodedRecord, i: nat)
    requires NamesDistinct(slots) && i < |slots|
    ensures var slot := RecordedSlots(slots, accepting, record)[i];
            && slot.device.name == slots[i].device.name
            && (slots[i].quarantined.Some? ==> slot == slots[i])
            && (slots[i].quarantined.None? && slot.quarantined.Some? ==>
                  slot.device == slots[i].device && slot.quarantined.value == Stop(slot.device.name, record))
  {
    RefusalsName(slots, accepting, |slots|);
  }

  lemma RecordKeepsStopTrue(
    w: Wire, world: World, entry: Entry, nowMillis: int, accepting: set<nat>, i: nat)
    requires w.Lawful() && Safe(w, world) && NamesDistinct(world.sink.slots) && i < |world.sink.slots|
    requires StopIsTrue(world.sink.slots[i], world.committed)
    ensures var after := Step(w, world, Record(entry, nowMillis, accepting));
            i < |after.sink.slots| && StopIsTrue(after.sink.slots[i], after.committed)
  {
    var slots, record := world.sink.slots, NextRecord(w, world.sink.head, entry, nowMillis);
    if SomeStore(slots, accepting, |slots|) {
      NewestNumber(w, world);
      OnlyRefusersAreStopped(slots, accepting, record, i);
      if slots[i].quarantined.None? {
        NewestHeld(w, world, i);
      }
    }
  }

  lemma NewestHeld(w: Wire, world: World, i: nat)
    requires Safe(w, world) && i < |world.sink.slots| && world.sink.slots[i].quarantined.None?
    ensures var held := world.sink.slots[i].device.held;
            held != [] ==> held[|held| - 1].seqNo == |world.committed|
  {
    assert SlotSafe(world.sink.slots[i], world.committed);
    var held := world.sink.slots[i].device.held;
    if held != [] {
      AtHeadIsInStep(w, held, world.committed);
    }
  }

  lemma NewestNumber(w: Wire, world: World)
    requires Safe(w, world)
    ensures world.sink.head.nextSeq == |world.committed| + 1
  {
    if world.committed != [] {
      assert Chained(w, world.committed, |world.committed| - 1);
    }
  }

  lemma LastHeldNumber(w: Wire, held: seq<EncodedRecord>, committed: seq<EncodedRecord>)
    requires Trail(w, committed) && HoldsRun(held, committed) && held != []
    ensures 1 <= held[|held| - 1].seqNo <= |committed|
  {
    var at := held[0].seqNo - 1 + |held| - 1;
    assert held[|held| - 1] == committed[at] && Chained(w, committed, at);
  }

  lemma RestartKeepsStopTrue(w: Wire, world: World, readable: set<nat>, i: nat)
    requires Safe(w, world) && i < |world.sink.slots|
    ensures var after := Step(w, world, Restart(HeadOf(world.committed), readable));
            i < |after.sink.slots| && StopIsTrue(after.sink.slots[i], after.committed)
  {
    assert SlotSafe(world.sink.slots[i], world.committed);
    NewestNumber(w, world);
    if world.sink.slots[i].device.held != [] {
      LastHeldNumber(w, world.sink.slots[i].device.held, world.committed);
    }
  }

  lemma StepKeepsStopsTrue(w: Wire, world: World, e: Event)
    requires w.Lawful() && Safe(w, world) && NamesDistinct(world.sink.slots) && Admissible(world, e)
    requires StopsAreTrue(world)
    ensures StopsAreTrue(Step(w, world, e))
  {
    StepKeepsNames(w, world, e);
    forall i | 0 <= i < |world.sink.slots|
      ensures StopIsTrue(Step(w, world, e).sink.slots[i], Step(w, world, e).committed)
    {
      assert StopIsTrue(world.sink.slots[i], world.committed);
      match e
      case Record(entry, nowMillis, accepting) => RecordKeepsStopTrue(w, world, entry, nowMillis, accepting, i);
      case Drop(lost) => DropKeepsStopTrue(w, world, lost, i);
      case Restart(_, readable) => RestartKeepsStopTrue(w, world, readable, i);
    }
  }

  lemma DropKeepsStopTrue(w: Wire, world: World, lost: map<nat, nat>, i: nat)
    requires i < |world.sink.slots| && StopIsTrue(world.sink.slots[i], world.committed)
    ensures var after := Step(w, world, Drop(lost));
            i < |after.sink.slots| && StopIsTrue(after.sink.slots[i], after.committed)
  {
  }

  /** With distinct names, over any run, whatever the sink says about a stopped device is true of it. */
  lemma {:induction false} RunsKeepStopsTrue(w: Wire, world: World, events: seq<Event>)
    requires w.Lawful() && Safe(w, world) && NamesDistinct(world.sink.slots) && AllAdmissible(w, world, events)
    requires StopsAreTrue(world)
    ensures StopsAreTrue(Run(w, world, events))
    decreases |events|
  {
    if events != [] {
      StepKeepsStopsTrue(w, world, events[0]);
      StepKeepsSafe(w, world, events[0]);
      StepKeepsNames(w, world, events[0]);
      RunsKeepStopsTrue(w, Step(w, world, events[0]), events[1..]);
    }
  }
}
