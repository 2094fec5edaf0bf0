/**
 * The fail-closed sink over several devices (crates/ciphr-audit/src/device.rs).
 * Which devices accept a write, and which can say where they stand, is chosen by the environment.
 */
module Sink {
  import opened Basics
  import opened Chain

  /** A device and what it holds. A write it refuses stores nothing. */
  datatype Device = Device(name: string, held: seq<EncodedRecord>) {
    function HeadSeq(): Option<nat> {
      if held == [] then None else Some(held[|held| - 1].seqNo)
    }
  }

  datatype Quarantined = Quarantined(device: string, lastHeld: Option<nat>, missedFrom: nat)

  datatype Slot = Slot(device: Device, quarantined: Option<Quarantined>)

  datatype Written = Written(seqNo: nat, hash: Digest, failures: seq<string>, quarantined: seq<Quarantined>)

  datatype AuditError = NoDevices | AllDevicesFailed(failures: seq<string>)

  /** The sink's state as a value. */
  datatype SinkState = SinkState(slots: seq<Slot>, head: Head)

  // ----- what opening and recording do, as functions

  /** `can_say` is false for a device whose head cannot be read: it is left alone. */
  function OpenedSlot(device: Device, head: Head, canSay: bool): Slot {
    var headSeq := if head.nextSeq == 0 then 0 else head.nextSeq - 1;
    var at := device.HeadSeq();
    Slot(device, if canSay && at.Some? && at.value != headSeq
                 then Some(Quarantined(device.name, at, at.value + 1)) else None)
  }

  function Opened(devices: seq<Device>, head: Head, readable: set<nat>): SinkState {
    SinkState(seq(|devices|, i requires 0 <= i < |devices| => OpenedSlot(devices[i], head, i in readable)), head)
  }

  /** Whether the slot at `i` is asked to store the record, and does. */
  predicate Stores(slots: seq<Slot>, accepting: set<nat>, i: nat)
    requires i < |slots|
  {
    slots[i].quarantined.None? && i in accepting
  }

  predicate SomeStore(slots: seq<Slot>, accepting: set<nat>, n: nat)
    requires n <= |slots|
  {
    exists i :: 0 <= i < n && Stores(slots, accepting, i)
  }

  /** The names of the asked devices that refused, in configuration order. */
  function Refusals(slots: seq<Slot>, accepting: set<nat>, n: nat): seq<string>
    requires n <= |slots|
  {
    if n == 0 then []
    else
      Refusals(slots, accepting, n - 1)
      + if slots[n - 1].quarantined.None? && n - 1 !in accepting then [slots[n - 1].device.name] else []
  }

  function AfterWrite(slot: Slot, stores: bool, record: EncodedRecord): Slot {
    if stores then slot.(device := slot.device.(held := slot.device.held + [record])) else slot
  }

  function Stop(name: string, record: EncodedRecord): Quarantined {
    Quarantined(name, if record.seqNo == 0 then None else Some(record.seqNo - 1), record.seqNo)
  }

  function AfterCommit(slot: Slot, failures: seq<string>, record: EncodedRecord): Slot {
    if slot.quarantined.None? && slot.device.name in failures
    then slot.(quarantined := Some(Stop(slot.device.name, record))) else slot
  }

  function RecordedSlots(slots: seq<Slot>, accepting: set<nat>, record: EncodedRecord): (after: seq<Slot>)
    ensures |after| == |slots|
  {
    var failures := Refusals(slots, accepting, |slots|);
    seq(|slots|, i requires 0 <= i < |slots| =>
      AfterCommit(AfterWrite(slots[i], Stores(slots, accepting, i), record), failures, record))
  }

  /** The stops this record causes, in configuration order. */
  function NewStops(slots: seq<Slot>, failures: seq<string>, record: EncodedRecord, n: nat): seq<Quarantined>
    requires n <= |slots|
  {
    if n == 0 then []
    else
      NewStops(slots, failures, record, n - 1)
      + if slots[n - 1].quarantined.None? && slots[n - 1].device.name in failures
        then [Stop(slots[n - 1].device.name, record)] else []
  }

  function Recorded(w: Wire, s: SinkState, entry: Entry, nowMillis: int, accepting: set<nat>)
    : (r: (SinkState, Result<Written, AuditError>))
    ensures |r.0.slots| == |s.slots|
  {
    var record := NextRecord(w, s.head, entry, nowMillis);
    var failures := Refusals(s.slots, accepting, |s.slots|);
    if !SomeStore(s.slots, accepting, |s.slots|) then (s, Err(AllDevicesFailed(failures)))
    else
      (SinkState(RecordedSlots(s.slots, accepting, record), HeadAfter(record)),
       Ok(Written(record.seqNo, record.hash, failures, NewStops(s.slots, failures, record, |s.slots|))))
  }

  // ----- the sink

  class AuditSink {
    var slots: seq<Slot>
    const chain: Chain

    ghost function View(): SinkState
      reads this, chain
    {
      SinkState(slots, chain.View())
    }

    constructor (devices: seq<Device>, chain: Chain, readable: set<nat>)
      requires devices != []
      ensures this.chain == chain
      ensures View() == Opened(devices, chain.View(), readable)
    {
      this.chain := chain;
      new;
      var head := chain.View();
      slots := Opened(devices, head, readable).slots;
    }

    static method Open(devices: seq<Device>, chain: Chain, readable: set<nat>)
      returns (r: Result<AuditSink, AuditError>)
      ensures devices == [] ==> r == Err(NoDevices)
      ensures devices != [] ==>
                r.Ok? && fresh(r.value) && r.value.chain == chain &&
                r.value.View() == Opened(devices, chain.View(), readable)
    {
      if devices == [] {
        return Err(NoDevices);
      }
      var sink := new AuditSink(devices, chain, readable);
      return Ok(sink);
    }

    method Record(w: Wire, entry: Entry, nowMillis: int, accepting: set<nat>)
      returns (r: Result<Written, AuditError>)
      modifies this, chain
      ensures (View(), r) == Recorded(w, old(View()), entry, nowMillis, accepting)
    {
      ghost var before := slots;
      var record := chain.Encode(w, entry, nowMillis);
      var failures, attempted := AskDevices(record, accepting);
      if attempted == 0 || |failures| == attempted {
        assert slots == before;
        return Err(AllDevicesFailed(failures));
      }
      chain.Commit(record);
      ghost var written := slots;
      var stopped := QuarantineAll(failures, record);
      NewStopsIgnoreContents(before, written, failures, record, |before|);
      assert slots == RecordedSlots(before, accepting, record);
      return Ok(Written(record.seqNo, record.hash, failures, stopped));
    }

    method AskDevices(record: EncodedRecord, accepting: set<nat>) returns (failures: seq<string>, attempted: nat)
      modifies this`slots
      ensures |slots| == |old(slots)|
      ensures forall i :: 0 <= i < |slots| ==>
                slots[i] == AfterWrite(old(slots)[i], Stores(old(slots), accepting, i), record)
      ensures failures == Refusals(old(slots), accepting, |slots|)
      ensures |failures| == attempted <==> !SomeStore(old(slots), accepting, |slots|)
      ensures attempted == 0 ==> failures == []
    {
      failures, attempted := [], 0;
      for i := 0 to |slots|
        invariant |slots| == |old(slots)|
        invariant forall j :: 0 <= j < i ==>
                    slots[j] == AfterWrite(old(slots)[j], Stores(old(slots), accepting, j), record)
        invariant forall j :: i <= j < |slots| ==> slots[j] == old(slots)[j]
        invariant failures == Refusals(old(slots), accepting, i)
        invariant |failures| <= attempted
        invariant |failures| == attempted <==> !SomeStore(old(slots), accepting, i)
      {
        if slots[i].quarantined.None? {
          attempted := attempted + 1;
          if i in accepting {
            assert Stores(old(slots), accepting, i);
            slots := slots[i := AfterWrite(slots[i], true, record)];
          } else {
            failures := failures + [slots[i].device.name];
          }
        }
      }
    }

    method QuarantineAll(failures: seq<string>, record: EncodedRecord) returns (stopped: seq<Quarantined>)
      modifies this`slots
      ensures |slots| == |old(slots)|
      ensures forall i :: 0 <= i < |slots| ==> slots[i] == AfterCommit(old(slots)[i], failures, record)
      ensures stopped == NewStops(old(slots), failures, record, |slots|)
    {
      stopped := [];
      for i := 0 to |slots|
        invariant |slots| == |old(slots)|
        invariant forall j :: 0 <= j < i ==> slots[j] == AfterCommit(old(slots)[j], failures, record)
        invariant forall j :: i <= j < |slots| ==> slots[j] == old(slots)[j]
        invariant stopped == NewStops(old(slots), failures, record, i)
      {
        if slots[i].quarantined.None? && slots[i].device.name in failures {
          var stop := Stop(slots[i].device.name, record);
          stopped := stopped + [stop];
          slots := slots[i := slots[i].(quarantined := Some(stop))];
        }
      }
    }
  }

  /** What a device holds does not matter to whether it is stopped. */
  lemma {:induction false} NewStopsIgnoreContents(
    a: seq<Slot>, b: seq<Slot>, failures: seq<string>, record: EncodedRecord, n: nat)
    requires n <= |a| && n <= |b|
    requires forall i :: 0 <= i < n ==>
               a[i].quarantined == b[i].quarantined && a[i].device.name == b[i].device.name
    ensures NewStops(a, failures, record, n) == NewStops(b, failures, record, n)
  {
    if n > 0 {
      NewStopsIgnoreContents(a, b, failures, record, n - 1);
    }
  }
}
