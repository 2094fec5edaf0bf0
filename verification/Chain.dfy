/**
 * The hash chain (crates/ciphr-audit/src/chain.rs). SHA-256 and the JSON layer are parameters:
 * nothing is assumed of the hash, and of the JSON layer only that it reads back what it wrote.
 */
module Chain {
  import opened Basics
  import Hex
  import Timestamp

  type Digest = d: seq<byte> | |d| == 32 witness seq(32, _ => 0)

  const GENESIS: Digest :=
    [0, 0, 0, 0, 0, 0, 0, 0, 0, 0, 0, 0, 0, 0, 0, 0, 0, 0, 0, 0, 0, 0, 0, 0, 0, 0, 0, 0, 0, 0, 0, 0]

  /** What is recorded, as the JSON text of its fields. */
  datatype Entry = Entry(json: string)

  /** The fields verification reads back from a stored payload. */
  datatype Header = Header(seqNo: nat, prevHash: string)

  datatype Wire = Wire(
    hash: string -> Digest,
    render: (nat, string, string, Entry) -> string,
    parse: string -> Option<Header>,
    seqField: string -> Option<nat>,
    readTime: string -> Option<string>,
    readEntry: string -> Option<Entry>)
  {
    /** A rendered record is one line of text from which everything that was rendered can be read back. */
    ghost predicate Lawful() {
      forall seqNo: nat, ts, prevHash, entry ::
        var payload := render(seqNo, ts, prevHash, entry);
        && parse(payload) == Some(Header(seqNo, prevHash))
        && seqField(payload) == Some(seqNo)
        && readTime(payload) == Some(ts)
        && readEntry(payload) == Some(entry)
        && IsRecordLine(payload)
    }
  }

  /** JSON text of an object: it begins with `{`, ends with `}` and escapes every line break. */
  predicate IsRecordLine(text: string) {
    && |text| >= 2 && text[0] == '{' && text[|text| - 1] == '}'
    && forall c :: c in text ==> c != '\n' && c != '\r'
  }

  datatype EncodedRecord = EncodedRecord(
    seqNo: nat, tsMillis: int, prevHash: Digest, hash: Digest, payload: string)

  /** The chain's state as a value: what the next record gets. */
  datatype Head = Head(nextSeq: nat, prevHash: Digest)

  const START := Head(1, GENESIS)

  function ResumedAt(lastSeq: nat, lastHash: Digest): Head {
    Head(lastSeq + 1, lastHash)
  }

  function NextRecord(w: Wire, head: Head, entry: Entry, nowMillis: int): EncodedRecord {
    var payload := w.render(head.nextSeq, Timestamp.Rfc3339(nowMillis), Hex.Encoded(head.prevHash), entry);
    EncodedRecord(head.nextSeq, nowMillis, head.prevHash, w.hash(payload), payload)
  }

  /** The record holds the entry it was encoded for, its time, and where it stands in the chain. */
  lemma RecordHolds(w: Wire, head: Head, entry: Entry, nowMillis: int)
    requires w.Lawful()
    ensures var record := NextRecord(w, head, entry, nowMillis);
            && w.readEntry(record.payload) == Some(entry)
            && w.readTime(record.payload) == Some(Timestamp.Rfc3339(nowMillis)) && record.tsMillis == nowMillis
            && w.parse(record.payload) == Some(Header(head.nextSeq, Hex.Encoded(head.prevHash)))
            && record.seqNo == head.nextSeq && record.hash == w.hash(record.payload)
  {
    var ts, prev := Timestamp.Rfc3339(nowMillis), Hex.Encoded(head.prevHash);
    assert w.readEntry(w.render(head.nextSeq, ts, prev, entry)) == Some(entry);
  }

  function HeadAfter(record: EncodedRecord): Head {
    Head(record.seqNo + 1, record.hash)
  }

  class Chain {
    var nextSeq: nat
    var prevHash: Digest

    function View(): Head
      reads this
    {
      Head(nextSeq, prevHash)
    }

    constructor New()
      ensures View() == START
    {
      nextSeq, prevHash := 1, GENESIS;
    }

    constructor Resume(head: Head)
      ensures View() == head
    {
      nextSeq, prevHash := head.nextSeq, head.prevHash;
    }

    /** Encodes without advancing: a record nobody stored consumes no sequence number. */
    method Encode(w: Wire, entry: Entry, nowMillis: int) returns (record: EncodedRecord)
      ensures record == NextRecord(w, View(), entry, nowMillis)
      ensures w.Lawful() ==>
                && w.readEntry(record.payload) == Some(entry)
                && w.readTime(record.payload) == Some(Timestamp.Rfc3339(nowMillis))
    {
      var ts := Timestamp.Rfc3339(nowMillis);
      var prev := Hex.Encode(prevHash);
      var payload := w.render(nextSeq, ts, prev, entry);
      record := EncodedRecord(nextSeq, nowMillis, prevHash, w.hash(payload), payload);
    }

    /** The source asserts that the record is the one this chain expects. */
    method Commit(record: EncodedRecord)
      requires record.seqNo == nextSeq
      modifies this
      ensures View() == HeadAfter(record)
    {
      nextSeq := nextSeq + 1;
      prevHash := record.hash;
    }
  }
}
