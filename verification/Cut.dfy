/**
 * Bounding the queryable trail: `ciphr audit cut`, `anchor` and `verify`
 * (crates/ciphr-cli/src/main.rs) over the store's table of records and its table of cuts
 * (crates/ciphr-store/src/audit.rs). The anchor file is text; the table's delete is atomic.
 */
module Cut {
  import opened Basics
  import opened Chain
  import opened Verify
  import opened Anchor
  import Archive
  import Text

  // ----- the store

  datatype AuditCut = AuditCut(seqNo: nat, hash: Digest, removed: nat)

  datatype Store = Store(rows: seq<StoredRecord>, cuts: seq<AuditCut>) {
    function CutSeq(): nat {
      if cuts == [] then 0 else cuts[|cuts| - 1].seqNo
    }

    function StartPoint(): Start {
      if cuts == [] then Genesis else AfterCut(cuts[|cuts| - 1].seqNo, cuts[|cuts| - 1].hash)
    }
  }

  datatype Refusal = NoSuchRecord | NotTheVerifiedRecord | WouldBeEmpty | MovesBackwards | NotArchived

  /** The rows with a sequence number above `through`. */
  function RowsAbove(rows: seq<StoredRecord>, through: nat): seq<StoredRecord> {
    if rows == [] then []
    else (if rows[0].seqNo > through then [rows[0]] else []) + RowsAbove(rows[1..], through)
  }

  /** The store's answer to a cut: all four checks first, then the rows and the cut's own row change together. */
  function StoreCut(store: Store, through: nat, hash: Digest): (r: Result<Store, Refusal>)
    ensures r.Ok? ==> r.value.cuts != [] && r.value.CutSeq() == through && r.value.rows != []
  {
    var at := PositionOf(store.rows, through);
    var kept := RowsAbove(store.rows, through);
    if at == |store.rows| then Err(NoSuchRecord)
    else if store.rows[at].hash != Some(hash) then Err(NotTheVerifiedRecord)
    else if kept == [] then Err(WouldBeEmpty)
    else if store.cuts != [] && store.CutSeq() >= through then Err(MovesBackwards)
    else
      assert |kept| <= |store.rows| by { RowsAboveAre(store.rows, through); }
      Ok(Store(kept, store.cuts + [AuditCut(through, hash, |store.rows| - |kept|)]))
  }

  /** The rows of the table come in the order of their numbers. */
  predicate Rising(rows: seq<StoredRecord>) {
    forall i, j :: 0 <= i < j < |rows| ==> rows[i].seqNo < rows[j].seqNo
  }

  /** Exactly the rows above stay, in their order. */
  lemma {:induction false} RowsAboveAre(rows: seq<StoredRecord>, through: nat)
    ensures |RowsAbove(rows, through)| <= |rows|
    ensures forall r :: r in RowsAbove(rows, through) <==> r in rows && r.seqNo > through
    ensures Rising(rows) ==> Rising(RowsAbove(rows, through))
  {
    if rows != [] {
      var rest := RowsAbove(rows[1..], through);
      RowsAboveAre(rows[1..], through);
      assert forall r :: r in rows <==> r == rows[0] || r in rows[1..];
      if Rising(rows) {
        forall r | r in rest ensures rows[0].seqNo < r.seqNo {
          var k :| 0 <= k < |rows[1..]| && rows[1..][k] == r;
        }
      }
    }
  }

  /** The row with this number; the table holds at most one. */
  predicate HasRow(store: Store, seqNo: nat) {
    exists i :: 0 <= i < |store.rows| && store.rows[i].seqNo == seqNo
  }

  predicate HasVerifiedRow(store: Store, seqNo: nat, hash: Digest) {
    exists i :: 0 <= i < |store.rows| && store.rows[i].seqNo == seqNo && store.rows[i].hash == Some(hash)
  }

  predicate HasRowAbove(store: Store, seqNo: nat) {
    exists i :: 0 <= i < |store.rows| && store.rows[i].seqNo > seqNo
  }

  predicate NumbersDiffer(rows: seq<StoredRecord>) {
    forall i, j :: 0 <= i < j < |rows| ==> rows[i].seqNo != rows[j].seqNo
  }

  lemma FoundIffHasRow(store: Store, through: nat)
    ensures PositionOf(store.rows, through) < |store.rows| <==> HasRow(store, through)
  {
  }

  lemma FoundIsVerifiedIff(store: Store, through: nat, hash: Digest)
    requires NumbersDiffer(store.rows)
    ensures var at := PositionOf(store.rows, through);
            at < |store.rows| && store.rows[at].hash == Some(hash) <==> HasVerifiedRow(store, through, hash)
  {
    var at := PositionOf(store.rows, through);
    if HasVerifiedRow(store, through, hash) {
      var i :| 0 <= i < |store.rows| && store.rows[i].seqNo == through && store.rows[i].hash == Some(hash);
      assert !(i < at || at < i);
    }
  }

  lemma KeepsSomeIff(store: Store, through: nat)
    ensures RowsAbove(store.rows, through) != [] <==> HasRowAbove(store, through)
  {
    var kept := RowsAbove(store.rows, through);
    RowsAboveAre(store.rows, through);
    if HasRowAbove(store, through) {
      var i :| 0 <= i < |store.rows| && store.rows[i].seqNo > through;
      assert store.rows[i] in kept;
    }
    if kept != [] {
      assert kept[0] in store.rows && kept[0].seqNo > through;
    }
  }

  /** Over a table of distinct numbers: which of its refusals a cut gives, and when it is carried out. */
  lemma StoreCutIff(store: Store, through: nat, hash: Digest)
    requires NumbersDiffer(store.rows)
    ensures var r := StoreCut(store, through, hash);
            && (r == Err(NoSuchRecord) <==> !HasRow(store, through))
            && (r == Err(NotTheVerifiedRecord) <==> HasRow(store, through) && !HasVerifiedRow(store, through, hash))
            && (r == Err(WouldBeEmpty) <==> HasVerifiedRow(store, through, hash) && !HasRowAbove(store, through))
            && (r == Err(MovesBackwards) <==>
                  && HasVerifiedRow(store, through, hash) && HasRowAbove(store, through)
                  && store.cuts != [] && store.CutSeq() >= through)
            && (r.Ok? <==>
                  && HasVerifiedRow(store, through, hash) && HasRowAbove(store, through)
                  && (store.cuts != [] ==> store.CutSeq() < through))
  {
    FoundIffHasRow(store, through);
    FoundIsVerifiedIff(store, through, hash);
    KeepsSomeIff(store, through);
  }

  /** A cut that is carried out keeps exactly the rows above, in their order, and counts those it removes. */
  lemma StoreCutKeeps(store: Store, through: nat, hash: Digest)
    requires StoreCut(store, through, hash).Ok?
    ensures var after := StoreCut(store, through, hash).value;
            && after.rows == RowsAbove(store.rows, through)
            && (forall row :: row in after.rows <==> row in store.rows && row.seqNo > through)
            && (Rising(store.rows) ==> Rising(after.rows))
            && after.cuts == store.cuts + [AuditCut(through, hash, |store.rows| - |after.rows|)]
  {
    RowsAboveAre(store.rows, through);
  }

  /** States of the table that a restart refuses to continue. */
  datatype Corruption = EndsBeforeCut(headSeq: nat) | EmptyAfterCut

  /** The chain that a restart continues. */
  function ChainToContinue(store: Store): Result<Head, Corruption> {
    if store.rows == [] then
      if store.cuts == [] then Ok(START) else Err(EmptyAfterCut)
    else
      var last := store.rows[|store.rows| - 1];
      if store.cuts != [] && store.CutSeq() >= last.seqNo then Err(EndsBeforeCut(last.seqNo))
      else Ok(ResumedAt(last.seqNo, if last.hash.Some? then last.hash.value else GENESIS))
  }

  // ----- the commands

  datatype Failure =
    | Broken(at: ChainBreak)
    | BadAnchorFile(error: AnchorError)
    | NoAnchor
    | EmptyChain
    | CutRefused(why: Refusal)

  /** The trail is checked against the newest anchor in the file, or on its own if there is none. */
  function CheckTrail(w: Wire, json: Json, store: Store, anchors: string): Result<Verified, Failure> {
    match Latest(json, anchors)
    case Err(e) => Err(BadAnchorFile(e))
    case Ok(None) => Judged(VerifyFrom(w, store.StartPoint(), store.rows))
    case Ok(Some(newest)) => Judged(VerifyWithAnchor(w, newest, store.StartPoint(), store.rows))
  }

  function Judged(r: Result<Verified, ChainBreak>): Result<Verified, Failure> {
    match r
    case Err(b) => Err(Broken(b))
    case Ok(v) => Ok(v)
  }

  /** The first readable anchor in the file with this sequence number. */
  function AnchorAt(json: Json, lines: seq<string>, seqNo: nat): Option<Anchor> {
    if lines == [] then None
    else
      match Parse(json, lines[0])
      case Ok(a) => if a.seqNo == seqNo then Some(a) else AnchorAt(json, lines[1..], seqNo)
      case Err(_) => AnchorAt(json, lines[1..], seqNo)
  }

  /** `ciphr audit verify --anchor FILE`: against the newest anchor, and against the one at the cut. */
  function VerifyChain(w: Wire, json: Json, store: Store, anchors: string): Result<Verified, Failure> {
    match Latest(json, anchors)
    case Err(e) => Err(BadAnchorFile(e))
    case Ok(None) => Err(NoAnchor)
    case Ok(Some(newest)) =>
      var verified :- Judged(VerifyWithAnchor(w, newest, store.StartPoint(), store.rows));
      var atCut := if store.cuts == [] then None else AnchorAt(json, Text.Lines(anchors), store.CutSeq());
      if atCut.None? then Ok(verified)
      else
        match VerifyWithAnchor(w, atCut.value, store.StartPoint(), store.rows)
        case Err(b) => Err(Broken(b))
        case Ok(_) => Ok(verified)
  }

  function Appended(json: Json, anchors: string, anchor: Anchor): string {
    anchors + Encode(json, anchor) + "\n"
  }

  /** A check reads the lines of the anchor file, not the text. */
  lemma SameLinesSameAnswer(w: Wire, json: Json, store: Store, anchors: string, others: string)
    requires Text.Lines(anchors) == Text.Lines(others)
    ensures VerifyChain(w, json, store, anchors) == VerifyChain(w, json, store, others)
  {
  }

  lemma BadNewestLineAnswers(w: Wire, json: Json, store: Store, anchors: string, e: AnchorError)
    requires Latest(json, anchors) == Err(e)
    ensures VerifyChain(w, json, store, anchors) == Err(BadAnchorFile(e))
    ensures forall keep, covered :: PlanCut(w, json, store, anchors, keep, covered) == Err(BadAnchorFile(e))
    ensures forall nowMillis :: AnchorToTake(w, json, store, anchors, nowMillis) == Err(BadAnchorFile(e))
  {
  }

  /**
   * A crash inside the append of an anchor leaves a file that every command refuses, unless
   * nothing of the line or all of it but the line break was written.
   */
  lemma TornAnchorAnswers(w: Wire, json: Json, store: Store, anchors: string, anchor: Anchor, kept: nat)
    requires json.Lawful() && json.NoPrefixParses() && Text.EndsLine(anchors) && anchor.seqNo > 0
    requires kept <= |Encode(json, anchor)|
    ensures VerifyChain(w, json, store, anchors + Torn(json, anchor, kept)) ==
            if kept == 0 then VerifyChain(w, json, store, anchors)
            else if kept < |Encode(json, anchor)| then Err(BadAnchorFile(AnchorError.Malformed))
            else VerifyChain(w, json, store, Appended(json, anchors, anchor))
    ensures 0 < kept < |Encode(json, anchor)| ==> forall keep, covered ::
              PlanCut(w, json, store, anchors + Torn(json, anchor, kept), keep, covered) ==
              Err(BadAnchorFile(AnchorError.Malformed))
  {
    var torn := Torn(json, anchor, kept);
    if kept == 0 {
      assert anchors + torn == anchors;
    } else {
      LinesAfterTorn(json, anchors, anchor, kept);
      if kept < |Encode(json, anchor)| {
        ParseOfTorn(json, anchor, kept);
        BadNewestLineAnswers(w, json, store, anchors + torn, AnchorError.Malformed);
      } else {
        LinesAfterAppend(json, anchors, anchor);
        assert torn == Encode(json, anchor);
        SameLinesSameAnswer(w, json, store, anchors + torn, Appended(json, anchors, anchor));
      }
    }
  }

  /** `ciphr audit anchor --out FILE`: the anchor that it will append to the file it has read. */
  function AnchorToTake(w: Wire, json: Json, store: Store, anchors: string, nowMillis: int): Result<Anchor, Failure> {
    var verified :- CheckTrail(w, json, store, anchors);
    if verified.headSeq == 0 then Err(EmptyChain) else Ok(Over(verified, nowMillis))
  }

  /** What a cut has decided before it changes anything. */
  datatype Plan = Plan(prefix: Verified, remainder: seq<StoredRecord>)

  /**
   * The checks before a cut; `None` means there is nothing to remove. `covered` is whether every
   * record to be removed was found in the archive, or the operator said it need not be looked for.
   */
  function PlanCut(
      w: Wire, json: Json, store: Store, anchors: string, keep: nat, covered: bool): Result<Option<Plan>, Failure> {
    var _ :- CheckTrail(w, json, store, anchors);
    if |store.rows| <= keep then Ok(None)
    else
      var removing := |store.rows| - keep;
      PlanFrom(VerifyFrom(w, store.StartPoint(), store.rows[..removing]), store.rows[removing..], covered)
  }

  function PlanFrom(prefix: Result<Verified, ChainBreak>, remainder: seq<StoredRecord>, covered: bool)
    : Result<Option<Plan>, Failure>
  {
    match prefix
    case Err(b) => Err(Broken(b))
    case Ok(v) => if !covered then Err(CutRefused(NotArchived)) else Ok(Some(Plan(v, remainder)))
  }

  /** `archive` holds the contents of the files read, or `None` for `--assume-archived`. */
  ghost predicate Covered(w: Wire, rows: seq<StoredRecord>, keep: nat, archive: Option<seq<string>>) {
    archive.Some? && |rows| > keep ==>
      forall h :: h in Archive.Asked(w, rows[..|rows| - keep]) ==> Archive.InFiles(w, archive.value, h)
  }
}
