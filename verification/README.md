# Ciphr: a verified model of its audit trail, codecs, authorization and exports

This project models the parts of Ciphr whose correctness is an argument over many functions or over
a whole run, and proves those arguments for every input and every run.

* **The audit trail.** `Chain`, `Sink` and `SinkRuns` model the sink that writes each record to
  devices that fail independently, advances one hash chain only if some device stored the record, and
  stops devices that missed one, also at a restart; `SinkAnswers` is what its callers are told and what
  the records hold. `Verify` and `Anchor` model what a reader checks, `BreakKinds` what each kind of
  tampering is reported as, and `Tampering` what an accepted check proves about a store.
  `Cut`, `CutRuns` and `CutTool` model `ciphr audit cut` beside a live service, with crashes between
  its steps; `LateAnchors` adds the anchors that other commands append meanwhile, `Evidence` what
  becomes of the removed records, and `ServiceRuns` runs the sink and the commands together.
  `FileDevice`, `TailReader`, `FileRuns` and `FileRotations` model the file device, `FileSink` and
  `FileTrails` put the sink on top of it, and `Archive` is the search for its archives and for the
  records in them.
* **Codecs and time.** `Hex`, `Base64Url`, `Token`, `Calendar`, `Timestamp`.
* **Envelope encryption.** `Utf8` and `Envelope`: the authenticated data and what decryption answers.
* **Authorization.** `Path`, `Pattern`, `Policy`, `PolicyOrder`, `Evaluate`; `WrittenPolicy` and
  `LoadErrors` say in the words of the file what it grants and why it is refused.
* **Exports.** `EnvName`, `Export`, and three readers: `EnvFile` (an Actions runner), `Shell` (a POSIX
  shell) and `DotenvFile` (Ciphr's own importer).
* `Basics` and `Text` hold what the others share.

Code that changes things step by step is imperative here too: the sink, the chain, the file device and
the cutting command are classes, and loops are loops with invariants. Each such method is proved equal
to a function on values, and the lemmas are about that function.

## Parameters and assumptions

* `Wire` bundles SHA-256 and the JSON layer. Nothing is assumed of the hash: tamper results read
  "equal, or here are two stored payloads that collide". Of JSON only what `Wire.Lawful` says: a
  rendered record is one line that begins with `{` and ends with `}`, and its number, predecessor, time
  and entry are read back. `Anchor.Json.Lawful` says the same of an anchor line.
* A device's answer to a write, a rename, an open and the part of a line that a failing write leaves
  are chosen by the environment. A failed write of a sink's device stores nothing; `FileSink` proves
  when a file meets this (exactly when no part of a line stays behind) and that a run of the sink over
  files is then a run of the sink over devices. There a refused record may still have rotated a file,
  which on devices is the loss of its records before the record is offered.
* `Unicode` bundles NFC and the alphanumeric property. `Unicode.Lawful` assumes that NFC is idempotent,
  is decided segment by segment because `/` does not combine, and leaves ASCII letters alone.
* `Aead` is any pair of functions. `Aead.Correct` says that what was sealed opens; `Aead.Binding` is
  the ideal that it opens under nothing else. `Envelope.RelocationIsForgery` needs only the former.
* TOML is already parsed. Random bytes are arguments, so results hold for any of them.
* Text of files, tokens, hexadecimal and base64url is one `char` per byte. Paths, values and patterns
  are sequences of Unicode scalar values, and their length limits are counted in UTF-8 bytes.

## Where the code and its documentation differ

* `hex::decode_into` documents that a rejected input leaves the buffer alone; it writes as it goes
  (crates/ciphr-core/src/hex.rs:47-51). `Hex.RejectionKeepsEveryBufferIff` and
  `Hex.RejectionKeepsBufferIff` say exactly when the claim holds.
* `Token::parse` is documented to answer every input; splitting at byte 8 panics inside a character
  (crates/ciphr-crypto/src/token.rs:163). `Token.ParseAnswersIff` says exactly when it answers.
* `parse_dotenv` says that an export comes back unchanged (crates/ciphr-cli/src/formats.rs:74-76); it does
  not undo the escape of a single quote. `DotenvFile.RoundTripIff` says exactly when it comes back.
* A rotation stamp is recognized again only in the years 0000 to 9999 (`Archive.RotationIsRecognizedIff`).
* Quarantine is by device name, so two devices of one name can stop each other and with them the whole
  sink. `SinkRuns.RunsStayAliveIff`: no run can do that exactly when the names are distinct.
* A restart compares only sequence numbers and never stops a device whose head cannot be read. It keeps
  a sink safe exactly under the condition of `SinkRuns.RestartKeepsSafeIff`.
* `ciphr audit anchor` reads the table and appends later. `LateAnchors.PublishIsSafeIff` says exactly
  which late appends leave an anchor file that every later check still accepts.
* A device with an empty file is let back in (crates/ciphr-audit/src/device.rs:186-191), also when a
  rotation emptied it and the write after it failed. `FileTrails.RestartKeepsStretchIff` says exactly
  after which restarts its archives and its live file can still have no gap between them.
* The append of an anchor line is not atomic. `CutRuns.TornAnchorVerifiesIff` says after which crashes
  inside it the anchor file is still accepted; after the others every command refuses it.

## Model

| member | source | states |
|---|---|---|
| `Chain.Chain.Encode` | crates/ciphr-audit/src/chain.rs:137-158 | Encoding gives the record the chain's next number and predecessor, holds the entry and the text of the time, and advances nothing. |
| `Chain.Chain.Commit` | crates/ciphr-audit/src/chain.rs:165-173 | Committing the expected record moves the chain to the number after it and to its hash. |
| `Chain.RecordHolds` | crates/ciphr-audit/src/chain.rs:137-158 | What can be read from an encoded record is the entry it was encoded for, the text of its time, its number and the predecessor in hexadecimal. |
| `Sink.AuditSink.Open` | crates/ciphr-audit/src/device.rs:169-213 | No device is refused; otherwise a device is stopped at start exactly if it reads a head other than the chain's, with what it holds and what it misses. |
| `Sink.AuditSink.Record` | crates/ciphr-audit/src/device.rs:260-312 | The loops over the devices give exactly the new sink and answer of `Recorded`: all refused changes nothing, otherwise every refusing device is stopped. |
| `SinkRuns.RunsStaySafe` | crates/ciphr-audit/src/device.rs:169-312 | Over any records, failures, losses of first records (archivings and cuts) and restarts at the committed head, every device holds a gapless run of committed records, and one that is written to holds the newest. |
| `SinkRuns.SafeDeviceVerifies` | crates/ciphr-audit/src/device.rs:143-155 | In every safe state whatever a device holds was committed and is accepted by `verify_from` from its own first record to its last. |
| `SinkRuns.RestartKeepsSafeIff` | crates/ciphr-audit/src/device.rs:176-210 | A restart keeps the sink safe exactly when it resumes at the committed head and each device out of step can report its head. |
| `SinkRuns.RecordExtendsTrailIff` | crates/ciphr-audit/src/chain.rs:137-173 | A record encoded at some head extends a valid trail exactly when that head is the trail's. |
| `SinkRuns.HeldHeadIsCommittedHeadIff` | crates/ciphr-store/src/audit.rs:152-176 | The head read from a device, empty or not, is the committed head exactly when that device missed nothing. |
| `SinkRuns.ResumeKeepsSafeIff` | crates/ciphr-audit/src/device.rs:169-210 | A restart that resumes at the head of a device keeps the sink safe exactly when that device missed nothing and each device that did can report its head. |
| `SinkRuns.RefusedRecordChangesNothing` | crates/ciphr-audit/src/device.rs:260-290 | A record is refused exactly when no device that may be written to accepts it, and then the chain, every device and every quarantine are as they were. |
| `SinkRuns.RunCommitsConsecutively` | crates/ciphr-audit/src/device.rs:260-312 | Over any run, refusals and restarts included, the committed sequence numbers are 1, 2, 3 and so on. |
| `SinkAnswers.RunRecordsWhatWasAsked` | crates/ciphr-audit/src/device.rs:260-312 | Over any run of a new sink, what is read from the committed payloads is the entry and the time of the requests answered with success, in order, and each caller was told its record's number and hash. |
| `SinkAnswers.RunLinksRecords` | crates/ciphr-audit/src/chain.rs:103-173 | Over any run of a new sink each payload names as predecessor the hash of the payload before, the first 64 zeros. |
| `SinkAnswers.RecordsReachAll` | crates/ciphr-audit/src/device.rs:260-302 | While nothing is lost and nothing restarts, each device in use holds every committed record. |
| `SinkAnswers.AnswerTellsFailures` | crates/ciphr-audit/src/device.rs:266-312 | A successful answer names exactly the devices that were asked and refused, and lists exactly the stops that the record caused. |
| `SinkAnswers.RefusalTellsFailures` | crates/ciphr-audit/src/device.rs:260-290 | A record is refused exactly when each device is stopped or refuses, and the refusal names those that refused. |
| `SinkAnswers.RunsKeepStopsTrue` | crates/ciphr-audit/src/device.rs:127-142 | With distinct names, over any run, what a stop says is true of its device: its name, the last record it holds, the first that it missed. |
| `SinkRuns.StoppedStaysStopped` | crates/ciphr-audit/src/device.rs:266-272 | Until a restart, a stopped device stays stopped for the same reason and gains no record: what it holds is a suffix of what it held. |
| `SinkRuns.AliveAfterRecordIff` | crates/ciphr-audit/src/device.rs:294-302 | After a committed record some device is written to exactly when one accepted it and no refusal carries its name. |
| `SinkRuns.RunsStayAlive` | crates/ciphr-audit/src/device.rs:260-312 | With distinct names, a safe sink that writes to one device writes to at least one in every run. |
| `SinkRuns.RunsStayAliveIff` | crates/ciphr-audit/src/device.rs:294-302 | A safe sink that writes to one device writes to one in every admissible run exactly if its devices have distinct names. |
| `SinkRuns.SharedNameStopsEveryone` | crates/ciphr-audit/src/device.rs:294-302 | From any state in which two devices share a name, an admissible run ends with no device written to. |
| `SinkRuns.SharedNameCanStopEveryone` | crates/ciphr-audit/src/device.rs:294-302 | Two devices of one name, one record and one refusal: no device is left. |
| `SinkRuns.FreshSinkIsSafe` | crates/ciphr-audit/src/device.rs:169-213 | A sink opened over empty devices at the start of the chain is safe. |
| `Verify.Verify` | crates/ciphr-audit/src/verify.rs:143-222 | The loop that carries predecessor, expected number, count and head answers what the recursive judgement of the run answers. |
| `Verify.VerifyAcceptsIffSound` | crates/ciphr-audit/src/verify.rs:143-222 | `verify` accepts exactly the runs whose every record parses, numbers on, names its predecessor's hash and agrees with its stored hash, and reports their count and head. |
| `Verify.VerifyReportsFirst` | crates/ciphr-audit/src/verify.rs:143-222 | Otherwise it names the first unsound record and the first check that it fails; `BreakKinds.BreakKindIff` says which kind of break that is. |
| `BreakKinds.BreakKindIff` | crates/ciphr-audit/src/verify.rs:143-222 | For the first unsound record, one condition on its own fields for each kind of break, with the numbers that the break reports. |
| `BreakKinds.WrongFirstIsGap` | crates/ciphr-audit/src/verify.rs:230-247 | Against a start, a run that begins at another number is a gap at its first record. |
| `BreakKinds.EditIsHashMismatch` | crates/ciphr-audit/src/verify.rs:189-203 | Editing a payload of a sound run under its header is reported at that record as a wrong hash, or the two payloads collide. |
| `BreakKinds.EditWithoutHashBreaksNext` | crates/ciphr-audit/src/verify.rs:175-203 | Where no hash is stored it is reported at the next record as a wrong predecessor, or the two payloads collide. |
| `BreakKinds.RemovalIsGap` | crates/ciphr-audit/src/verify.rs:150-165 | Removing a record from the middle is reported as a gap at the one after it. |
| `Verify.VerifyComposes` | crates/ciphr-audit/src/verify.rs:230-247 | Verifying a concatenation is verifying the second part as after a cut at the first part's head. |
| `Verify.HeadCommitsToRun` | crates/ciphr-audit/src/verify.rs:230-247 | Two accepted runs from one start with one head hash have the same payloads, or two of their payloads collide. |
| `Verify.HeadCommitsUpToPredecessor` | crates/ciphr-audit/src/verify.rs:143-222 | Without a checked first number, the longer run may also reach the head through a payload that hashes to the predecessor, and nothing else. |
| `Anchor.ParseOfEncode` | crates/ciphr-audit/src/anchor.rs:171-217 | An encoded anchor is parsed back. |
| `Anchor.EncodedFields` | crates/ciphr-audit/src/anchor.rs:162-187 | Field by field, an encoded anchor over a verified run is format version 1, the text of the time, the head's number and its hash in hexadecimal. |
| `Anchor.ParsedAnchorIff` | crates/ciphr-audit/src/anchor.rs:189-217 | A line is an anchor exactly if it has format version 1, a number from one on and 32 bytes of hash. |
| `Anchor.LatestAfterAppend` | crates/ciphr-audit/src/anchor.rs:239-262 | After appending an anchor to a file that ends its line, it is the file's latest. |
| `Anchor.LatestIs` | crates/ciphr-audit/src/anchor.rs:239-262 | The newest anchor is what the last line that is not blank gives, an error if that is none, and a file of blank lines has none. |
| `Anchor.OverAnchorsPrefix` | crates/ciphr-audit/src/anchor.rs:162-168 | An anchor over a verified prefix of a chain carries the number and hash of that prefix's last record. |
| `Anchor.AcceptedAnchorPinsRecords` | crates/ciphr-audit/src/anchor.rs:277-335 | An anchor accepted inside the run pins every surviving record up to it and the predecessor the start claims to those of the anchored chain, or two payloads collide. |
| `Anchor.AcceptedAnchorPinsCut` | crates/ciphr-audit/src/anchor.rs:277-310 | An anchor accepted at the cut pins the predecessor hash the start claims. |
| `Anchor.RemainderVerifies` | crates/ciphr-audit/src/verify.rs:84-112 | What follows any prefix of an accepted chain is accepted from the cut at that prefix, with the same head. |
| `Anchor.HonestGrowthIsAcceptedIff` | crates/ciphr-audit/src/anchor.rs:277-335 | After any growth and cut of an anchored chain the anchor is accepted exactly when it is not behind the cut; behind it the answer is that it is unreachable. |
| `Anchor.AnchorAnswers` | crates/ciphr-audit/src/anchor.rs:277-335 | Against a run that verifies, an anchor is compared with the claimed hash at the cut, with its record inside the run, and is unreachable elsewhere; a mismatch names the anchored hash and then the actual one. |
| `Tampering.AcceptedStoreHoldsHistory` | crates/ciphr-cli/src/main.rs:2228-2257 | Whatever was done to the store, if it is accepted against anchors honestly taken over a history it holds that history up to the newest anchor, or two payloads collide. |
| `Tampering.AcceptedCutIsTrue` | crates/ciphr-cli/src/main.rs:2228-2257 | If the file holds the anchor of the cut, an accepted store claims the true cut: its number and its hash. |
| `Cut.StoreCutIff` | crates/ciphr-store/src/audit.rs:314-405 | Each refusal is given exactly in its case: no such row, another hash, no row above, a cut at or above; otherwise the cut is carried out. |
| `Cut.StoreCutKeeps` | crates/ciphr-store/src/audit.rs:314-405 | A cut that is carried out keeps exactly the rows above it, in their order, and adds its own row with the count of those removed. |
| `Tampering.CutPlannedIff` | crates/ciphr-cli/src/main.rs:2488-2560 | A cut is planned exactly over a trail that verifies against the newest anchor, has more rows than are kept, and is archived or waived; what is planned is its oldest rows. |
| `Tampering.AnchorTakenIff` | crates/ciphr-cli/src/main.rs:2316-2360 | An anchor is taken exactly over a proven trail that is not empty, and over its head. |
| `Tampering.NotContinuedIff` | crates/ciphr-store/src/audit.rs:152-176 | A restart refuses a table that is empty after a cut, and one that ends at or before its cut. |
| `Cut.TornAnchorAnswers` | crates/ciphr-cli/src/main.rs:2387-2430 | After a crash inside an anchor's append, verification and cut refuse the file exactly if a proper part of the line was written. |
| `CutRuns.EveryStateVerifies` | crates/ciphr-cli/src/main.rs:2488-2604 | In every state that any interleaving of appends, one cut at a time, crashes and any number of anchors reaches, whose appends are timely, `audit verify` against the anchor file succeeds once it holds an anchor, a cut store has one, and removed plus kept is the history. |
| `CutRuns.StepKeepsGood` | crates/ciphr-cli/src/main.rs:2488-2604 | Each single step (append, reading and timely appending an anchor, plan, anchor of the prefix, delete, anchor of the head, crash) keeps the invariant behind that. |
| `LateAnchors.PublishVerifiesIff` | crates/ciphr-cli/src/main.rs:2316-2360 | After an anchor is appended that was read earlier, verification succeeds exactly if it is not behind the cut, and otherwise answers that it is unreachable. |
| `LateAnchors.PublishIsSafeIff` | crates/ciphr-cli/src/main.rs:2316-2360 | Every state of every later run verifies exactly if the anchor was behind neither the cut that was made nor the one about to be made. |
| `Evidence.RemovedIsArchived` | crates/ciphr-cli/src/main.rs:2442-2480 | If every cut of a run was made against an archive, each record ever removed has a line with its payload's hash in a file that a cut read. |
| `ServiceRuns.ServiceVerifies` | crates/ciphr-audit/src/device.rs:260-312 | After any run of records, failures, rotations, commands, crashes and restarts, what the table holds and what was cut from it are what the sink committed, verification answers that trail's number and hash, and while the store is written to they are the sink's head, where a restart resumes. |
| `ServiceRuns.NextContinues` | crates/ciphr-audit/src/chain.rs:137-158 | The record that a safe sink encodes next continues the history of what it committed. |
| `ServiceRuns.ResumesAtHeadIff` | crates/ciphr-store/src/audit.rs:152-176 | A restart resumes at the committed head, after any cuts, exactly when the store missed nothing. |
| `CutRuns.TornAnchorVerifiesIff` | crates/ciphr-cli/src/main.rs:2412-2430 | In a good state a file with the torn anchor of a planned cut verifies exactly if nothing of the line, over an older anchor, or all of it was written. |
| `CutRuns.PlannedCutIsNotRefused` | crates/ciphr-store/src/audit.rs:314-405 | The store carries out a cut that was planned over a sound trail, however many records arrived since: it removes exactly the records up to the cut. |
| `CutRuns.PlanOfGood` | crates/ciphr-cli/src/main.rs:2488-2560 | What the command decides before it changes anything: nothing to remove, not archived, or the cut that keeps the newest records. |
| `CutRuns.GoodStateVerifies` | crates/ciphr-cli/src/main.rs:2228-2257 | In a good state verification answers the rows' count and the head of the whole history, and refuses only for want of an anchor. |
| `CutRuns.GoodStoreContinues` | crates/ciphr-store/src/audit.rs:152-176 | A restart after any cut continues the chain at the end of the whole history. |
| `CutRuns.CutsCompose` | crates/ciphr-store/src/audit.rs:314-405 | Two cuts leave the rows, the start and the total removed that the later one alone leaves. |
| `CutTool.Deployment.CutTrail` | crates/ciphr-cli/src/main.rs:2488-2604 | The command, with records arriving between its steps and a crash after any of them, ends as `EndingOf` says and has exactly the effect of the listed steps in order. |
| `CutTool.Deployment.RequireArchived` | crates/ciphr-cli/src/main.rs:2442-2480 | The check passes exactly when the operator waives it or each record to be removed has a line with its payload's hash. |
| `CutTool.CutTrailKeepsGood` | crates/ciphr-cli/src/main.rs:2488-2604 | Wherever the command stops, it leaves a good state good. |
| `CutTool.PlannedCutSucceeds` | crates/ciphr-cli/src/main.rs:2488-2604 | In a good state a planned cut ends as done, or crashed where a crash was chosen, and never fails, whatever is appended meanwhile. |
| `FileDevice.FileDevice.Rotate` | crates/ciphr-audit/src/file.rs:97-143 | The loop over stamps picks the first free name, and the rename and reopening change the directory and the tracked size as `AfterRotate` says in each failure case. |
| `FileDevice.FileDevice.Write` | crates/ciphr-audit/src/file.rs:242-290 | A write rotates first if the line would pass the limit, and stores the line or cuts back what it left. |
| `FileDevice.FileDevice.HeadSeq` | crates/ciphr-audit/src/file.rs:171-240 | For any positive block size the head is the `seq` field of the last line, none for no line, an error for a line without it. |
| `TailReader.LastLine` | crates/ciphr-audit/src/file.rs:190-220 | Reading blocks backwards, for every content and every positive block size, ends and finds the text after the last line break once trailing line breaks are dropped. |
| `FileRuns.RunConservesLines` | crates/ciphr-audit/src/file.rs:97-290 | Over any writes, rotations and failures that are cut back, the files in creation order are the original content and then exactly the accepted lines, each whole in one file, under distinct names. |
| `FileRuns.StepKeepsValidIff` | crates/ciphr-audit/src/file.rs:242-290 | A step keeps whole lines, tracked size and bounds exactly unless it leaves part of a line that is not cut back. |
| `FileRuns.RunKeepsFilesBounded` | crates/ciphr-audit/src/file.rs:242-262 | A file that began empty holds the lines accepted into it and exceeds the limit only if that is a single one; `written` is the open file's length. |
| `FileRotations.RotatesIff` | crates/ciphr-audit/src/file.rs:242-262 | A write rotates exactly when a limit is set, the open file is not empty, and the file with the line would exceed the limit. |
| `FileRotations.RotationIs` | crates/ciphr-audit/src/file.rs:97-143 | A rotation takes the name of its moment with the least counter up to 100 that is free, after the number of the last record in the file, or fails because all are taken. |
| `FileRotations.ArchiveIsNamedAfterLast` | crates/ciphr-audit/src/file.rs:97-143 | The archive that a rotation makes is named after the last record in it. |
| `FileRotations.ArchivesAreFull` | crates/ciphr-audit/src/file.rs:242-262 | Over whole runs each archive, together with the line whose write closed it, exceeds the limit. |
| `FileRuns.ClosedFilesStay` | crates/ciphr-audit/src/file.rs:97-143 | A file that is neither live nor open is never replaced and never grows. |
| `FileRuns.WriteIsDeviceWrite` | crates/ciphr-audit/src/file.rs:242-290 | A write stores the record as a line after what the open file held, or leaves that as it was; a rotation on the way starts from nothing. |
| `FileRuns.HeadIsLastAccepted` | crates/ciphr-audit/src/file.rs:171-240 | The head read back from disk is the last record accepted into the live file. |
| `FileSink.WriteBacksIff` | crates/ciphr-audit/src/file.rs:242-290 | If a file holds a device's records, then after a write it holds what the device holds, one to a line, exactly unless part of a line stays behind. |
| `FileSink.HeadOfBacked` | crates/ciphr-audit/src/file.rs:171-240 | The head read from such a file is the head of the device's records, or the file cannot be opened under its name. |
| `FileSink.RecordShadows` | crates/ciphr-audit/src/device.rs:260-312 | A record over files is, on devices, the loss of what was rotated away and then a record that the same devices accept. |
| `FileSink.RestartShadows` | crates/ciphr-audit/src/device.rs:169-213 | A restart over files is an admissible restart of the sink on devices. |
| `FileSink.RunShadows` | crates/ciphr-audit/src/device.rs:169-312 | So over any run the files hold what the devices of a safe sink hold. |
| `FileSink.FilesHoldCommittedStretches` | crates/ciphr-audit/src/device.rs:143-312 | From empty files, after any run of records, rotations, failures and restarts, each open file is a gapless stretch of the committed records that verifies, and one that is written to holds the newest. |
| `FileTrails.FilesHoldOneStretch` | crates/ciphr-audit/src/file.rs:97-290 | A device's archives in order and then its live file are one gapless stretch of the committed records that verifies, up to the newest while it is written to, over any run that never lets it back in behind its archives. |
| `FileTrails.RestartKeepsStretchIff` | crates/ciphr-audit/src/device.rs:176-196 | After a restart that stretch stays gapless, whatever is recorded then, exactly if a device with an empty file stored nothing or has archived the newest record. |
| `Archive.RotationIsRecognizedIff` | crates/ciphr-audit/src/archive.rs:178-230 | Each name a rotation can produce is recognized exactly in the years 0000 to 9999. |
| `Archive.NameIsRecognizedIff` | crates/ciphr-audit/src/archive.rs:100-230 | The names taken for a device's files are the live file's and those made of it, a stamp laid out as a date, and nothing, a number, or a number and a counter. |
| `Archive.CoverageOf` | crates/ciphr-audit/src/archive.rs:240-277 | Found plus missing is the number of distinct payload hashes asked about; missing are, sorted, the records no line has the hash of, despite the early end of a file's scan; lines read are each file's lines up to the one that leaves nothing to look for. |
| `Archive.MissingIffNoLine` | crates/ciphr-audit/src/archive.rs:240-277 | A record told apart from the others is missing exactly when no line of any file has its hash. |
| `Archive.OwnFilesCoverAccepted` | crates/ciphr-audit/src/archive.rs:116-160 | Asked about any records a file device accepted, its own files leave none missing. |
| `Calendar.SuccessorIsNextDay` | crates/ciphr-audit/src/time.rs:47-65 | For every day count the date is valid and the next day count has the Gregorian next day. |
| `Calendar.FallbacksAreUnreachable` | crates/ciphr-audit/src/time.rs:59-64 | Day and month always fit, so neither fallback value is ever used. |
| `Calendar.EpochIsFirstOfJanuary1970` | crates/ciphr-audit/src/time.rs:42-47 | Day zero is the first of January 1970. |
| `Timestamp.TextHasShape` | crates/ciphr-audit/src/time.rs:26-40 | In the years 0000 to 9999 the text has the 24 characters of section 5.6 of RFC 3339 with milliseconds. |
| `Timestamp.TextReadsBack` | crates/ciphr-audit/src/time.rs:26-40 | The text read back is the moment: year, month and day of its day count, and a time of day that makes up the rest in milliseconds. |
| `Timestamp.TextOrderIsTimeOrder` | crates/ciphr-audit/src/time.rs:26-40 | In those years an earlier moment has the smaller text. |
| `Hex.Encode` | crates/ciphr-core/src/hex.rs:18-26 | The loop appends the two digits of each byte. |
| `Hex.DecodeInto` | crates/ciphr-core/src/hex.rs:37-55 | What the decoder answers, and what the buffer holds afterwards also when it refuses. |
| `Hex.DecodeOfEncode` | crates/ciphr-core/src/hex.rs:18-55 | Decoding undoes encoding. |
| `Hex.DigitsOfByte` | crates/ciphr-core/src/hex.rs:18-26 | Each byte is shown by the lower-case digit of its upper and then that of its lower half. |
| `Hex.DecodedIff` | crates/ciphr-core/src/hex.rs:37-55 | A text is read as given bytes exactly when, in lower case, it is their encoding. |
| `Hex.RefusedIff` | crates/ciphr-core/src/hex.rs:37-55 | A refusal names the expected and the found length if that is wrong, and is otherwise for a character that is no digit. |
| `Hex.RejectionKeepsBufferIff` | crates/ciphr-core/src/hex.rs:28-55 | A refused input leaves the buffer alone exactly when the length is wrong or the good pairs spell what it held. |
| `Hex.RejectionKeepsEveryBufferIff` | crates/ciphr-core/src/hex.rs:28-55 | Every buffer survives a refusal exactly when the length is wrong or the first two digits are not both digits. |
| `Hex.RejectionCanOverwriteBuffer` | crates/ciphr-core/src/hex.rs:28-55 | One input and buffer for which it does not. |
| `Base64Url.EncodeInto` | crates/ciphr-core/src/base64url.rs:48-64 | The loop over groups of three appends the encoding of the bytes. |
| `Base64Url.DecodeInto` | crates/ciphr-core/src/base64url.rs:109-135 | The decoder fills the buffer with the decoding or refuses and leaves the buffer as it was. |
| `Base64Url.EncodedLenIsExact` | crates/ciphr-core/src/base64url.rs:69-80 | The computed length is the length of the encoding. |
| `Base64Url.DecodeOfEncode` | crates/ciphr-core/src/base64url.rs:48-178 | Decoding undoes encoding for all bytes (section 5 of RFC 4648). |
| `Base64Url.EncodedShows` | crates/ciphr-core/src/base64url.rs:48-64 | Every group of three bytes, or the last one or two, is shown by the letters of Table 2 of RFC 4648 for its bits in order. |
| `Base64Url.EncodeOfDecode` | crates/ciphr-core/src/base64url.rs:109-178 | Every accepted text is the encoding of what it decodes to (section 3.5 of RFC 4648). |
| `Base64Url.AcceptedIffEncoding` | crates/ciphr-core/src/base64url.rs:109-178 | A text decodes to given bytes exactly when it is their encoding. |
| `Base64Url.RefusedIff` | crates/ciphr-core/src/base64url.rs:109-178 | A text is refused for its length, for a foreign character anywhere, or because it encodes nothing, in this order. |
| `Token.OneTextPerToken` | crates/ciphr-crypto/src/token.rs:156-202 | Each token has exactly one accepted text. |
| `Token.AcceptedTextIs` | crates/ciphr-crypto/src/token.rs:156-202 | That text is `cph_` and the base64url of the identifier and of the secret. |
| `Token.ExposeText` | crates/ciphr-crypto/src/token.rs:190-202 | The text handed out is the only one that parses to the token. |
| `Token.ParseAnswersIff` | crates/ciphr-crypto/src/token.rs:156-180 | Parsing answers exactly unless a text of the right length and prefix has a character across the split. |
| `Token.ParseCanFailToAnswer` | crates/ciphr-crypto/src/token.rs:160-164 | One such text. |
| `Path.ParsedIff` | crates/ciphr-core/src/path.rs:94-112 | A text is accepted exactly when the segments of its normal form obey the rules and it is not too long. |
| `Path.RefusedIff` | crates/ciphr-core/src/path.rs:94-112 | A refusal names the empty text, then the length, then the first segment that is refused, in this order. |
| `Path.SegmentRefusedIff` | crates/ciphr-core/src/path.rs:241-300 | A segment is refused exactly as empty, longer than 128 bytes, `.` or `..`, for a character that does not belong, or for a wildcard, in this order. |
| `Path.FirstUncleanIsNamed` | crates/ciphr-core/src/path.rs:241-270 | The first character that does not belong in a segment is the one complained about. |
| `Path.ParseIsIdempotent` | crates/ciphr-core/src/path.rs:202-212 | A parsed path parses again, to itself. |
| `Path.PathIsParsed` | crates/ciphr-core/src/path.rs:94-125 | Segments that obey the rules are the segments of the path their join parses to. |
| `Path.StartsWithIff` | crates/ciphr-core/src/path.rs:147-154 | The byte test holds exactly when the prefix's segments are the path's first segments. |
| `Pattern.Parse` | crates/ciphr-core/src/pattern.rs:90-144 | The loop over segments stops at the first that breaks a rule and answers what the recursive parser answers. |
| `Pattern.ParsedPatternIsWellFormed` | crates/ciphr-core/src/pattern.rs:90-144 | A parsed pattern has `**` last or nowhere, valid literals, and a text that renders its segments. |
| `Pattern.PatternRefusedIff` | crates/ciphr-core/src/pattern.rs:90-144 | A refusal names the empty text, then the length, then the first segment that is refused, in this order. |
| `Pattern.TextDeterminesPattern` | crates/ciphr-core/src/pattern.rs:76-80 | Two patterns of one text are the same pattern. |
| `Pattern.PathPattern.Matches` | crates/ciphr-core/src/pattern.rs:189-211 | The one linear scan decides `Accepts`. |
| `Pattern.MatchesIffInLanguage` | crates/ciphr-core/src/pattern.rs:189-211 | A path is matched exactly when it results from one segment for each `*` and one or more for a final `**`. |
| `Pattern.ExactMatchesOnlyItself` | crates/ciphr-core/src/pattern.rs:146-158 | The pattern made from a path matches that path alone. |
| `Pattern.SubtreeIffStartsWith` | crates/ciphr-core/src/path.rs:147-154 | A path's literals and `**` match exactly what starts with the path by the byte test, without the path itself. |
| `Pattern.SpecificityRespectsInclusion` | crates/ciphr-core/src/pattern.rs:213-224 | If every path that one pattern matches is matched by another, the first has at least as many literals. |
| `Pattern.NamesReservedPrefixIff` | crates/ciphr-core/src/pattern.rs:165-183 | The load-time test holds exactly for patterns that match only reserved paths. |
| `Pattern.HasWildcardIff` | crates/ciphr-core/src/pattern.rs:226-231 | A pattern has a wildcard exactly when two different paths match it. |
| `Policy.BuildPolicy` | crates/ciphr-policy/src/model.rs:250-314 | The nested loops over rules and capabilities build the policy or stop at the first error, in the source's order of checks. |
| `Policy.BuildIdentity` | crates/ciphr-policy/src/model.rs:316-352 | The loop over references builds the identity or stops at the first error. |
| `Policy.FromToml` | crates/ciphr-policy/src/model.rs:163-190 | The two loops build the whole set or nothing. |
| `Policy.LoadsIffAcceptable` | crates/ciphr-policy/src/model.rs:163-352 | A file loads exactly when every rule, policy and identity obeys the rules of the format, stated without any order. |
| `WrittenPolicy.LoadsIffWritten` | crates/ciphr-policy/src/model.rs:163-352 | A file loads exactly when its text obeys the rules, with the seven words for capabilities, the two for kinds, and `inspect` and `revoke` alone under `sys`. |
| `WrittenPolicy.LoadedKinds` | crates/ciphr-policy/src/model.rs:316-352 | Each written identity is loaded with its policies, as a machine or a human as its word says. |
| `LoadErrors.LoadErrorIsReal` | crates/ciphr-policy/src/model.rs:163-352 | Whatever fault a refusal names, the file has it: the unknown or repeated word, the repeated pattern or name, the unknown policy or kind. |
| `PolicyOrder.LoadIgnoresOrder` | crates/ciphr-policy/src/model.rs:163-352 | Writing any list of the file in another order neither breaks nor repairs it and loads the same contents. |
| `Evaluate.Evaluate` | crates/ciphr-policy/src/evaluate.rs:131-203 | Collecting, filtering, sorting, counting and finding give a decision as the rules define it over the set of matches. |
| `Evaluate.GrantsIff` | crates/ciphr-policy/src/evaluate.rs:6-17 | Access is allowed exactly when some rule matches and every matching rule of maximal specificity grants. |
| `WrittenPolicy.AllowsIffWritten` | crates/ciphr-policy/src/evaluate.rs:131-203 | Access is allowed exactly when some rule of the file that is attached to the identity covers the path, and each such rule with the most segments written out lists the literal word for the capability. |
| `Evaluate.DecisionIsUnique` | crates/ciphr-policy/src/evaluate.rs:168-203 | Effect, reason and named rule are fixed by the matches alone. |
| `Evaluate.DecisionIgnoresOrder` | crates/ciphr-policy/src/evaluate.rs:20-26 | For files that differ only in order, every decision is the same: effect, reason and named rule. |
| `Evaluate.DenialYieldsOnlyToNarrower` | crates/ciphr-policy/src/evaluate.rs:11-22 | What an explicit denial matches is allowed only by a rule with strictly more literals, which never covers all that the denial covers. |
| `Evaluate.MoreDenialNeverGrants` | crates/ciphr-policy/src/evaluate.rs:14-22 | One more explicit denial never turns a refusal into a permission. |
| `Evaluate.LoadedPatternsAreWellFormed` | crates/ciphr-policy/src/model.rs:250-260 | Every pattern of a loaded set is well formed. |
| `Evaluate.EffectiveCapabilities` | crates/ciphr-policy/src/evaluate.rs:212-221 | The listed capabilities are those that every most specific match grants. |
| `EnvName.ParseNameIff` | crates/ciphr-core/src/env_name.rs:86-109 | A name is accepted, unchanged, exactly if it is a letter or `_` and then letters, digits and `_`. |
| `EnvName.NameRefusedIff` | crates/ciphr-core/src/env_name.rs:86-109 | A text is refused as empty, for a leading digit, or for its first character that does not belong. |
| `EnvName.Assign` | crates/ciphr-core/src/env_name.rs:151-174 | The loop with its growing list answers what the recursive assignment answers. |
| `EnvName.AssignedIff` | crates/ciphr-core/src/env_name.rs:126-174 | Names are assigned exactly when all last segments are names and all differ, and then they are the last segments in order. |
| `EnvName.CollisionIsReal` | crates/ciphr-core/src/env_name.rs:159-168 | A reported collision names two paths of the set, in order, with that last segment. |
| `Export.RenderActionsEnv` | crates/ciphr-export/src/lib.rs:295-331 | The loop builds masks and assignments secret by secret, or refuses the whole. |
| `Export.HeredocDelimiter` | crates/ciphr-export/src/lib.rs:253-281 | The first of four drawn candidates that is no line of the value, or the reason there is none. |
| `Export.ShellSingleQuote` | crates/ciphr-export/src/lib.rs:353-367 | The loop yields the value in single quotes with each quote escaped. |
| `Export.RenderDotenv` | crates/ciphr-export/src/lib.rs:208-219 | The loop yields one assignment line per secret. |
| `EnvFile.ReadsBackExactly` | crates/ciphr-export/src/lib.rs:295-331 | A line-oriented reader gets back exactly the exported names and values and nothing else, whatever the values contain and whatever is drawn. |
| `EnvFile.RenderedIff` | crates/ciphr-export/src/lib.rs:253-331 | A rendering is refused exactly for unusable names, missing entropy or a value with every candidate drawn for it. |
| `EnvFile.RefusalNamesFirst` | crates/ciphr-export/src/lib.rs:253-331 | A refusal for want of a delimiter names the first secret without one, and whether its entropy ran out or all four candidates are lines of it. |
| `EnvFile.EveryLineIsMasked` | crates/ciphr-export/src/lib.rs:301-312 | Standard output holds exactly one kind of line: a mask command for each non-empty line of each value. |
| `Shell.ShellReadsBack` | crates/ciphr-export/src/lib.rs:208-219 | A shell that follows sections 2.2.1 and 2.2.2 of the Shell Command Language (POSIX.1-2017) recovers every name and value, unless a value holds a NUL. |
| `DotenvFile.ParseDotenv` | crates/ciphr-cli/src/formats.rs:39-95 | The loop over lines collects the entries or stops at the first unreadable line with its number. |
| `DotenvFile.SkippedIff` | crates/ciphr-cli/src/formats.rs:42-48 | A line is passed over exactly if it is blank or its first character that is no space is `#`. |
| `DotenvFile.AssignmentGives` | crates/ciphr-cli/src/formats.rs:50-92 | An assignment gives its name and its value without one layer of quotes, and with `export ` before it the same. |
| `DotenvFile.UnquotedIs` | crates/ciphr-cli/src/formats.rs:98-108 | One pair of equal quotes around a value is taken off, and every other value stands as it is. |
| `DotenvFile.FileGivesEntries` | crates/ciphr-cli/src/formats.rs:39-95 | A file whose every line is passed over or gives an entry gives these entries in order. |
| `DotenvFile.FileNamesLine` | crates/ciphr-cli/src/formats.rs:39-95 | A refusal names the number, counted from one, of the first line that cannot be read, and its fault. |
| `DotenvFile.ImportOfExport` | crates/ciphr-cli/src/formats.rs:39-108 | Without line breaks in the values, importing an export gives each value as it stands between its quotes. |
| `DotenvFile.RoundTripIff` | crates/ciphr-cli/src/formats.rs:74-108 | An export comes back unchanged exactly when no value has a single quote or a line break. |
| `DotenvFile.QuoteDoesNotSurvive` | crates/ciphr-cli/src/formats.rs:98-108 | One value that comes back changed. |
| `Utf8.EncodeIsInjective` | crates/ciphr-crypto/src/envelope.rs:300-302 | Different texts have different bytes. |
| `Utf8.EncodedCharCarries` | crates/ciphr-crypto/src/envelope.rs:300-302 | The bytes of a character carry its number in the shortest form (section 3 of RFC 3629). |
| `Envelope.ValueAadIsInjective` | crates/ciphr-crypto/src/envelope.rs:300-311 | Different paths, versions or data keys have different authenticated data. |
| `Envelope.ValueAadLayout` | crates/ciphr-crypto/src/envelope.rs:300-311 | Label, length of the path, path, version and data key identifier follow one another, the numbers with the highest byte first. |
| `Envelope.KeyAadLayout` | crates/ciphr-crypto/src/envelope.rs:286-298 | The authenticated data of the two key levels is the label and the identifier. |
| `Envelope.EncryptedIs` | crates/ciphr-crypto/src/envelope.rs:234-269 | What is stored is the data key sealed under the root key and the value sealed under the data key, each with its own nonce and data. |
| `Envelope.ParsedPathsFit` | crates/ciphr-crypto/src/envelope.rs:301-302 | Every parsed path fits the length field, so the length never saturates. |
| `Envelope.AadsAreDisjoint` | crates/ciphr-crypto/src/envelope.rs:286-311 | The authenticated data of the three levels never coincide. |
| `Envelope.UnwrapOfWrap` | crates/ciphr-crypto/src/envelope.rs:145-226 | A wrapped root key opens exactly under its own master key, identifier and nonce. |
| `Envelope.DecryptOfEncrypt` | crates/ciphr-crypto/src/envelope.rs:201-284 | Decryption answers the plaintext exactly for the root key, path and version of the encryption. |
| `Envelope.RelocationIsForgery` | crates/ciphr-crypto/src/envelope.rs:52-57 | Without the ideal: a value that decrypts elsewhere is an explicit forgery against the AEAD. |
| `Envelope.MixedRecordsDoNotOpen` | crates/ciphr-crypto/src/envelope.rs:201-212 | A record put together from any stored pieces decrypts only if it is one stored record, whole, at its own path and version. |

## Left out

- FileDevice.FileDevice.HeadSeq: answers a kind of error, not its message.
- Pattern.Parse: keeps the segment and its problem in an error where the source has one variant per problem.
- Chain.Chain.Encode: does not model a failure of the JSON layer, which an entry of text fields does not have.
- Evaluate.Evaluate: the library's sort is modelled as a stable insertion on a sequence, so no update in place.
- Wrap-around of 64-bit sequence numbers, sizes and milliseconds: they are unbounded integers, except that subtraction saturates at zero where the source says so.
- Real files, directory listing, permissions, fsync, SQLite and the store lock; the table's delete and its cut row are one step, and the anchor file is text that only this program appends to, line by line in the runs of `CutRuns`.
- What the next append makes of an anchor file whose last line break a crash kept from being written.
- Two cuts at once: one runs at a time, beside the service and any number of commands that take anchors.
- The check that archive and anchor files are valid UTF-8, and the wording of all error messages.
- TOML syntax and unknown keys, the JSON export, argument parsing, the viewer, the server handlers and the SDK.
- `AuditSink::reopen`, `quarantined` and `device_names`, which only hand on or list what the modelled state holds.
- Generation of tokens, keys and nonces, HMAC verifiers, zeroization and constant-time comparison.
- Expansion of unquoted shell text: the shell reader refuses unquoted characters other than those of names, quotes, backslashes and line breaks.
- Runners that also take a carriage return as a line end: the environment-file reader splits at line feeds.
- AES-GCM itself, and what a birthday collision of nonces would reveal: the AEAD is a parameter.
