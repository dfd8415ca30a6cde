# Gump, verified

A Dafny model of the stateful and byte-level core of Gump, a cluster workload placer, and proofs
about it. Each component is modelled in the form it has in the source: objects whose methods
update fields are classes with frames, loops are loops with invariants, pure code is functions.
The mutable parts are proved against a specification on values, and the laws that hold over whole
runs are lemmas about that specification.

Six parts are covered.

- **Replicated cluster state.** The command state machine with compare-and-set generations, finite
  completions, budgets and idempotency receipts. `ClusterSpec` expires receipts by an
  unconditional scan; `ClusterMachine.ClusterState` does it through its cached oldest-receipt time
  and is proved to give the same state and responses. `RamStore` applies a log and takes and
  installs snapshots. `Deploy` is the transaction that writes to both.
- **Capsule codec.** The CBOR header, the segment table, the streaming writer that patches its
  checksum afterwards, and the chunked and the buffered verifier.
- **Scheduler.** Resource vectors in machine arithmetic, hard filter, score, ledger and the
  filter/score/reserve pipeline.
- **Presence board.** Two indexes over the same presences, snapshot export and merge, and paged
  rotating delivery.
- **Effect executor.** Supervision of attempts under a fence. The driver's and the file system's
  answers are arbitrary; every driver call is recorded in a ghost trace, and the laws are stated
  over that trace.
- **Framing and transcripts.** Varint frames and the byte strings that are signed or hashed.

## Reading guide

`Prelude.dfy` holds machine integers, big-endian fields, total orders and sums over maps. Files
named `...Spec`, `...Laws` and `AgentTrace` hold specifications on values; the files beside them
hold the classes.

Modelling conventions:

- 16-byte identifiers and digests that are only compared or ordered are natural numbers, because
  bytewise order is the order of the big-endian number. Where their bytes matter they are byte
  strings of that length.
- A Rust `str` is its UTF-8 bytes: a byte sequence, or a `string` with one `char` per byte.
- BLAKE3, CRC32 and the fence hash are arbitrary function parameters. `update` calls append.
- `u8` to `u64` are subset types, and saturating, shifting and truncating operations are written
  out.
- A sorted map is a `map`; iteration over it is iteration over its keys in order.
- Times, driver answers, health-check outcomes and lost writes are parameters or arbitrary choices.
- A JSON value stands for its compact encoding; sizes of encoded records are function parameters.

The model follows the code where comments say otherwise or a reader may expect otherwise:

- `PlacementController::upsert_report` says it evicts the oldest node; it evicts the smallest id.
- A transaction of the record machine is described as one new revision; the code takes one revision
  for each operation in it.
- Reserved topics (`gump/`) are refused before a leading `#` is stripped, so `#gump/a` is accepted
  and stored, and then refused by every keeper that merges it.
- An attempt that fails while isolated becomes a permanent failure even if retries remain.
- A permanently failed attempt keeps its readiness and stays eligible for publication; only a
  scheduled retry clears them.
- A string head in a capsule header adds its length to the position unchecked. Where that sum
  passes the machine word the decoder panics; the model has an error of its own for it.

Seven promises turned out to need a condition. Each has a failing case and the exact condition
that separates it.

- Preimages of deploy requests: `DeployUnambiguousIffNulFree`.
- The capsule a repeated deploy names: `RepeatedWithAnotherCapsule`, `SuccessNamesAnotherCapsule`.
- Placement of requests for several ports: `FilterDecidesIff`, `PlaceShort`.
- Re-validation of stored topics: `StoredTopicRevalidates`, `ExportAcceptedIff`.
- Rotation reaching every match: `RotationReachesAllIff`, `OversizedRecord`.
- The start index as the number of the start, and with it the start bound: `EveryStartCountsOnIff`,
  `LaunchesBounded`, `DroppedAttemptStartsOver`.
- Header decoding without a panic: `DecodeOverflowsIff`, `OverflowingHeader`.

## Model

| member | source | states |
|---|---|---|
| `ClusterMachine.ClusterState.ExpireIdempotencyTtl` | crates/gump-memory/src/cluster_state.rs:345-360 | The cached fast path leaves exactly the receipts an unconditional scan leaves, and the cached time is then the true minimum, even if it was lost before. |
| `ClusterMachine.ClusterState.EvictOne` | crates/gump-memory/src/cluster_state.rs:363-377 | Removes the receipt with the least (time, id) and keeps the cached minimum exact. |
| `ClusterMachine.ClusterState.Record` | crates/gump-memory/src/cluster_state.rs:326-340 | The eviction loop terminates, makes room oldest first, stores the receipt and keeps the cached minimum exact. |
| `ClusterMachine.ClusterState.ApplyIdempotent` | crates/gump-memory/src/cluster_state.rs:306-342 | State and response are those of the envelope specification: replay, conflict, nested refusal, or run and record. |
| `ClusterMachine.ClusterState.DesiredTotalBytes` | crates/gump-memory/src/cluster_state.rs:575-582 | The saturating fold over the declarations is their total, capped at the machine maximum, in any order of iteration. |
| `ClusterMachine.ClusterState.PutDesired` | crates/gump-memory/src/cluster_state.rs:412-505 | In-place update equals the declaration step: every refusal in order, and otherwise the bumped generation, cleared completions and new revision. |
| `ClusterMachine.ClusterState.CompleteFinite` | crates/gump-memory/src/cluster_state.rs:506-554 | In-place update equals the completion step, refusals included. |
| `ClusterMachine.ClusterState.Apply` | crates/gump-memory/src/cluster_state.rs:291-304 | One command on the live object gives the state and response of the specification, and leaves the cached minimum exact. |
| `ClusterMachine.ClusterState.Restore` | crates/gump-memory/src/cluster_state.rs:165-184 | Deserializing restores the written fields, the default limits and an exact cached minimum. |
| `ClusterLaws.EvictsOldestFirst` | crates/gump-memory/src/cluster_state.rs:327-329 | Whatever is evicted is older, by (time, id), than everything kept; what is kept is unchanged; exactly one place is free. |
| `ClusterLaws.TotalAfterExact` | crates/gump-memory/src/cluster_state.rs:461-484 | The saturating budget comparison compares exactly the size of the new map. |
| `ClusterLaws.StepKeepsInv` | crates/gump-memory/src/cluster_state.rs:291-304 | After every command: entry, payload and byte budgets hold, every completion belongs to the current generation of an existing declaration, no receipt is over age or over the ceiling, and committed time has not gone back. |
| `ClusterLaws.RunKeepsInv` | crates/gump-memory/src/cluster_state.rs:291-304 | The same after every command log. |
| `ClusterLaws.RetainedReceiptAnswers` | crates/gump-memory/src/cluster_state.rs:312-320 | While a receipt is kept, its operation changes nothing: same digest gets the original response, another digest is refused. |
| `ClusterLaws.ReceiptLeavesOnlyByAgeOrCeiling` | crates/gump-memory/src/cluster_state.rs:326-377 | A receipt is never rewritten, and leaves only when its time plus the time to live is past, or as the oldest one evicted at the ceiling. |
| `ClusterLaws.AppliedLeavesReceipt` | crates/gump-memory/src/cluster_state.rs:325-340 | An applied command leaves a receipt with its digest, response and time. |
| `ClusterLaws.ResubmissionReplays` | crates/gump-memory/src/cluster_state.rs:306-342 | Submit, let any commands follow while the receipt is kept, submit again: the second answer replays the first and changes nothing. |
| `ClusterLaws.StepGeneration` | crates/gump-memory/src/cluster_state.rs:435-504 | A generation moves only by one, only under a declaration of that key that expected it; the stored entry is that declaration's, the response reports it, and nothing else changes the entry. |
| `ClusterLaws.EffectIffApplied` | crates/gump-memory/src/cluster_state.rs:412-505 | Below the last generation, a declaration moves its key exactly when it is answered as applied and not as a replay. |
| `ClusterLaws.DeclarationApplied` | crates/gump-memory/src/cluster_state.rs:412-505 | A declaration is applied exactly if no receipt answers it, its names and payload are well formed, it expects the current generation, there is a place, and the new map is within the byte limit; otherwise nothing changes. |
| `ClusterLaws.EffectFits` | crates/gump-memory/src/cluster_state.rs:461-484 | What took effect weighs its two names and its payload, together within the byte limit. |
| `ClusterLaws.StepCompletions` | crates/gump-memory/src/cluster_state.rs:435-554 | After every command an entry is completed exactly if the command completed it, or it was before and its key's generation did not move; completions of other keys stay. |
| `ClusterLaws.CompletionApplied` | crates/gump-memory/src/cluster_state.rs:506-554 | A completion is applied exactly if no receipt answers it, its declaration is at that generation and there is room or it was stored; then it is stored, the revision moves only if it was new, and the answer carries both numbers. A refused one changes nothing. |
| `ClusterLaws.CompletionsAreApplied` | crates/gump-memory/src/cluster_state.rs:506-554 | In every run from the empty state an entry is completed exactly when an applied completion of it followed the last effective declaration of its key. |
| `ClusterLaws.StepRevision` | crates/gump-memory/src/cluster_state.rs:291-304 | Every applied answer carries the revision it left; outside the record machine the revision moves, by one, exactly when a declaration, a completion or the controller changed. |
| `ClusterLaws.StepRecord` | crates/gump-memory/src/cluster_state.rs:392-396 | A record command moves the record machine alone; its reply decides, and its result is handed on. |
| `ClusterLaws.GenerationCountsEffects` | crates/gump-memory/src/cluster_state.rs:435-504 | In every run from the empty state a key's generation is the number of declarations of it that took effect. |
| `ClusterLaws.AtMostOneEffectPerGeneration` | crates/gump-memory/src/cluster_state.rs:435-441 | In every run, of two declarations of a key that took effect the later one expected a larger generation, receipts kept or not. |
| `ClusterLaws.StepEpoch` | crates/gump-memory/src/authority/controller.rs:63-72 | Only an applied acquisition moves the controller epoch, by one; its answer hands out the token now current, whose fence hashes epoch, holder and a fresh nonce and whose lease was granted now for ten seconds. |
| `ClusterLaws.LaterControllerLargerEpoch` | crates/gump-memory/src/authority/controller.rs:63-72 | In every run epochs never go back, and a later acquisition holds a larger one, short of the last. |
| `ClusterLaws.LoadSave` | crates/gump-memory/src/cluster_state.rs:128-184 | Reading back a snapshot gives the same state exactly when no record change is buffered. |
| `Records.ApplyKeepsInv` | crates/gump-memory/src/records/machine.rs:184-407 | Every record command, accepted or refused, leaves the usage counters equal to what the stored records weigh, class by class and within budget, and an empty change buffer. |
| `Records.RefusedLeavesRecords` | crates/gump-memory/src/records/machine.rs:184-344 | A refused command leaves records, usage and revision alone; only a refused renewal may have moved clock and leases. |
| `Records.PutApplied` | crates/gump-memory/src/records/machine.rs:355-392 | A put is taken exactly when the record is as expected, the payload within its prefix's bound and the class has room for it in place of what it replaces; then the record holds payload, digest, flag and new revision, and no other changed. |
| `Records.DeleteApplied` | crates/gump-memory/src/records/machine.rs:394-407 | A delete is taken exactly when the record is there and as expected; then it alone is gone. |
| `Records.TxnIsAllOrNothing` | crates/gump-memory/src/records/machine.rs:301-323 | A transaction picks its operations by its comparisons, and is then all of them as if sent one by one, or nothing. |
| `Records.LeasesAfter` | crates/gump-memory/src/records/machine.rs:226-298 | A time that has gone back is refused; otherwise the clock is that time, a lease runs for its purpose's time from grant or renewal, only a running one is renewed, and expiry takes and reports exactly those past it. |
| `Records.RevokeApplied` | crates/gump-memory/src/records/machine.rs:248-262 | Revoking takes exactly one lease, if it is there. |
| `Records.ApplyKeepsNumbered` | crates/gump-memory/src/records/machine.rs:184-298 | Lease ids are handed out in order, so a grant takes none in use, short of the last. |
| `RamStore.RamStateMachine.Apply` | crates/gump-memory/src/ram_store.rs:295-337 | A batch of log entries gives the state and responses of applying them one after another. |
| `RamStore.LogRunsItsCommands` | crates/gump-memory/src/ram_store.rs:295-337 | A log applied from scratch runs its commands and nothing else, answers them as the run does, and keeps the position of its last entry and of its last voter set. |
| `RamStore.RamStateMachine.BuildSnapshot` | crates/gump-memory/src/ram_store.rs:250-279 | The snapshot is the serialized state with its log position and voter set, under the next index. |
| `RamStore.RamStateMachine.InstallSnapshot` | crates/gump-memory/src/ram_store.rs:349-364 | Installing replaces everything by what the snapshot reads back to. |
| `RamStore.SnapshotThenReplay` | crates/gump-memory/src/ram_store.rs:249-364 | For every log and every cut, replaying the rest on the installed snapshot gives the state and responses of replaying it all. |
| `RamStore.FollowerCatchesUp` | crates/gump-memory/src/ram_store.rs:249-364 | The same on two live state machines, cached index and limits included. |
| `Deploy.DeployServer.PublishCapsule` | crates/gump-server/src/deploy_txn.rs:163-256 | Success means the capsule is stored under the requested digest; nothing stored is replaced; failures report no orphan. |
| `Deploy.DeployServer.RunDeployTxn` | crates/gump-server/src/deploy_txn.rs:258-350 | The cluster moves only by the request's own command; success means stored and committed, under the request's key; a stored capsule whose intent was turned away or lost is recorded as an orphan with the request's own fields; a conflict is reported only for a reused operation id; and what a success reports is true of the cluster. |
| `Deploy.ReportIsTrue` | crates/gump-server/src/deploy_txn.rs:296-350 | A fresh success reports the generation after the expected one, under which the binding and its digest now stand, and the revision that wrote it; a replayed one reports the two numbers of the kept receipt. |
| `Deploy.RetriedDeployReportsOnce` | crates/gump-server/src/deploy_txn.rs:299-350 | A deploy that was applied reports the same generation and revision on every retry while the receipt is kept, and retries change nothing. |
| `Deploy.RetriedDeployNeverDoubles` | crates/gump-server/src/deploy_txn.rs:285-350 | Once it took effect, a retry never takes effect again, receipt or not. |
| `Deploy.ReusedOperationConflicts` | crates/gump-server/src/deploy_txn.rs:69-78 | Reusing an operation id for another content, name or expected generation is reported as a conflict, unless the hash collides. |
| `Deploy.SuccessBindsIff` | crates/gump-server/src/deploy_txn.rs:258-350 | After a reported success the declaration names the request's capsule exactly when the command ran below the last generation, or the declaration named it already. |
| `Deploy.RepeatedWithAnotherCapsule` | crates/gump-server/src/deploy_txn.rs:69-78 | The digest leaves the capsule out: repeating an operation with another capsule reports success under the new key and changes nothing, so the declaration names it exactly when both bindings are encoded alike. |
| `Deploy.SuccessNamesAnotherCapsule` | crates/gump-server/src/deploy_txn.rs:258-350 | Two transactions on an empty cluster, for one operation and two capsules: both capsules are stored, each deploy succeeds under its own key unless contact is lost, and the declaration names the first capsule only. |
| `CapsuleHeader.EncodeCbor` | crates/gump-capsule/src/header.rs:23-57 | Fails exactly on a bad signer name, and otherwise appends the deterministic encoding. |
| `CapsuleHeader.DecodeCbor` | crates/gump-capsule/src/header.rs:59-144 | The cursor loop over six entries computes the decoding function, errors included; a length that carries the position past the machine word is an outcome of its own. |
| `CapsuleHeader.ItemOverflows` | crates/gump-capsule/src/header.rs:230-305 | Reading a string item overflows exactly at a head of its type whose length carries the position past the machine word; integers never do. |
| `CapsuleHeader.DecodeOverflowsIff` | crates/gump-capsule/src/header.rs:59-144 | Decoding overflows exactly when one of six entries, reached in order, has such a key or string value. |
| `CapsuleHeader.OverflowingHeader` | crates/gump-capsule/src/header.rs:230-240 | Ten bytes that overflow. |
| `CapsuleHeader.Cursor.Initial` | crates/gump-capsule/src/header.rs:242-269 | Reads an item head of any length form and advances past it. |
| `CapsuleHeader.KeysAscend` | crates/gump-capsule/src/header.rs:23-57 | The field order is the bytewise order of the encoded keys, as section 4.2.1 of RFC 8949 asks. |
| `CapsuleHeader.HeaderOffsets` | crates/gump-capsule/src/header.rs:43-56 | Which bytes of every header are dialect, capsule and cluster. |
| `CapsuleHeader.DecodeEncode` | crates/gump-capsule/src/header.rs:23-144 | Decoding inverts encoding for every valid header. |
| `CapsuleHeader.DecodeAcceptsLongerHead` | crates/gump-capsule/src/header.rs:242-269 | The converse fails for every header: another byte string decodes to it too. |
| `SegmentTable.Encode` | crates/gump-capsule/src/segment.rs:122-143 | The appended bytes are the prefix and the five rows. |
| `SegmentTable.FromHashedParts` | crates/gump-capsule/src/segment.rs:92-120 | Succeeds exactly for parts in type order that end within 64 bits, and then lays them out without gaps. |
| `SegmentTable.ParseTableBytes` | crates/gump-capsule/src/segment.rs:145-241 | Returns the contiguous table with these bytes, and fails exactly when there is none. |
| `SegmentTable.EncodedTableInjective` | crates/gump-capsule/src/segment.rs:122-143 | Two flagless tables with the same bytes are equal. |
| `SegmentTable.ParseAndVerify` | crates/gump-capsule/src/segment.rs:243-357 | Accepts a payload exactly when some table verifies it, and returns that table. |
| `SegmentTable.VerifiedUnique` | crates/gump-capsule/src/segment.rs:243-357 | At most one table verifies a payload. |
| `HexFields.ParseHex` | crates/gump-capsule/src/stream.rs:321-352 | Reads a field of exactly the given width, digit by digit, and refuses anything else. |
| `HexFields.HexOfValue` | crates/gump-capsule/src/stream.rs:321-352 | Writing the value read gives the field back, so only upper-case digits are accepted. |
| `CapsuleStream.Reader.BstrPrefix` | crates/gump-capsule/src/stream.rs:354-400 | Reads a byte-string head of any length form and keeps its bytes. |
| `CapsuleStream.ReadFraming` | crates/gump-capsule/src/stream.rs:182-230 | Succeeds exactly on framed files and returns header bytes, checksum field, payload offset and length. |
| `CapsuleStream.StreamSegment` | crates/gump-capsule/src/stream.rs:257-288 | Chunked reading feeds checksum and hash exactly the segment's bytes, at any chunk size, and fails exactly when they are missing. |
| `CapsuleStream.Verify` | crates/gump-capsule/src/stream.rs:182-319 | At any chunk size succeeds exactly on complete capsules and returns their one description; working buffers stay within header, table or chunk, and the signature it keeps within 256 KiB. It overflows exactly when header decoding does in a file that meets every earlier demand. |
| `CapsuleStream.AcceptsUnique` | crates/gump-capsule/src/stream.rs:182-319 | A file has at most one description. |
| `CapsuleStream.StreamedAndBuffered` | crates/gump-capsule/src/stream.rs:232-288 | On a well-framed file the chunked and the buffered verifier both accept or both reject, with the same table, but for a signature over the memory bound. |
| `CapsuleStream.WriteStreaming` | crates/gump-capsule/src/stream.rs:506-590 | Fails exactly on a bad signer or a payload over 64 bits, writing nothing; otherwise the file, patched checksum included, is the capsule of header, table and segments. |
| `CapsuleRoundTrip.WrittenVerifies` | crates/gump-capsule/src/stream.rs:182-319 | The verifier takes a written file exactly when its signature is within bound, and returns what was written. |
| `CapsuleRoundTrip.SegmentsInFile` | crates/gump-capsule/src/stream.rs:506-590 | Each segment stands at payload offset plus descriptor offset, with its stored length. |
| `CapsuleRoundTrip.CanonicalIsWritten` | crates/gump-capsule/src/stream.rs:506-590 | An accepted file with shortest heads is byte for byte what the writer makes of its own parts. |
| `CapsuleRoundTrip.WriteThenVerify` | crates/gump-capsule/src/stream.rs:182-590 | Streaming write then streaming verify, at any chunk size, gives back header, table, lengths, signature and every segment. |
| `Varint.EncodeVarint` | crates/gump-protocol/src/frame.rs:78-90 | The loop appends the base-128 encoding. |
| `Varint.DecodeVarint` | crates/gump-protocol/src/frame.rs:58-75 | The loop computes the reading function, shifts past bit 63 losing their high bits. |
| `Varint.ReadExactly` | crates/gump-protocol/src/frame.rs:58-75 | Reading succeeds exactly when the buffer starts with a complete varint of at most ten bytes; the error tells truncation from overflow. |
| `Varint.RoundTrip` | crates/gump-protocol/src/frame.rs:58-90 | Decoding inverts encoding for every 64-bit value, whatever follows. |
| `Framing.SplitEncoded` | crates/gump-protocol/src/frame.rs:115-136 | A frame comes back whole and nothing after it is touched. |
| `Framing.CeilingBeforePayload` | crates/gump-protocol/src/frame.rs:95-113 | Whatever complete varint announces an over-long frame, shortest or padded, the frame is refused from that prefix, with or without its payload. |
| `Framing.StreamRoundTrip` | crates/gump-protocol/src/frame.rs:115-136 | Any concatenation of frames splits back into exactly the payloads, all bytes consumed. |
| `Framing.StreamInjective` | crates/gump-protocol/src/frame.rs:115-136 | Two payload lists never share a wire form. |
| `Transcripts.BuildReleaseSigningTranscript` | crates/gump-crypto/src/transcript.rs:48-83 | Fails exactly on segments out of type order or a header too long, naming the first misplaced segment; otherwise the transcript. |
| `Transcripts.ReleaseTranscriptInjective` | crates/gump-crypto/src/transcript.rs:48-83 | A transcript determines header, table version and segment digests. |
| `Transcripts.ProtectedAadInjective` | crates/gump-crypto/src/transcript.rs:21-35 | The associated data determines its four inputs. |
| `Transcripts.HpkeInfoInjective` | crates/gump-crypto/src/transcript.rs:37-46 | The HPKE info determines capsule and cluster. |
| `Transcripts.DomainsSeparate` | crates/gump-crypto/src/transcript.rs:4-10 | The three kinds of input never coincide. |
| `Transcripts.FixedOffsets` | crates/gump-crypto/src/transcript.rs:21-46 | Which bytes of the associated data and of the HPKE info are label, capsule, cluster and digests. |
| `Transcripts.TranscriptOffsets` | crates/gump-crypto/src/transcript.rs:48-83 | Which bytes of the signing transcript are label, header length, header, version and segments. |
| `Transcripts.SegmentAt` | crates/gump-crypto/src/transcript.rs:66-83 | Segment by segment, 42 bytes each: type, stored length, digest. |
| `RequestPreimages.DeployUnambiguousIffNulFree` | crates/gump-server/src/deploy_txn.rs:69-78 | A deploy preimage determines all its fields exactly when neither name contains NUL. |
| `RequestPreimages.DeployInjective` | crates/gump-server/src/deploy_txn.rs:69-78 | With NUL-free names no other deploy has the same preimage. |
| `RequestPreimages.DeployOffsets` | crates/gump-server/src/deploy_txn.rs:69-78 | Which bytes of a deploy preimage are operation, content, names and generation. |
| `RequestPreimages.ReintroduceInjective` | crates/gump-server/src/recovery_txn.rs:169-187 | With NUL-free names a reintroduce preimage determines its fields, mode included. |
| `RequestPreimages.DeployIsNotReintroduce` | crates/gump-server/src/recovery_txn.rs:169-187 | A deploy preimage with NUL-free names is no reintroduce preimage, whatever names that one has. |
| `Resources.HardFilter` | crates/gump-scheduler/src/filter.rs:31-110 | Collects every failed requirement in order. |
| `Resources.FailuresIffInfeasible` | crates/gump-scheduler/src/filter.rs:31-110 | No reason is given exactly when every hard requirement is met. |
| `Resources.FailuresComplete` | crates/gump-scheduler/src/filter.rs:31-110 | A reason is listed exactly when it is true of the node. |
| `Resources.HeadroomIsAFifth` | crates/gump-scheduler/src/filter.rs:7-26 | What is asked of a node is exactly the request with a fifth, rounded up, on top of millicores and memory, capped by the type; nothing else is. |
| `Resources.FeasibleHasHeadroom` | crates/gump-scheduler/src/filter.rs:76-89 | Six fifths of the request are free on every feasible node, unless the type holds no more. |
| `Resources.BareRequestRefused` | crates/gump-scheduler/src/filter.rs:76-89 | A node with just the bare request free is refused, and the reason names the resource. |
| `Resources.ScoreExact` | crates/gump-scheduler/src/score.rs:9-27 | On a feasible node no saturation fires: the score is exactly what is left. |
| `LedgerSpec.RoomAddsExactly` | crates/gump-scheduler/src/ledger.rs:116-129 | With room, the saturating sum is the exact sum and stays within what is allocatable. |
| `LedgerSpec.NeverOvercommitted` | crates/gump-scheduler/src/ledger.rs:90-181 | However reserves and releases interleave, the exact sum reserved on a node never exceeds its fixed allocatable. |
| `Ledger.ResourceLedger.ReservedIsTotal` | crates/gump-scheduler/src/ledger.rs:70-75 | In every reachable ledger a node's reserved figure is the exact sum of its reservations. |
| `Ledger.ResourceLedger.Get` | crates/gump-scheduler/src/ledger.rs:81-84 | Finds exactly the units that hold a reservation. |
| `Ledger.ResourceLedger.Reserve` | crates/gump-scheduler/src/ledger.rs:90-155 | Grants exactly for a new unit with both ceilings free and capacity left; what is reserved is the request and its headroom, and was free; a denial names the first obstacle and changes nothing; totals and index stay exact. |
| `Ledger.ResourceLedger.Release` | crates/gump-scheduler/src/ledger.rs:157-181 | Removes exactly this unit's reservation and returns it; totals, index and node entries stay exact. |
| `Ledger.ResourceLedger.ReserveThenRelease` | crates/gump-scheduler/src/ledger.rs:90-181 | Releasing what was just reserved restores every field. |
| `Ledger.ResourceLedger.ReserveWithin` | crates/gump-scheduler/src/ledger.rs:90-155 | A reservation against a node's fixed allocatable is a step of the run relation and keeps every node within its allocatable. |
| `Ledger.ResourceLedger.ReleaseWithin` | crates/gump-scheduler/src/ledger.rs:157-181 | So is a release. |
| `Ledger.ResourceLedger.Drive` | crates/gump-scheduler/src/ledger.rs:90-181 | Any calls on a fresh ledger object are such a run, and leave every node within its allocatable. |
| `Placement.PlacementController.UpsertReport` | crates/gump-scheduler/src/place.rs:64-79 | At the ceiling the smallest node id makes way; with a ceiling of zero the report is refused. |
| `Placement.PlacementController.Examine` | crates/gump-scheduler/src/place.rs:92-127 | One pass finds the feasible node of greatest score and smallest id, and fills one row for each report in id order. |
| `Placement.BestUnique` | crates/gump-scheduler/src/place.rs:105-115 | That node does not depend on the order of examination. |
| `Placement.PlacementController.Place` | crates/gump-scheduler/src/place.rs:86-178 | Schedules exactly when the best node exists and the ledger takes the unit; the reservation pins its report and holds the request with its headroom, a port included if one is required; otherwise the ledger is untouched and the matrix says why. |
| `Placement.OnePortPlaceable` | crates/gump-scheduler/src/place.rs:86-178 | With at most one port, asked for only if required, a new unit and free ceilings: placed if and only if some report passes the filter. |
| `Placement.FilterDecidesIff` | crates/gump-scheduler/src/filter.rs:97-103 | A request asks for at most one port, and only if required, exactly when on every ledger, with every set of reports, the filter decides: with room for the unit it is placed if and only if some node passes. |
| `Placement.FreeMapIsFree` | crates/gump-scheduler/src/place.rs:86-127 | What a controller computes as free on its reported nodes is their allocatable less the exact sum of their reservations. |
| `Placement.RefusedForPorts` | crates/gump-scheduler/src/filter.rs:97-103 | For every other request, a node that is the only candidate and cannot take the unit. |
| `Placement.PlaceShort` | crates/gump-scheduler/src/place.rs:86-178 | The same on a live controller: the one report passes the filter and the unit is unschedulable. |
| `Topics.StoredTopicRevalidates` | crates/gump-hiccup/src/topic.rs:61-126 | A stored topic re-validates to itself exactly when it is not under `gump/`, which is exactly when it was not given as `#gump/...`. |
| `Topics.ReservedTopicSlipsThrough` | crates/gump-hiccup/src/topic.rs:91-94 | `#gump/a` is accepted, and what it is stored as is refused. |
| `Topics.CanonicalTopic` | crates/gump-hiccup/src/topic.rs:80-126 | A canonical topic is the workload's own for `@self`, and otherwise the token without its `#`, made of valid segments. |
| `Topics.ResolveTopics` | crates/gump-hiccup/src/topic.rs:137-173 | The loop computes the resolution function, first error included. |
| `Topics.ResolvedExactly` | crates/gump-hiccup/src/topic.rs:137-173 | A declaration resolves exactly when its topics are well formed and distinct, at most 32 are listened to, and it publishes or listens; what it publishes is its own topic if omitted, none if null, else the one given, and each listened topic is listed once, in order. |
| `BoardSpec.InsertedKeepsInv` | crates/gump-hiccup/src/board.rs:407-431 | Insertion keeps soundness, one node per attempt, the byte ceiling and the publisher ceiling. |
| `BoardSpec.KeyLessIff` | crates/gump-hiccup/src/board.rs:501-501 | Presences are ordered by the bytes of their topic, and on one topic by attempt. |
| `Board.PresenceBoard.InsertPresence` | crates/gump-hiccup/src/board.rs:407-431 | Replaces or adds exactly one presence, or counts an omission at a ceiling; both indexes and the byte count stay exact. |
| `Board.PresenceBoard.RemoveAttempt` | crates/gump-hiccup/src/board.rs:433-447 | Takes exactly this attempt off every topic; both indexes and the byte count stay exact. |
| `Board.PresenceBoard.FenceAttempt` | crates/gump-hiccup/src/board.rs:450-462 | Removes the attempt unless its first presence carries another fence. |
| `Board.PresenceBoard.Expire` | crates/gump-hiccup/src/board.rs:464-476 | Removes exactly the attempts that hold an expired presence. |
| `Board.PresenceBoard.Upsert` | crates/gump-hiccup/src/board.rs:350-374 | The new declaration replaces all the attempt had: with room, one presence with exactly the declared topic, stamp, data, secret and expiry, digested so; without, nothing and one counted omission. Listen-only and unhealthy attempts publish nothing. |
| `Board.PresenceBoard.UpsertCapabilities` | crates/gump-hiccup/src/board.rs:378-405 | The capability map replaces all the attempt had. It succeeds exactly if every name is a topic other than `@self`; then each is on the board unless counted as omitted; all the attempt has are capabilities of the map, with their values. |
| `BoardSpec.AdvertisedFrame` | crates/gump-hiccup/src/board.rs:378-405 | Other attempts are left alone, and what is new is an advertised capability under its own topic, with its value, visible and without secret. |
| `BoardSpec.DeclaredIsPublished` | crates/gump-hiccup/src/board.rs:350-374 | There is room exactly below the publisher ceiling and the byte ceiling; then the presence holds what was published, field by field, and nothing else changed. |
| `BoardSpec.AdvertisedComplete` | crates/gump-hiccup/src/board.rs:378-405 | A whole capability map is taken exactly if every name is a topic other than `@self`; if none was omitted, each is on the board. |
| `Board.PresenceBoard.Export` | crates/gump-hiccup/src/board.rs:169-239 | The snapshot holds the node's unexpired presences in key order, as many as the ceiling allows, and is marked complete exactly when that is all. |
| `Board.PresenceBoard.Merge` | crates/gump-hiccup/src/board.rs:243-347 | A malformed snapshot changes nothing; otherwise departed attempts go, mentioned ones are refreshed, and omissions are counted exactly. |
| `BoardSpec.IncomingExactly` | crates/gump-hiccup/src/board.rs:263-316 | Records are taken together or not at all: exactly when every unexpired one parses, re-validates and comes from its own node; what comes in is then the unexpired ones and nothing else. |
| `BoardSpec.CompleteMergeExact` | crates/gump-hiccup/src/board.rs:318-346 | With node-unique attempts and no omission, a complete snapshot makes the source node's presences exactly its unexpired records and leaves other nodes' unchanged. |
| `BoardSpec.PartialMergeExact` | crates/gump-hiccup/src/board.rs:340-346 | A partial snapshot replaces only the attempts it mentions. |
| `BoardSpec.FittingIsNotOmitted` | crates/gump-hiccup/src/board.rs:411-424 | Room for everything held and everything arriving, which can be checked beforehand, rules omissions out. |
| `BoardSpec.NoOmissions` | crates/gump-hiccup/src/board.rs:411-424 | The omission count is zero exactly when every record was admitted. |
| `BoardSpec.AbsorbedKeepsInv` | crates/gump-hiccup/src/board.rs:340-346 | Merging keeps every board invariant, whatever the records. |
| `BoardSpec.ExportThenMerge` | crates/gump-hiccup/src/board.rs:169-347 | A complete export merged elsewhere, at the same time or later, reproduces what the exporter still shows and touches nothing else. |
| `BoardSpec.ExportAcceptedIff` | crates/gump-hiccup/src/board.rs:271-272 | On a board whose topics come from declarations, such an export is accepted exactly when it shows no topic under `gump/`. |
| `BoardSpec.EveryTopicStored` | crates/gump-hiccup/src/exchange.rs:151-231 | After any declarations, capability maps, merges, expiries and removals every topic on the board came from a declaration. |
| `Board.PresenceBoard.Declare` | crates/gump-hiccup/src/exchange.rs:199-231 | Resolving and upserting on the live board is one such change; all the attempt then has holds exactly what it declared; a declaration that does not resolve takes it off. |
| `Board.PresenceBoard.Advertise` | crates/gump-hiccup/src/exchange.rs:163-181 | So is a capability map; all the attempt then has are capabilities of the map with their values; one with a bad name takes it off. |
| `Board.PresenceBoard.Receive` | crates/gump-hiccup/src/board.rs:243-347 | So is a merge. |
| `Board.PresenceBoard.Drive` | crates/gump-hiccup/src/exchange.rs:151-231 | Any changes to a fresh live board give the board of that run, and every topic on it came from a declaration. |
| `BoardSpec.RebuiltIsStored` | crates/gump-hiccup/src/board.rs:263-316 | A merge takes only topics a declaration could have made. |
| `Delivery.BuildPage` | crates/gump-hiccup/src/board.rs:531-592 | The push-then-pop loop builds a page in cyclic order from the offset, no longer than fits, with the offset to continue from. |
| `Delivery.PageIsLongest` | crates/gump-hiccup/src/board.rs:544-577 | No longer run from the same place, up to 256, would have fitted. |
| `Delivery.NoRepeatInPage` | crates/gump-hiccup/src/board.rs:544-545 | No introduction occurs twice in a page of distinct presences. |
| `Delivery.PagesTile` | crates/gump-hiccup/src/board.rs:531-592 | Following the returned offsets, the pages laid end to end are the cyclic match order: nothing skipped, nothing out of turn. |
| `Delivery.EveryMatchDelivered` | crates/gump-hiccup/src/board.rs:531-592 | If each introduction fits alone, as many pages as there are matches reach every match. |
| `Delivery.RotationReachesAllIff` | crates/gump-hiccup/src/board.rs:531-592 | From every offset, as many pages as there are matches reach all of them exactly when each fits alone. |
| `Delivery.OversizedNeverReached` | crates/gump-hiccup/src/board.rs:570-583 | An introduction that does not fit alone is in no page of any run. |
| `Delivery.StuckAtOversized` | crates/gump-hiccup/src/board.rs:570-583 | Nor does rotation get past it: there every page is empty and the offset never moves. |
| `Delivery.OversizedRecordMerges` | crates/gump-hiccup/src/board.rs:243-347 | A merged record is bounded by the snapshot alone, and a directory introduction carries its data twice: data over half the delivery ceiling is accepted, held and does not fit alone. |
| `Delivery.OversizedRecord` | crates/gump-hiccup/src/board.rs:243-347 | A snapshot whose data is a JSON string of 140 000 bytes: accepted and held, and no run ever reaches its introduction. |
| `Delivery.Deliver` | crates/gump-hiccup/src/board.rs:479-503 | The match list is sorted and holds exactly the current presences on authorized listened topics other than the listener's own, once for each listing; each message introduces a match field by field; the page never introduces the listener to itself, nor, with topics listed once, anyone twice. |
| `Delivery.IntroductionIntroduces` | crates/gump-hiccup/src/board.rs:546-563 | An introduction carries the presence's unit, attempt, address, data and secret, its topic as the listener knows it, and its value if advertised. |
| `Delivery.DeclareThenDeliver` | crates/gump-hiccup/src/board.rs:350-503 | An attempt that just declared is matched by every authorized listener of its topic, and whatever introduces it carries its data and secret. |
| `Delivery.MatchedUnique` | crates/gump-hiccup/src/board.rs:479-503 | On one board a listener's match list is the same at every call. |
| `Delivery.DeliverRepeatedly` | crates/gump-hiccup/src/board.rs:479-503 | Calls on an unchanged board that pass on the returned offset are a run over one match list; with as many calls as matches all are reached exactly when each fits alone. |
| `Delivery.DeliverDirectory` | crates/gump-hiccup/src/board.rs:508-529 | The same over every advertised capability. |
| `Delivery.DirectoryUnique` | crates/gump-hiccup/src/board.rs:508-529 | The directory's match list is the same at every call. |
| `Delivery.DeliverDirectoryRepeatedly` | crates/gump-hiccup/src/board.rs:508-529 | The same as for listened topics. |
| `Lifecycle.PassedIffHistory` | crates/gump-agent/src/lifecycle.rs:166-181 | After any outcomes the flag holds exactly when some success run reached its threshold and no later failure run reached its own, despite saturating counters. |
| `Lifecycle.CountersAreRuns` | crates/gump-agent/src/lifecycle.rs:166-181 | The counters are the current runs, capped. |
| `Lifecycle.BackoffNearBase` | crates/gump-agent/src/lifecycle.rs:94-113 | Jitter, taken from the seed, keeps the wait within its span around the capped exponential; without jitter the wait is that. |
| `Lifecycle.BaseMonotone` | crates/gump-agent/src/lifecycle.rs:98-102 | Later retries never have a smaller exponential part. |
| `Lifecycle.BaseDoubles` | crates/gump-agent/src/lifecycle.rs:98-102 | It starts at the initial wait, doubles up to the seventeenth try, and is capped. |
| `Lifecycle.SpanIsPercentage` | crates/gump-agent/src/lifecycle.rs:106-107 | The jitter span is the given percentage of it, rounded down. |
| `Lifecycle.DueIff` | crates/gump-agent/src/lifecycle.rs:183-191 | A check runs once its delay after the start and its interval after the last run have passed. |
| `Fencing.GraceIsOverIff` | crates/gump-agent/src/fence.rs:119-128 | The grace counts from the isolation: the confirmation window if stopping is asked for, else the full time. |
| `Fencing.AllowedIff` | crates/gump-agent/src/fence.rs:94-116 | An effect is allowed exactly under the current fence and while connected; a stale fence is reported first. |
| `AgentTrace.EveryStartLawful` | crates/gump-agent/src/reconcile.rs:354-435 | Every start in a lawful trace carries a fence equal to live, connected authority, the next index, an index within a retry budget it keeps, is preceded by preparation and admission, is desired by the last pass, and is not of a completed attempt. |
| `AgentTrace.LaunchesAccounted` | crates/gump-agent/src/reconcile.rs:562-626 | In every lawful trace the starts of an attempt are exactly those of its ended lives and of the current one; each life has at most its own max(1, max_attempts). |
| `AgentTrace.NothingDroppedIff` | crates/gump-agent/src/reconcile.rs:354-435 | No start belongs to an ended life exactly when the attempt was only ever forgotten unstarted, as when a start is refused before the driver is asked. |
| `AgentTrace.EveryStartCountsOnIff` | crates/gump-agent/src/reconcile.rs:562-626 | In every lawful trace each start's index is the number of the start exactly when the attempt is never started again after a started life was dropped. |
| `AgentTrace.LaunchesPerLife` | crates/gump-agent/src/reconcile.rs:562-626 | With one budget throughout, starts number at most ended lives times max(1, max_attempts) plus those of the current life; refused starts end no life. |
| `AgentTrace.LaunchesBounded` | crates/gump-agent/src/reconcile.rs:562-582 | An attempt never started again after a started life was dropped is started at most max(1, max_attempts) times, always under the same budget, however often its start was refused before. |
| `AgentTrace.CompletedIsNotRevived` | crates/gump-agent/src/reconcile.rs:332-337 | An attempt whose started lives end only by completion, and which every later pass desires, is such an attempt. |
| `AgentTrace.DroppedAttemptStartsOver` | crates/gump-agent/src/reconcile.rs:622-625 | If a restart fails the entry is dropped and counting begins again: a two-try attempt started three times, which meets the bound by lives with equality. |
| `AgentTrace.CompletedNeverRestarts` | crates/gump-agent/src/reconcile.rs:332-337 | After completion, as long as every pass desires it, an attempt is not started again. |
| `ExecutorSpec.SettledIsEnded` | crates/gump-agent/src/reconcile.rs:522-598 | A finite success is terminal; a connected failure below its number of tries waits, for its backoff, for the next index; any other has failed for good. Counters and start time stay. |
| `ExecutorSpec.EligibleAfterExit` | crates/gump-agent/src/reconcile.rs:584-597 | After an exit an attempt is still eligible for publication exactly when it was, and no retry was scheduled. |
| `ExecutorSpec.FailedYetEligible` | crates/gump-agent/src/reconcile.rs:584-597 | Found ready once, then exited without a retry: failed for good and still eligible. |
| `Executor.EffectExecutor.StartsWithinBudget` | crates/gump-agent/src/reconcile.rs:354-626 | On the live executor, a supervised attempt has been started within its own contract's budget since it was last dropped, all its starts are accounted for, and all are within that budget if no started life was dropped and followed by a start. |
| `Executor.EffectExecutor.Launch` | crates/gump-agent/src/reconcile.rs:354-480 | Stale or isolated authority, an unverified capsule or a full table never reach the driver's start; a success is exactly prepare, admit, start, and adds the fresh entry; the trace stays lawful. |
| `Executor.EffectExecutor.StartPlacement` | crates/gump-agent/src/reconcile.rs:354-480 | A failed start leaves nothing supervised. |
| `Executor.EffectExecutor.CleanupLive` | crates/gump-agent/src/reconcile.rs:791-803 | The attempt leaves the table whatever the driver answers, and a held handle is cleaned up. |
| `Executor.EffectExecutor.ForceStopCleanup` | crates/gump-agent/src/reconcile.rs:782-789 | The attempt leaves the table and a held handle is killed. |
| `Executor.EffectExecutor.StopAndCleanup` | crates/gump-agent/src/reconcile.rs:754-780 | Without authority nothing happens; on success the attempt is gone, and a held handle was terminated and cleaned up; it stays supervised only if observing or killing it failed; no start occurs. |
| `Executor.EffectExecutor.Cancel` | crates/gump-agent/src/reconcile.rs:729-737 | Unknown, stale or isolated: that error, and nothing happens. On success the attempt is gone and a held handle was terminated and cleaned up; otherwise it stays supervised only if observing or killing it failed. |
| `Executor.EffectExecutor.ForceKill` | crates/gump-agent/src/reconcile.rs:739-752 | Unknown, stale or isolated: that error, and nothing happens. On success the attempt is gone and a held handle was killed and cleaned up; otherwise it stays supervised only if the kill failed. |
| `Executor.EffectExecutor.ObserveOne` | crates/gump-agent/src/reconcile.rs:482-520 | Waiting and failed attempts are left alone; a running one was seen to run and is unchanged, or was seen to exit and the exit policy applied; a success first seen while isolated completes once connected; isolated, only observation and cleanup occur. |
| `Executor.EffectExecutor.ApplyExitPolicy` | crates/gump-agent/src/reconcile.rs:522-598 | A finite success completes, or while isolated stays as terminal; a failure is rescheduled exactly if it is connected and its index is below its number of tries, after its backoff and with the next index, and is permanent otherwise. |
| `Executor.EffectExecutor.MaybeRestart` | crates/gump-agent/src/reconcile.rs:600-626 | A due restart replaces the entry under the awaited index, or drops it with its count; one not due changes nothing. |
| `Executor.EffectExecutor.TickReadiness` | crates/gump-agent/src/reconcile.rs:646-671 | A readiness check runs exactly if due; readiness is then its verdict, and publication follows it only if declared. |
| `Executor.EffectExecutor.TerminateRunning` | crates/gump-agent/src/reconcile.rs:761-770 | Terminate, then observe, then kill exactly if the answer is that it still runs; a failed observation kills nothing. |
| `Executor.EffectExecutor.TickLiveness` | crates/gump-agent/src/reconcile.rs:673-711 | A liveness check runs exactly if due, and fails the attempt exactly at the failure threshold. |
| `Executor.EffectExecutor.TickChecks` | crates/gump-agent/src/reconcile.rs:628-727 | Each due check of a running attempt runs once and no other does; at the liveness threshold the attempt is killed and the exit policy applies, below it it runs on; attempts not running are left alone; nothing is started. |
| `Executor.EffectExecutor.Supervise` | crates/gump-agent/src/reconcile.rs:341-345 | One attempt in a pass: restarted exactly if due, once and with the awaited index; then observed; then checked. |
| `Executor.EffectExecutor.StartMissing` | crates/gump-agent/src/reconcile.rs:332-337 | Every desired attempt in no table is started once, with index one, and no other is. |
| `Executor.EffectExecutor.StopObsolete` | crates/gump-agent/src/reconcile.rs:321-330 | Every attempt no longer desired leaves, a held handle terminated and cleaned up; desired ones are untouched. |
| `Executor.EffectExecutor.Reconcile` | crates/gump-agent/src/reconcile.rs:295-352 | Past grace: everything is killed and the table is empty. Isolated: only observation and cleanup; running attempts run on untouched or were seen to exit. Connected: starts only desired attempts under current authority and keeps desired tombstones and events; without a failure, every desired attempt got exactly the starts owed (a due restart with its index, a first start if in no table), every running one was observed and its due checks run, every obsolete one was stopped, and live and completed attempts partition the desired ones under the current fence. |

## Left out

- OpenRaft, membership changes, the log store and its vote, QUIC and mTLS networking: library behaviour and input/output.
- JSON, protobuf and TOML text: values, or sizes given as functions; an undecodable snapshot is an absent one.
- Hash, signature, HPKE and Shamir internals: the transcripts they are fed are modelled, the primitives are not.
- `Capsule::from_decoded` and the rest of `capsule_lib`: the buffered reader is modelled from the payload on.
- Segments read from spill files: only segments held in memory.
- Kinds of panic: where a header position passes the machine word a checked build panics on the sum and an unchecked one on the slice whose end wrapped below its start; both are the one overflow outcome.
- Texts of errors, and most kinds of error: success and failure are exact, and the kinds that callers act on are kept.
- Record machine: modelled as a function on values, not in place; its watch history is carried along without laws.
- RamStore.RamStateMachine.BuildSnapshot: does not model the JSON serializer's refusal of map keys that are not strings; serialization always succeeds here.
- Limits given to the test constructors of the cluster state: a byte limit of exactly 2^64-1 is outside the model, and custom limits do not survive a snapshot, as in the source.
- `combine_cluster_snapshots`, Hiccup tokens, sessions and grants: easy members around the board.
- Health probes themselves, attempt roots on disk, secrets and pipes: their outcomes are arbitrary booleans.
- `PlacementController::admit` and report formatting: single comparisons.
- Deploy.DeployServer.RunDeployTxn: does not say which of the two answers a lost write gives, because the loss is outside the program.
- Health counters of an entry: `CheckRuntime` is a value that the entry replaces whole, not an object updated in place.
