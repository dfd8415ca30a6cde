/**
 * The replicated cluster state as a function of its command log
 * (crates/gump-memory/src/cluster_state.rs). Receipts are expired here by an
 * unconditional scan and evicted one least `(time, id)` at a time; the class in
 * `ClusterMachine` does the same through its cached oldest-receipt index.
 */
module ClusterSpec {
  import opened Machine
  import opened Ordered
  import opened Sums
  import Records

  const IDEMPOTENCY_MAX_ENTRIES: nat := 100_000
  const IDEMPOTENCY_TTL_MS: nat := 24 * 60 * 60 * 1_000
  const DESIRED_MAX_PAYLOAD_BYTES: nat := 256 * 1024
  const DESIRED_MAX_ENTRIES: nat := 8_192
  const DESIRED_MAX_TOTAL_BYTES: nat := 64 * 1024 * 1024
  const FINITE_COMPLETION_MAX_ENTRIES: nat := 100_000

  /** A `[u8; 16]` compared bytewise, which is the order of the 128-bit big-endian number. */
  type OperationId = nat
  type UnitId = nat
  type Digest = Records.Digest
  type DesiredKey = (string, string)
  type Completion = (string, string, u64, UnitId)

  /** The two content hashes, left uninterpreted. */
  datatype Hashes = Hashes(content: Bytes -> Digest, fence: (u64, u64, u64) -> nat)

  /** Bounds that are not part of a snapshot. */
  datatype Limits = Limits(maxReceipts: nat, ttlMs: u64, maxDesired: nat, maxDesiredBytes: nat) {
    predicate Usable() {
      maxReceipts >= 1 && maxDesired >= 1 && 1 <= maxDesiredBytes < U64_MAX
    }
  }

  const DEFAULT_LIMITS: Limits :=
    Limits(IDEMPOTENCY_MAX_ENTRIES, IDEMPOTENCY_TTL_MS, DESIRED_MAX_ENTRIES, DESIRED_MAX_TOTAL_BYTES)

  datatype RaftCommand =
    | Record(command: Records.Command)
    | AcquireController(holder: u64)
    | PutDesired(namespace: string, app: string, expectedGeneration: u64, payload: Bytes, contentDigest: Digest)
    | CompleteFinite(namespace: string, app: string, generation: u64, unitId: UnitId)
    | Idempotent(operationId: OperationId, requestDigest: Digest, inner: RaftCommand)

  datatype FenceToken = FenceToken(epoch: u64, fence: nat, leaseId: nat)

  datatype ApplyOutcome = ApplyOutcome(
    revision: u64,
    txnSucceeded: Option<bool>,
    leaseId: Option<nat>,
    expiredLeaseIds: seq<nat>,
    controller: Option<FenceToken>,
    desiredGeneration: Option<u64>)

  /** Why a command was turned away; the source renders each as text. */
  datatype Reason =
    | RecordError(error: Records.ApplyError)
    | IdempotencyConflict(operationId: OperationId)
    | NestedIdempotent
    | NestedEntrypoint
    | InvalidNamespace
    | InvalidApp
    | PayloadTooLarge(len: nat)
    | GenerationConflict(current: u64, expected: u64)
    | DivergentContent(generation: u64)
    | DesiredFull(entries: nat, max: nat)
    | DesiredBytes(total: nat, max: nat)
    | NoDesiredExecution
    | CompletionConflict(current: u64, observed: u64)
    | CompletionFull(entries: nat)

  datatype RaftResponse =
    | Applied(outcome: ApplyOutcome)
    | Replay(original: RaftResponse)
    | Rejected(reason: Reason)

  datatype DesiredEntry = DesiredEntry(generation: u64, contentDigest: Digest, payload: Bytes)

  datatype Receipt = Receipt(requestDigest: Digest, response: RaftResponse, recordedAtMs: u64)

  datatype Authority = Authority(current: Option<FenceToken>, holder: Option<u64>, acquireNonce: u64)

  /** Every serialized field of the state. */
  datatype Cluster = Cluster(
    records: Records.RecordMachine,
    controller: Authority,
    desired: map<DesiredKey, DesiredEntry>,
    completions: set<Completion>,
    receipts: map<OperationId, Receipt>)

  const EMPTY: Cluster :=
    Cluster(Records.EMPTY_MACHINE, Authority(None, None, 0), map[], {}, map[])

  // ---- Receipts -----------------------------------------------------------

  predicate Fresh(e: Receipt, now: u64, ttl: nat) {
    SatSub(now, e.recordedAtMs) <= ttl
  }

  function FreshReceipts(m: map<OperationId, Receipt>, now: u64, ttl: nat): map<OperationId, Receipt> {
    map id | id in m && Fresh(m[id], now, ttl) :: m[id]
  }

  /** Keep exactly the receipts no older than the limit. */
  function Expire(c: Cluster, ttl: nat): Cluster {
    c.(receipts := FreshReceipts(c.receipts, c.records.nowMs, ttl))
  }

  function AgeKeys(m: map<OperationId, Receipt>): set<(nat, nat)> {
    set id | id in m :: (m[id].recordedAtMs as nat, id)
  }

  /** The receipt with the least `(recorded_at_ms, operation_id)`. */
  function OldestReceipt(m: map<OperationId, Receipt>): (id: OperationId)
    requires m != map[]
    ensures id in m
    ensures forall k :: k in m && k != id ==>
              m[id].recordedAtMs < m[k].recordedAtMs
              || (m[id].recordedAtMs == m[k].recordedAtMs && id < k)
  {
    PairOrder();
    var some :| some in m;
    assert (m[some].recordedAtMs as nat, some) in AgeKeys(m);
    var least := Least(AgeKeys(m), PairLess);
    assert forall k :: k in m ==> (m[k].recordedAtMs as nat, k) in AgeKeys(m);
    least.1
  }

  /** Evict oldest first until there is room for one more. */
  function MakeRoom(m: map<OperationId, Receipt>, max: nat): (r: map<OperationId, Receipt>)
    requires max >= 1
    ensures |r| < max
    decreases |m|
  {
    if |m| < max then m else
      assert |m| > 0;
      MakeRoom(m - {OldestReceipt(m)}, max)
  }

  /** Earliest recording time, as a full scan finds it. */
  function OldestTime(m: map<OperationId, Receipt>): (t: Option<u64>)
    ensures t.None? <==> m == map[]
    ensures t.Some? ==> (exists k :: k in m && m[k].recordedAtMs == t.value)
    ensures t.Some? ==> forall k :: k in m ==> t.value <= m[k].recordedAtMs
  {
    if m == map[] then None else Some(m[OldestReceipt(m)].recordedAtMs)
  }

  // ---- Desired state ------------------------------------------------------

  predicate LabelByte(b: char) {
    'a' <= b <= 'z' || '0' <= b <= '9' || b == '-'
  }

  /** `Label::parse` succeeds. */
  predicate IsLabel(s: string) {
    && 1 <= |s| <= 63
    && s[0] != '-'
    && s[|s| - 1] != '-'
    && forall i :: 0 <= i < |s| ==> LabelByte(s[i])
  }

  /** Lengths of held byte strings cannot overflow a `usize`, so the saturating sum is a sum. */
  function EntryBytes(key: DesiredKey, payload: Bytes): nat {
    |key.0| + |key.1| + |payload|
  }

  function StoredBytes(key: DesiredKey, e: DesiredEntry): nat {
    EntryBytes(key, e.payload)
  }

  function Generation(c: Cluster, key: DesiredKey): u64 {
    if key in c.desired then c.desired[key].generation else 0
  }

  function Outcome(revision: u64, generation: u64): RaftResponse {
    Applied(ApplyOutcome(revision, None, None, [], None, Some(generation)))
  }

  /** What the budget check compares: the saturating fold over the map, with one entry replaced. */
  ghost function TotalAfter(desired: map<DesiredKey, DesiredEntry>, key: DesiredKey, payload: Bytes): nat {
    var total := Min(Sum(desired, StoredBytes), U64_MAX);
    var previous := if key in desired then StoredBytes(key, desired[key]) else 0;
    SatAdd(SatSub(total, previous), EntryBytes(key, payload), U64_MAX)
  }

  function Others(completions: set<Completion>, key: DesiredKey): set<Completion> {
    set x | x in completions && (x.0, x.1) != key
  }

  ghost function PutDesiredStep(lim: Limits, c: Cluster, key: DesiredKey, expected: u64,
                                payload: Bytes, digest: Digest): (Cluster, RaftResponse)
  {
    if !IsLabel(key.0) then (c, Rejected(InvalidNamespace))
    else if !IsLabel(key.1) then (c, Rejected(InvalidApp))
    else if |payload| > DESIRED_MAX_PAYLOAD_BYTES then (c, Rejected(PayloadTooLarge(|payload|)))
    else if Generation(c, key) != expected then (c, Rejected(GenerationConflict(Generation(c, key), expected)))
    else
      var next := SatAdd(expected, 1, U64_MAX);
      if key in c.desired && c.desired[key].generation == next then
        if c.desired[key].contentDigest != digest then (c, Rejected(DivergentContent(next)))
        else (c, Outcome(c.records.revision, next))
      else if key !in c.desired && |c.desired| >= lim.maxDesired then
        (c, Rejected(DesiredFull(|c.desired|, lim.maxDesired)))
      else
        var total := TotalAfter(c.desired, key, payload);
        if total > lim.maxDesiredBytes then (c, Rejected(DesiredBytes(total, lim.maxDesiredBytes)))
        else
          var records := Records.BumpRevision(c.records);
          (c.(completions := Others(c.completions, key),
              desired := c.desired[key := DesiredEntry(next, digest, payload)],
              records := records),
           Outcome(records.revision, next))
  }

  function CompleteFiniteStep(c: Cluster, key: DesiredKey, generation: u64, unit: UnitId): (Cluster, RaftResponse) {
    var entry := (key.0, key.1, generation, unit);
    if !IsLabel(key.0) then (c, Rejected(InvalidNamespace))
    else if !IsLabel(key.1) then (c, Rejected(InvalidApp))
    else if key !in c.desired then (c, Rejected(NoDesiredExecution))
    else if c.desired[key].generation != generation then
      (c, Rejected(CompletionConflict(c.desired[key].generation, generation)))
    else if entry in c.completions then (c, Outcome(c.records.revision, generation))
    else if |c.completions| >= FINITE_COMPLETION_MAX_ENTRIES then (c, Rejected(CompletionFull(|c.completions|)))
    else
      var records := Records.BumpRevision(c.records);
      (c.(completions := c.completions + {entry}, records := records), Outcome(records.revision, generation))
  }

  function AcquireStep(h: Hashes, c: Cluster, holder: u64): (Cluster, RaftResponse) {
    var nonce := SatAdd(c.controller.acquireNonce, 1, U64_MAX);
    var epoch := SatAdd(if c.controller.current.Some? then c.controller.current.value.epoch else 0, 1, U64_MAX);
    var (leases, lease) :=
      Records.Grant(c.records.leases, Records.ControllerAuthority, c.records.nowMs);
    var token := FenceToken(epoch, h.fence(epoch, holder, nonce), lease.id);
    var records := Records.BumpRevision(c.records.(leases := leases));
    (c.(controller := Authority(Some(token), Some(holder), nonce), records := records),
     Applied(ApplyOutcome(records.revision, None, Some(lease.id), [], Some(token), None)))
  }

  function RecordOutcome(r: Records.Reply): RaftResponse {
    match r
    case Err(e) => Rejected(RecordError(e))
    case Ok(res) =>
      Applied(ApplyOutcome(res.revision, res.txnSucceeded,
                           if res.lease.Some? then Some(res.lease.value.id) else None,
                           res.expiredLeaseIds, None, None))
  }

  ghost function Inner(h: Hashes, lim: Limits, c: Cluster, cmd: RaftCommand): (Cluster, RaftResponse) {
    match cmd
    case Record(rc) =>
      var (records, reply) := Records.Apply(h.content, c.records, rc);
      (c.(records := records), RecordOutcome(reply))
    case AcquireController(holder) => AcquireStep(h, c, holder)
    case PutDesired(ns, app, expected, payload, digest) => PutDesiredStep(lim, c, (ns, app), expected, payload, digest)
    case CompleteFinite(ns, app, generation, unit) => CompleteFiniteStep(c, (ns, app), generation, unit)
    case Idempotent(_, _, _) => (c, Rejected(NestedEntrypoint))
  }

  /** Replay a retained receipt, or run the command and keep a receipt if it applied. */
  ghost function Enveloped(h: Hashes, lim: Limits, c: Cluster,
                           id: OperationId, digest: Digest, inner: RaftCommand): (Cluster, RaftResponse)
    requires lim.Usable()
  {
    if id in c.receipts then
      (c, if c.receipts[id].requestDigest == digest
          then Replay(c.receipts[id].response) else Rejected(IdempotencyConflict(id)))
    else if inner.Idempotent? then (c, Rejected(NestedIdempotent))
    else
      var (c', response) := Inner(h, lim, c, inner);
      if response.Applied? then
        var receipt := Receipt(digest, response, c'.records.nowMs);
        (c'.(receipts := MakeRoom(c'.receipts, lim.maxReceipts)[id := receipt]), response)
      else (c', response)
  }

  /** One committed command. */
  ghost function Step(h: Hashes, lim: Limits, c: Cluster, cmd: RaftCommand): (Cluster, RaftResponse)
    requires lim.Usable()
  {
    var before := Expire(c, lim.ttlMs);
    var (after, response) :=
      if cmd.Idempotent? then Enveloped(h, lim, before, cmd.operationId, cmd.requestDigest, cmd.inner)
      else Inner(h, lim, before, cmd);
    (Expire(after, lim.ttlMs), response)
  }

  /** A whole log: the final state and every response in order. */
  ghost function Run(h: Hashes, lim: Limits, c: Cluster, log: seq<RaftCommand>): (Cluster, seq<RaftResponse>)
    requires lim.Usable()
    decreases |log|
  {
    if log == [] then (c, []) else
    var (c', rs) := Run(h, lim, c, log[..|log| - 1]);
    var (c'', r) := Step(h, lim, c', log[|log| - 1]);
    (c'', rs + [r])
  }
}
