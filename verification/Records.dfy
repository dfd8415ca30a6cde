/**
 * The typed record machine under the replicated state (crates/gump-memory/src/records/):
 * keyed records with per-class byte budgets, a lease table, a bounded watch history and
 * a committed clock. Modelled on values: every command maps one machine to the next.
 */
module Records {
  import opened Machine
  import opened Ordered
  import opened Sums

  /** A 256-bit digest, only ever compared. */
  type Digest = nat

  datatype KeyPrefix =
    | ClusterMeta | Members | AuthorityController | Names | WorkloadsDesired | WorkloadsHistory
    | Executions | Units | Placements | Attempts | Barriers | Materializations | Publication
    | Custody | Operations | Observations | Reasons
  {
    function MaxPayload(): nat {
      match this
      case ClusterMeta | Members => 64 * 1024
      case AuthorityController => 8 * 1024
      case Names => 4 * 1024
      case WorkloadsDesired => 256 * 1024
      case WorkloadsHistory => 64 * 1024
      case Executions | Attempts | Operations | Observations => 64 * 1024
      case Units | Placements | Publication => 32 * 1024
      case Barriers => 256 * 1024
      case Materializations | Custody => 8 * 1024
      case Reasons => 64 * 1024
    }

    function Text(): string {
      match this
      case ClusterMeta => "/cluster/meta"
      case Members => "/members"
      case AuthorityController => "/authority/controller"
      case Names => "/names"
      case WorkloadsDesired => "/workloads/desired"
      case WorkloadsHistory => "/workloads/history"
      case Executions => "/executions"
      case Units => "/units"
      case Placements => "/placements"
      case Attempts => "/attempts"
      case Barriers => "/barriers"
      case Materializations => "/materializations"
      case Publication => "/publication"
      case Custody => "/custody"
      case Operations => "/operations"
      case Observations => "/observations"
      case Reasons => "/reasons"
    }

    /** The budget a record under this prefix is charged to. */
    function Class(leased: bool): BudgetClass {
      match this
      case WorkloadsHistory | Operations | Observations | Reasons => History
      case Members | AuthorityController | Placements | Attempts | Barriers | Materializations
         | Publication | Custody => if leased then Leased else Authoritative
      case ClusterMeta | Names | WorkloadsDesired | Executions | Units => Authoritative
    }
  }

  datatype BudgetClass = Authoritative | Leased | History

  datatype RecordKey = RecordKey(prefix: KeyPrefix, suffix: string) {
    function DisplayLength(): nat {
      if suffix == "" then |prefix.Text()| else |prefix.Text()| + 1 + |suffix|
    }
  }

  datatype RecordValue = RecordValue(revision: u64, digest: Digest, payload: Bytes, leased: bool)

  datatype Expected = Absent | ExactRevision(revision: u64) | ExactDigest(digest: Digest) | Any

  datatype MutateOp =
    | Put(key: RecordKey, expected: Expected, payload: Bytes, leased: bool)
    | Delete(key: RecordKey, expected: Expected)

  datatype Comparison = Comparison(key: RecordKey, expected: Expected)

  datatype LeasePurpose =
    ControllerAuthority | MemberLiveness | PlacementAttempt | GangReservation | TelemetrySubscription
  {
    function TtlMs(): u64 {
      match this
      case ControllerAuthority => 10_000
      case MemberLiveness => 15_000
      case PlacementAttempt => 20_000
      case GangReservation => 30_000
      case TelemetrySubscription => 30_000
    }
  }

  datatype Command =
    | Mutate(op: MutateOp)
    | Txn(comparisons: seq<Comparison>, successOps: seq<MutateOp>, failureOps: seq<MutateOp>)
    | Compact(through: u64)
    | LeaseGrant(purpose: LeasePurpose, nowMs: u64)
    | LeaseRenew(leaseId: nat, nowMs: u64)
    | LeaseRevoke(leaseId: nat)
    | AdvanceTime(nowMs: u64)
    | ExpireLeases(nowMs: u64)

  datatype Lease = Lease(id: nat, purpose: LeasePurpose, ttlMs: u64, expiresAtMs: u64)

  datatype LeaseTable = LeaseTable(nextId: u64, leases: map<nat, Lease>)

  datatype WatchChange =
    | PutSeen(key: RecordKey, revision: u64, digest: Digest)
    | DeleteSeen(key: RecordKey, revision: u64)
    | LeaseRevoked(leaseId: nat, revision: u64)

  datatype WatchBatch = WatchBatch(revision: u64, atMs: u64, changes: seq<WatchChange>)

  /** `approx_bytes` is recomputed from the batches before every use, so it is not a field here. */
  datatype WatchHistory = WatchHistory(compactedThrough: u64, batches: seq<WatchBatch>)

  datatype BudgetUsage = BudgetUsage(authoritative: nat, leased: nat, history: nat) {
    function Of(c: BudgetClass): nat {
      match c case Authoritative => authoritative case Leased => leased case History => history
    }

    function Add(c: BudgetClass, bytes: nat): BudgetUsage {
      match c
      case Authoritative => this.(authoritative := authoritative + bytes)
      case Leased => this.(leased := leased + bytes)
      case History => this.(history := history + bytes)
    }

    function Sub(c: BudgetClass, bytes: nat): BudgetUsage {
      match c
      case Authoritative => this.(authoritative := SatSub(authoritative, bytes))
      case Leased => this.(leased := SatSub(leased, bytes))
      case History => this.(history := SatSub(history, bytes))
    }
  }

  datatype RecordMachine = RecordMachine(
    revision: u64,
    records: map<RecordKey, RecordValue>,
    usage: BudgetUsage,
    nowMs: u64,
    watch: WatchHistory,
    leases: LeaseTable,
    pending: seq<WatchChange>)

  datatype ApplyError =
    | PayloadTooLarge(len: nat, max: nat)
    | BudgetExhausted(budget: BudgetClass, used: nat, additional: nat, limit: nat)
    | LeaseNotFound(id: nat)
    | LeaseExpired(id: nat)
    | PreconditionFailed(key: RecordKey, expected: Expected)
    | NotFound(key: RecordKey)
    | TimeWentBackward(current: u64, presented: u64)

  datatype ApplyResult = ApplyResult(revision: u64, txnSucceeded: Option<bool>, lease: Option<Lease>,
                                     expiredLeaseIds: seq<nat>)

  datatype Reply = Ok(result: ApplyResult) | Err(error: ApplyError)

  const MAX_WATCH_REVISIONS: nat := 10_000
  const MAX_WATCH_AGE_MS: nat := 10 * 60 * 1000

  function BudgetLimit(c: BudgetClass): nat {
    match c
    case Authoritative => 64 * 1024 * 1024
    case Leased => 32 * 1024 * 1024
    case History => 32 * 1024 * 1024
  }

  const EMPTY_MACHINE: RecordMachine :=
    RecordMachine(0, map[], BudgetUsage(0, 0, 0), 0, WatchHistory(0, []), LeaseTable(0, map[]), [])

  // ---- Watch history ------------------------------------------------------

  function ChangeBytes(c: WatchChange): nat {
    match c
    case PutSeen(key, _, _) => 40 + key.DisplayLength()
    case DeleteSeen(key, _) => 16 + key.DisplayLength()
    case LeaseRevoked(_, _) => 24
  }

  function ChangesBytes(cs: seq<WatchChange>): nat {
    if cs == [] then 0 else ChangeBytes(cs[0]) + ChangesBytes(cs[1..])
  }

  function BatchesBytes(bs: seq<WatchBatch>): nat {
    if bs == [] then 0 else 16 + ChangesBytes(bs[0].changes) + BatchesBytes(bs[1..])
  }

  function After(bs: seq<WatchBatch>, through: u64): seq<WatchBatch> {
    if bs == [] then []
    else if bs[0].revision > through then [bs[0]] + After(bs[1..], through)
    else After(bs[1..], through)
  }

  /** Drops the first batch, raising the compaction floor over it. */
  function DropFirst(h: WatchHistory): WatchHistory
    requires h.batches != []
  {
    WatchHistory(Max(h.compactedThrough, h.batches[0].revision), h.batches[1..])
  }

  function DropAged(h: WatchHistory, cutoff: nat): WatchHistory
    decreases |h.batches|
  {
    if h.batches != [] && h.batches[0].atMs < cutoff then DropAged(DropFirst(h), cutoff) else h
  }

  function DropExcess(h: WatchHistory): WatchHistory
    decreases |h.batches|
  {
    if |h.batches| > MAX_WATCH_REVISIONS then DropExcess(DropFirst(h)) else h
  }

  function DropOverBudget(h: WatchHistory): WatchHistory
    decreases |h.batches|
  {
    if h.batches != [] && BatchesBytes(h.batches) > BudgetLimit(History) then DropOverBudget(DropFirst(h)) else h
  }

  function Retain(h: WatchHistory, nowMs: u64): WatchHistory {
    var pruned := h.(batches := After(h.batches, h.compactedThrough));
    DropOverBudget(DropExcess(DropAged(pruned, SatSub(nowMs, MAX_WATCH_AGE_MS))))
  }

  function CompactThrough(h: WatchHistory, through: u64): WatchHistory {
    var floor := Max(h.compactedThrough, through);
    WatchHistory(floor, After(h.batches, floor))
  }

  // ---- Leases -------------------------------------------------------------

  function Grant(t: LeaseTable, purpose: LeasePurpose, nowMs: u64): (LeaseTable, Lease) {
    var id := SatAdd(t.nextId, 1, U64_MAX);
    var lease := Lease(id, purpose, purpose.TtlMs(), SatAdd(nowMs, purpose.TtlMs(), U64_MAX));
    (LeaseTable(id, t.leases[id := lease]), lease)
  }

  function DueLeases(t: LeaseTable, nowMs: u64): seq<nat> {
    NatOrder();
    var due := set id | id in t.leases && t.leases[id].expiresAtMs <= nowMs;
    InOrder(due, NatLess)
  }

  // ---- Commands -----------------------------------------------------------

  function Meets(m: RecordMachine, key: RecordKey, expected: Expected): bool {
    match expected
    case Any => true
    case Absent => key !in m.records
    case ExactRevision(rev) => key in m.records && m.records[key].revision == rev
    case ExactDigest(d) => key in m.records && m.records[key].digest == d
  }

  datatype Mutated = Done(machine: RecordMachine) | Refused(error: ApplyError)

  function ChargeOf(k: RecordKey, v: RecordValue): BudgetClass {
    k.prefix.Class(v.leased)
  }

  function PutRecord(hash: Bytes -> Digest, m: RecordMachine,
                     key: RecordKey, expected: Expected, payload: Bytes, leased: bool): Mutated
  {
    if !Meets(m, key, expected) then Refused(PreconditionFailed(key, expected)) else
    var value := RecordValue(SatAdd(m.revision, 1, U64_MAX), hash(payload), payload, leased);
    if |payload| > key.prefix.MaxPayload() then Refused(PayloadTooLarge(|payload|, key.prefix.MaxPayload())) else
    var charged := key.prefix.Class(leased);
    var freed := if key in m.records
                 then m.usage.Sub(ChargeOf(key, m.records[key]), |m.records[key].payload|)
                 else m.usage;
    if freed.Of(charged) + |payload| > BudgetLimit(charged)
    then Refused(BudgetExhausted(charged, freed.Of(charged), |payload|, BudgetLimit(charged)))
    else Done(m.(usage := freed.Add(charged, |payload|),
                 revision := value.revision,
                 pending := m.pending + [PutSeen(key, value.revision, value.digest)],
                 records := m.records[key := value]))
  }

  function DeleteRecord(m: RecordMachine, key: RecordKey, expected: Expected): Mutated {
    if !Meets(m, key, expected) then Refused(PreconditionFailed(key, expected))
    else if key !in m.records then Refused(NotFound(key))
    else
      var prior := m.records[key];
      var revision := SatAdd(m.revision, 1, U64_MAX);
      Done(m.(records := m.records - {key},
              usage := m.usage.Sub(ChargeOf(key, prior), |prior.payload|),
              revision := revision,
              pending := m.pending + [DeleteSeen(key, revision)]))
  }

  function MutateRecord(hash: Bytes -> Digest, m: RecordMachine, op: MutateOp): Mutated {
    match op
    case Put(key, expected, payload, leased) => PutRecord(hash, m, key, expected, payload, leased)
    case Delete(key, expected) => DeleteRecord(m, key, expected)
  }

  function MutateAll(hash: Bytes -> Digest, m: RecordMachine, ops: seq<MutateOp>): Mutated
    decreases |ops|
  {
    if ops == [] then Done(m) else
    match MutateRecord(hash, m, ops[0])
    case Refused(e) => Refused(e)
    case Done(m') => MutateAll(hash, m', ops[1..])
  }

  function Flush(m: RecordMachine): RecordMachine {
    if m.pending == [] then m else
    var batch := WatchBatch(m.revision, m.nowMs, m.pending);
    m.(pending := [], watch := Retain(m.watch.(batches := m.watch.batches + [batch]), m.nowMs))
  }

  function CommitTime(m: RecordMachine, nowMs: u64): RecordMachine
    requires nowMs >= m.nowMs
  {
    if nowMs > m.nowMs then m.(nowMs := nowMs, watch := Retain(m.watch, nowMs)) else m
  }

  function Plain(m: RecordMachine): Reply {
    Ok(ApplyResult(m.revision, None, None, []))
  }

  function BumpRevision(m: RecordMachine): RecordMachine {
    m.(revision := SatAdd(m.revision, 1, U64_MAX))
  }

  function Revoked(ids: seq<nat>, revision: u64): (cs: seq<WatchChange>)
    ensures |cs| == |ids|
  {
    seq(|ids|, i requires 0 <= i < |ids| => LeaseRevoked(ids[i], revision))
  }

  /** One committed command. Clock-carrying commands advance the clock even when they then fail. */
  function Apply(hash: Bytes -> Digest, m: RecordMachine, cmd: Command): (RecordMachine, Reply) {
    match cmd
    case Mutate(op) =>
      (match MutateRecord(hash, m, op)
       case Refused(e) => (m, Err(e))
       case Done(m') => (Flush(m'), Plain(m')))
    case Txn(comparisons, successOps, failureOps) =>
      var ok := forall c | c in comparisons :: Meets(m, c.key, c.expected);
      (match MutateAll(hash, m, if ok then successOps else failureOps)
       case Refused(e) => (m, Err(e))
       case Done(m') => (Flush(m'), Ok(ApplyResult(m'.revision, Some(ok), None, []))))
    case Compact(through) =>
      (m.(watch := CompactThrough(m.watch, through)), Plain(m))
    case LeaseRevoke(id) =>
      if id !in m.leases.leases then (m, Err(LeaseNotFound(id))) else
      var m' := BumpRevision(m.(leases := m.leases.(leases := m.leases.leases - {id})));
      (Flush(m'.(pending := m'.pending + [LeaseRevoked(id, m'.revision)])),
       Ok(ApplyResult(m'.revision, None, None, [id])))
    case LeaseGrant(purpose, nowMs) =>
      if nowMs < m.nowMs then (m, Err(TimeWentBackward(m.nowMs, nowMs))) else
      var t := CommitTime(m, nowMs);
      var (leases, lease) := Grant(t.leases, purpose, t.nowMs);
      var m' := BumpRevision(t.(leases := leases));
      (m', Ok(ApplyResult(m'.revision, None, Some(lease), [])))
    case LeaseRenew(id, nowMs) =>
      if nowMs < m.nowMs then (m, Err(TimeWentBackward(m.nowMs, nowMs))) else
      var t := CommitTime(m, nowMs);
      var held := t.leases.leases;
      if id !in held then (t, Err(LeaseNotFound(id)))
      else if held[id].expiresAtMs <= t.nowMs
      then (t.(leases := t.leases.(leases := held - {id})), Err(LeaseExpired(id)))
      else
        var lease := held[id].(expiresAtMs := SatAdd(t.nowMs, held[id].ttlMs, U64_MAX));
        var m' := BumpRevision(t.(leases := t.leases.(leases := held[id := lease])));
        (m', Ok(ApplyResult(m'.revision, None, Some(lease), [])))
    case AdvanceTime(nowMs) =>
      if nowMs < m.nowMs then (m, Err(TimeWentBackward(m.nowMs, nowMs)))
      else (CommitTime(m, nowMs), Plain(m))
    case ExpireLeases(nowMs) =>
      if nowMs < m.nowMs then (m, Err(TimeWentBackward(m.nowMs, nowMs))) else
      var t := CommitTime(m, nowMs);
      var due := DueLeases(t.leases, t.nowMs);
      if due == [] then (t, Plain(t)) else
      var kept := map id | id in t.leases.leases && id !in due :: t.leases.leases[id];
      var m' := BumpRevision(t.(leases := t.leases.(leases := kept)));
      (Flush(m'.(pending := m'.pending + Revoked(due, m'.revision))),
       Ok(ApplyResult(m'.revision, None, None, due)))
  }

  // ---- What every command keeps -------------------------------------------

  /** What a record weighs in class `c`. */
  function Charged(c: BudgetClass): (RecordKey, RecordValue) -> nat {
    (k: RecordKey, v: RecordValue) => if ChargeOf(k, v) == c then |v.payload| else 0
  }

  /** Usage is exactly what the stored records weigh, class by class, and within budget. */
  ghost predicate Accounted(m: RecordMachine) {
    forall c: BudgetClass :: AccountedAt(m, c)
  }

  ghost predicate Inv(m: RecordMachine) {
    m.pending == [] && Accounted(m)
  }

  lemma {:induction false} EmptyInv()
    ensures Inv(EMPTY_MACHINE)
  {
  }

  ghost predicate AccountedAt(m: RecordMachine, c: BudgetClass) {
    m.usage.Of(c) == Sum(m.records, Charged(c)) <= BudgetLimit(c)
  }

  lemma {:induction false} PutAccountedAt(hash: Bytes -> Digest, m: RecordMachine,
                       key: RecordKey, expected: Expected, payload: Bytes, leased: bool, c: BudgetClass)
    requires Accounted(m) && PutRecord(hash, m, key, expected, payload, leased).Done?
    ensures AccountedAt(PutRecord(hash, m, key, expected, payload, leased).machine, c)
  {
    var m' := PutRecord(hash, m, key, expected, payload, leased).machine;
    var v := m'.records[key];
    assert AccountedAt(m, c);
    SumPut(m.records, key, v, Charged(c));
    if key in m.records {
      SumEntry(m.records, key, Charged(c));
    }
  }

  lemma {:induction false} PutAccounted(hash: Bytes -> Digest, m: RecordMachine,
                     key: RecordKey, expected: Expected, payload: Bytes, leased: bool)
    requires Accounted(m) && PutRecord(hash, m, key, expected, payload, leased).Done?
    ensures Accounted(PutRecord(hash, m, key, expected, payload, leased).machine)
  {
    forall c: BudgetClass {
      PutAccountedAt(hash, m, key, expected, payload, leased, c);
    }
  }

  lemma {:induction false} DeleteAccounted(m: RecordMachine, key: RecordKey, expected: Expected)
    requires Accounted(m) && DeleteRecord(m, key, expected).Done?
    ensures Accounted(DeleteRecord(m, key, expected).machine)
  {
    var m' := DeleteRecord(m, key, expected).machine;
    forall c: BudgetClass ensures AccountedAt(m', c) {
      assert AccountedAt(m, c);
      SumRemove(m.records, key, Charged(c));
    }
  }

  lemma {:induction false} MutateAllAccounted(hash: Bytes -> Digest, m: RecordMachine, ops: seq<MutateOp>)
    requires Accounted(m) && MutateAll(hash, m, ops).Done?
    ensures var m' := MutateAll(hash, m, ops).machine;
            Accounted(m') && m'.nowMs == m.nowMs && m'.revision >= m.revision
    decreases |ops|
  {
    if ops != [] {
      var m' := MutateRecord(hash, m, ops[0]).machine;
      match ops[0] {
        case Put(key, expected, payload, leased) => PutAccounted(hash, m, key, expected, payload, leased);
        case Delete(key, expected) => DeleteAccounted(m, key, expected);
      }
      MutateAllAccounted(hash, m', ops[1..]);
    }
  }

  /** The counters depend on the stored records alone. */
  lemma {:induction false} AccountedFrame(m: RecordMachine, m': RecordMachine)
    requires Accounted(m) && m'.records == m.records && m'.usage == m.usage
    ensures Accounted(m')
  {
    forall c: BudgetClass ensures AccountedAt(m', c) {
      assert AccountedAt(m, c);
    }
  }

  /**
   * Every command, accepted or refused, leaves the change buffer empty and the usage
   * counters exact, and never moves the clock or the revision back.
   */
  lemma {:induction false} ApplyKeepsInv(hash: Bytes -> Digest, m: RecordMachine, cmd: Command)
    requires Inv(m)
    ensures Inv(Apply(hash, m, cmd).0)
    ensures Apply(hash, m, cmd).0.nowMs >= m.nowMs
    ensures Apply(hash, m, cmd).0.revision >= m.revision
  {
    match cmd {
      case Mutate(op) =>
        if MutateRecord(hash, m, op).Done? {
          assert [op][1..] == [] && [op][0] == op;
          MutateAllKeepsInv(hash, m, [op]);
        }
      case Txn(comparisons, successOps, failureOps) =>
        var ok := forall c | c in comparisons :: Meets(m, c.key, c.expected);
        var ops := if ok then successOps else failureOps;
        if MutateAll(hash, m, ops).Done? {
          MutateAllKeepsInv(hash, m, ops);
        }
      case _ =>
        OthersLeaveRecords(hash, m, cmd);
        AccountedFrame(m, Apply(hash, m, cmd).0);
    }
  }

  lemma {:induction false} OthersLeaveRecords(hash: Bytes -> Digest, m: RecordMachine, cmd: Command)
    requires m.pending == [] && !cmd.Mutate? && !cmd.Txn?
    ensures var m' := Apply(hash, m, cmd).0;
            m'.records == m.records && m'.usage == m.usage && m'.pending == []
            && m'.nowMs >= m.nowMs && m'.revision >= m.revision
  {
    hide MutateAll, MutateRecord, Meets, DueLeases, Revoked, CompactThrough;
  }

  lemma {:induction false} MutateAllKeepsInv(hash: Bytes -> Digest, m: RecordMachine, ops: seq<MutateOp>)
    requires Inv(m) && MutateAll(hash, m, ops).Done?
    ensures var m' := Flush(MutateAll(hash, m, ops).machine);
            Inv(m') && m'.nowMs == m.nowMs && m'.revision >= m.revision
  {
    var done := MutateAll(hash, m, ops).machine;
    MutateAllAccounted(hash, m, ops);
    AccountedFrame(done, Flush(done));
  }

  /** A refused command changes nothing but what a clock tick changes. */
  lemma {:induction false} RefusedLeavesRecords(hash: Bytes -> Digest, m: RecordMachine, cmd: Command)
    requires Apply(hash, m, cmd).1.Err?
    ensures var m' := Apply(hash, m, cmd).0;
            m'.records == m.records && m'.usage == m.usage && m'.revision == m.revision
            && m'.pending == m.pending && (!cmd.LeaseRenew? ==> m' == m)
  {
  }

  /** Every accepted command answers with the revision it leaves. */
  lemma {:induction false} ReplyRevision(hash: Bytes -> Digest, m: RecordMachine, cmd: Command)
    ensures Apply(hash, m, cmd).1.Ok? ==> Apply(hash, m, cmd).1.result.revision == Apply(hash, m, cmd).0.revision
  {
    hide MutateAll, MutateRecord, Meets, DueLeases, Revoked, CompactThrough, Retain;
  }

  // ---- What the commands mean ---------------------------------------------

  /** The stored record, if any, is the expected one. */
  ghost predicate AsExpected(m: RecordMachine, key: RecordKey, expected: Expected) {
    || expected == Any
    || (expected == Absent && key !in m.records)
    || (key in m.records && expected == ExactRevision(m.records[key].revision))
    || (key in m.records && expected == ExactDigest(m.records[key].digest))
  }

  function Next(m: RecordMachine): u64 {
    Min(m.revision + 1, U64_MAX)
  }

  lemma {:induction false} PutRoom(hash: Bytes -> Digest, m: RecordMachine, key: RecordKey, payload: Bytes, leased: bool)
    requires Accounted(m)
    ensures var charged := key.prefix.Class(leased);
            var freed := if key in m.records
                         then m.usage.Sub(ChargeOf(key, m.records[key]), |m.records[key].payload|)
                         else m.usage;
            freed.Of(charged) + |payload|
            == Sum(m.records[key := RecordValue(Next(m), hash(payload), payload, leased)], Charged(charged))
  {
    var charged := key.prefix.Class(leased);
    assert AccountedAt(m, charged);
    SumPut(m.records, key, RecordValue(Next(m), hash(payload), payload, leased), Charged(charged));
    if key in m.records {
      SumEntry(m.records, key, Charged(charged));
    }
  }

  /**
   * A put is taken exactly when the record is as expected, the payload is within its prefix's
   * bound and the class has room for it in place of what it replaces. Then the record holds the
   * payload, its digest, the lease flag and the new revision, and no other record changed.
   */
  lemma {:induction false} PutApplied(hash: Bytes -> Digest, m: RecordMachine, key: RecordKey, expected: Expected,
                                      payload: Bytes, leased: bool)
    requires Inv(m)
    ensures var (m', r) := Apply(hash, m, Mutate(Put(key, expected, payload, leased)));
            var v, charged := RecordValue(Next(m), hash(payload), payload, leased), key.prefix.Class(leased);
            && (r.Ok? <==>
                  && AsExpected(m, key, expected) && |payload| <= key.prefix.MaxPayload()
                  && Sum(m.records[key := v], Charged(charged)) <= BudgetLimit(charged))
            && (r.Ok? ==> m'.records == m.records[key := v] && m'.revision == Next(m))
  {
    hide Retain, Sum, Charged, KeyPrefix.MaxPayload, KeyPrefix.Class, BudgetLimit;
    PutRoom(hash, m, key, payload, leased);
  }

  /** A delete is taken exactly when the record is there and as expected; then it is gone, and it alone. */
  lemma {:induction false} DeleteApplied(hash: Bytes -> Digest, m: RecordMachine, key: RecordKey, expected: Expected)
    ensures var (m', r) := Apply(hash, m, Mutate(Delete(key, expected)));
            && (r.Ok? <==> AsExpected(m, key, expected) && key in m.records)
            && (r.Ok? ==> m'.records == m.records - {key} && m'.revision == Next(m))
  {
    hide Retain;
  }

  /** The same records, usage and revision; histories may differ. */
  ghost predicate Alike(a: RecordMachine, b: RecordMachine) {
    a.records == b.records && a.usage == b.usage && a.revision == b.revision
  }

  /** Each operation as a command of its own; `None` once one is refused. */
  ghost function OneByOne(hash: Bytes -> Digest, m: RecordMachine, ops: seq<MutateOp>): Option<RecordMachine>
    decreases |ops|
  {
    if ops == [] then Some(m)
    else
      var (m', r) := Apply(hash, m, Mutate(ops[0]));
      if r.Err? then None else OneByOne(hash, m', ops[1..])
  }

  lemma {:induction false} MutateAlike(hash: Bytes -> Digest, a: RecordMachine, b: RecordMachine, op: MutateOp)
    requires Alike(a, b)
    ensures var (b', r) := Apply(hash, b, Mutate(op));
            && (MutateRecord(hash, a, op).Done? <==> r.Ok?)
            && (r.Ok? ==> Alike(MutateRecord(hash, a, op).machine, b') && b'.revision == Next(b))
  {
    hide Retain, KeyPrefix.MaxPayload, KeyPrefix.Class, BudgetLimit;
  }

  lemma {:induction false} MutateAllAlike(hash: Bytes -> Digest, a: RecordMachine, b: RecordMachine, ops: seq<MutateOp>)
    requires Alike(a, b)
    ensures MutateAll(hash, a, ops).Done? <==> OneByOne(hash, b, ops).Some?
    ensures OneByOne(hash, b, ops).Some? ==>
              Alike(MutateAll(hash, a, ops).machine, OneByOne(hash, b, ops).value)
              && OneByOne(hash, b, ops).value.revision == Min(b.revision + |ops|, U64_MAX)
    decreases |ops|
  {
    hide Apply, MutateRecord;
    if ops != [] {
      MutateAlike(hash, a, b, ops[0]);
      var (b', r) := Apply(hash, b, Mutate(ops[0]));
      if r.Ok? {
        MutateAllAlike(hash, MutateRecord(hash, a, ops[0]).machine, b', ops[1..]);
      }
    }
  }

  /**
   * A transaction picks its operations by its comparisons and is then all of them, one by one, or
   * nothing at all.
   */
  lemma {:induction false} TxnIsAllOrNothing(hash: Bytes -> Digest, m: RecordMachine, comparisons: seq<Comparison>,
                                             successOps: seq<MutateOp>, failureOps: seq<MutateOp>)
    ensures var (m', r) := Apply(hash, m, Txn(comparisons, successOps, failureOps));
            var met := forall c :: c in comparisons ==> AsExpected(m, c.key, c.expected);
            var ops := if met then successOps else failureOps;
            var done := OneByOne(hash, m, ops);
            && (r.Ok? <==> done.Some?) && (r.Err? ==> m' == m)
            && (r.Ok? ==> Alike(m', done.value) && m'.revision == Min(m.revision + |ops|, U64_MAX)
                          && r.result.txnSucceeded == Some(met))
  {
    hide MutateAll, OneByOne, Retain;
    var ok := forall c | c in comparisons :: Meets(m, c.key, c.expected);
    assert ok <==> forall c :: c in comparisons ==> AsExpected(m, c.key, c.expected) by {
      forall c | c in comparisons ensures Meets(m, c.key, c.expected) <==> AsExpected(m, c.key, c.expected) {
      }
    }
    MutateAllAlike(hash, m, m, if ok then successOps else failureOps);
  }

  /** Lease ids are handed out in order, so a grant takes none that is in use, short of the last. */
  ghost predicate Numbered(t: LeaseTable) {
    forall id :: id in t.leases ==> 0 < id <= t.nextId && t.leases[id].id == id
  }

  lemma {:induction false} ApplyKeepsNumbered(hash: Bytes -> Digest, m: RecordMachine, cmd: Command)
    requires Numbered(m.leases)
    ensures Numbered(Apply(hash, m, cmd).0.leases)
    ensures cmd.LeaseGrant? && Apply(hash, m, cmd).1.Ok? && m.leases.nextId < U64_MAX ==>
              Apply(hash, m, cmd).1.result.lease.value.id !in m.leases.leases
  {
    hide MutateRecord, MutateAll, Meets, Retain, DueLeases, CompactThrough, Revoked;
    if cmd.Mutate? || cmd.Txn? {
      MutationsLeaveLeases(hash, m, cmd);
    }
  }

  lemma {:induction false} MutateAllLeavesLeases(hash: Bytes -> Digest, m: RecordMachine, ops: seq<MutateOp>)
    requires MutateAll(hash, m, ops).Done?
    ensures MutateAll(hash, m, ops).machine.leases == m.leases && MutateAll(hash, m, ops).machine.nowMs == m.nowMs
    decreases |ops|
  {
    hide Meets, KeyPrefix.MaxPayload, KeyPrefix.Class, BudgetLimit;
    if ops != [] {
      MutateAllLeavesLeases(hash, MutateRecord(hash, m, ops[0]).machine, ops[1..]);
    }
  }

  lemma {:induction false} MutationsLeaveLeases(hash: Bytes -> Digest, m: RecordMachine, cmd: Command)
    requires cmd.Mutate? || cmd.Txn?
    ensures Apply(hash, m, cmd).0.leases == m.leases && Apply(hash, m, cmd).0.nowMs == m.nowMs
  {
    hide Meets, Retain, KeyPrefix.MaxPayload, KeyPrefix.Class, BudgetLimit, MutateAll;
    if cmd.Txn? {
      var ok := forall c | c in cmd.comparisons :: Meets(m, c.key, c.expected);
      var ops := if ok then cmd.successOps else cmd.failureOps;
      if MutateAll(hash, m, ops).Done? {
        MutateAllLeavesLeases(hash, m, ops);
      }
    }
  }

  /** What a command carrying a time does to clock and leases, if its time has not gone back. */
  ghost predicate LeasesMoved(m: RecordMachine, m': RecordMachine, cmd: Command, r: Reply) {
    match cmd
    case LeaseGrant(purpose, now) =>
      && r.Ok? && r.result.lease.Some? && m'.nowMs == now
      && var lease := r.result.lease.value;
         && lease.purpose == purpose && lease.id == m'.leases.nextId == Min(m.leases.nextId + 1, U64_MAX)
         && lease.ttlMs == purpose.TtlMs() && lease.expiresAtMs == Min(now + lease.ttlMs, U64_MAX)
         && m'.leases.leases == m.leases.leases[lease.id := lease]
    case LeaseRenew(id, now) =>
      && m'.nowMs == now
      && (r.Ok? <==> id in m.leases.leases && m.leases.leases[id].expiresAtMs > now)
      && if r.Ok? then
           var lease := m.leases.leases[id].(expiresAtMs := Min(now + m.leases.leases[id].ttlMs, U64_MAX));
           r.result.lease == Some(lease) && m'.leases.leases == m.leases.leases[id := lease]
         else m'.leases.leases == m.leases.leases - {id}
    case ExpireLeases(now) =>
      && r.Ok? && m'.nowMs == now
      && (forall id :: id in r.result.expiredLeaseIds
           <==> id in m.leases.leases && m.leases.leases[id].expiresAtMs <= now)
      && m'.leases.leases == m.leases.leases - Elements(r.result.expiredLeaseIds)
    case AdvanceTime(now) => r.Ok? && m'.nowMs == now && m'.leases == m.leases
    case _ => true
  }

  ghost predicate Timed(cmd: Command) {
    cmd.LeaseGrant? || cmd.LeaseRenew? || cmd.ExpireLeases? || cmd.AdvanceTime?
  }

  /** A lease runs for its purpose's time from its grant or renewal, and expiry takes exactly the leases past it. */
  lemma {:induction false} LeasesAfter(hash: Bytes -> Digest, m: RecordMachine, cmd: Command)
    requires Timed(cmd)
    ensures var (m', r) := Apply(hash, m, cmd);
            if cmd.nowMs < m.nowMs then r.Err? && m' == m else LeasesMoved(m, m', cmd, r)
  {
    hide MutateRecord, MutateAll, Meets, Retain, CompactThrough, LeasePurpose.TtlMs, DueLeases, Revoked;
    if cmd.ExpireLeases? {
      DueExactly(m.leases, cmd.nowMs);
    }
  }

  lemma {:induction false} DueExactly(t: LeaseTable, now: u64)
    ensures forall id :: id in DueLeases(t, now) <==> id in t.leases && t.leases[id].expiresAtMs <= now
  {
    NatOrder();
  }

  /** Revoking takes exactly one lease. */
  lemma {:induction false} RevokeApplied(hash: Bytes -> Digest, m: RecordMachine, id: nat)
    ensures var (m', r) := Apply(hash, m, LeaseRevoke(id));
            && (r.Ok? <==> id in m.leases.leases)
            && (r.Ok? ==> m'.leases.leases == m.leases.leases - {id} && m'.revision == Next(m))
  {
    hide Retain;
  }
}
