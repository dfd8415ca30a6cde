/** What every command log guarantees of the replicated state. */
module ClusterLaws {
  import opened Machine
  import opened Ordered
  import opened Sums
  import opened ClusterSpec
  import Records

  // ---- The invariant ------------------------------------------------------

  ghost predicate DesiredWithinBudget(lim: Limits, desired: map<DesiredKey, DesiredEntry>) {
    && |desired| <= lim.maxDesired
    && Sum(desired, StoredBytes) <= lim.maxDesiredBytes
    && forall k :: k in desired ==> WellFormedEntry(k, desired[k])
  }

  ghost predicate WellFormedEntry(key: DesiredKey, e: DesiredEntry) {
    IsLabel(key.0) && IsLabel(key.1) && e.generation >= 1 && |e.payload| <= DESIRED_MAX_PAYLOAD_BYTES
  }

  /** Every completion belongs to the current generation of an existing declaration. */
  ghost predicate CompletionsCurrent(desired: map<DesiredKey, DesiredEntry>, completions: set<Completion>) {
    && |completions| <= FINITE_COMPLETION_MAX_ENTRIES
    && forall x :: x in completions ==> (x.0, x.1) in desired && desired[(x.0, x.1)].generation == x.2
  }

  ghost predicate ReceiptsSound(c: Cluster) {
    forall id :: id in c.receipts ==>
      c.receipts[id].recordedAtMs <= c.records.nowMs && c.receipts[id].response.Applied?
  }

  /** No receipt is past its time to live, and the ceiling holds. */
  ghost predicate ReceiptsBounded(lim: Limits, c: Cluster) {
    && |c.receipts| <= lim.maxReceipts
    && forall id :: id in c.receipts ==> c.records.nowMs <= c.receipts[id].recordedAtMs + lim.ttlMs
  }

  ghost predicate Body(lim: Limits, c: Cluster) {
    Records.Inv(c.records) && DesiredWithinBudget(lim, c.desired) && CompletionsCurrent(c.desired, c.completions)
  }

  ghost predicate Inv(lim: Limits, c: Cluster) {
    Body(lim, c) && ReceiptsSound(c) && ReceiptsBounded(lim, c)
  }

  lemma {:induction false} EmptyInv(lim: Limits)
    requires lim.Usable()
    ensures Inv(lim, EMPTY)
  {
    Records.EmptyInv();
  }

  // ---- One command keeps it -----------------------------------------------

  /** The saturating budget arithmetic is exact: what it compares is the size of the new map. */
  lemma {:induction false} TotalAfterExact(lim: Limits, desired: map<DesiredKey, DesiredEntry>, key: DesiredKey,
                                           e: DesiredEntry)
    requires lim.Usable() && DesiredWithinBudget(lim, desired)
    requires TotalAfter(desired, key, e.payload) <= lim.maxDesiredBytes
    ensures Sum(desired[key := e], StoredBytes) == TotalAfter(desired, key, e.payload)
  {
    SumPut(desired, key, e, StoredBytes);
    if key in desired {
      SumEntry(desired, key, StoredBytes);
    }
  }

  lemma {:induction false} PutWithinBudget(lim: Limits, desired: map<DesiredKey, DesiredEntry>, key: DesiredKey,
                                           e: DesiredEntry)
    requires lim.Usable() && DesiredWithinBudget(lim, desired) && WellFormedEntry(key, e)
    requires TotalAfter(desired, key, e.payload) <= lim.maxDesiredBytes
    requires key in desired || |desired| < lim.maxDesired
    ensures DesiredWithinBudget(lim, desired[key := e])
  {
    TotalAfterExact(lim, desired, key, e);
    assert desired[key := e].Keys == desired.Keys + {key};
  }

  lemma {:induction false} PutKeepsCompletions(desired: map<DesiredKey, DesiredEntry>, completions: set<Completion>,
                            key: DesiredKey, e: DesiredEntry)
    requires CompletionsCurrent(desired, completions)
    ensures CompletionsCurrent(desired[key := e], Others(completions, key))
  {
    SubsetSize(Others(completions, key), completions);
  }

  /** The body of the state stays sound, receipts are untouched and the clock does not go back. */
  ghost predicate Keeps(lim: Limits, c: Cluster, c': Cluster) {
    Body(lim, c') && c'.receipts == c.receipts && c'.records.nowMs >= c.records.nowMs
  }

  lemma {:induction false} PutKeeps(lim: Limits, c: Cluster, key: DesiredKey, expected: u64, payload: Bytes,
                                    digest: Digest)
    requires lim.Usable() && Body(lim, c)
    ensures Keeps(lim, c, PutDesiredStep(lim, c, key, expected, payload, digest).0)
  {
    hide IsLabel, TotalAfter, Others;
    var c' := PutDesiredStep(lim, c, key, expected, payload, digest).0;
    if c' != c {
      var e := DesiredEntry(SatAdd(expected, 1, U64_MAX), digest, payload);
      assert c'.desired == c.desired[key := e] && c'.completions == Others(c.completions, key);
      PutWithinBudget(lim, c.desired, key, e);
      PutKeepsCompletions(c.desired, c.completions, key, e);
      Records.AccountedFrame(c.records, c'.records);
    }
  }

  lemma {:induction false} CompleteKeeps(lim: Limits, c: Cluster, key: DesiredKey, generation: u64, unit: UnitId)
    requires Body(lim, c)
    ensures Keeps(lim, c, CompleteFiniteStep(c, key, generation, unit).0)
  {
    hide IsLabel;
    Records.AccountedFrame(c.records, CompleteFiniteStep(c, key, generation, unit).0.records);
  }

  /** The record machine and the controller move without touching declarations. */
  lemma {:induction false} RecordsMoveKeeps(lim: Limits, c: Cluster, c': Cluster)
    requires Body(lim, c) && Records.Inv(c'.records) && c'.records.nowMs >= c.records.nowMs
    requires c'.desired == c.desired && c'.completions == c.completions && c'.receipts == c.receipts
    ensures Keeps(lim, c, c')
  {
  }

  lemma {:induction false} AcquireKeeps(h: Hashes, lim: Limits, c: Cluster, holder: u64)
    requires Body(lim, c)
    ensures Keeps(lim, c, AcquireStep(h, c, holder).0)
  {
    var c' := AcquireStep(h, c, holder).0;
    Records.AccountedFrame(c.records, c'.records);
    RecordsMoveKeeps(lim, c, c');
  }

  lemma {:induction false} RecordKeeps(h: Hashes, lim: Limits, c: Cluster, cmd: Records.Command)
    requires Body(lim, c)
    ensures Keeps(lim, c, c.(records := Records.Apply(h.content, c.records, cmd).0))
  {
    hide Records.Apply;
    Records.ApplyKeepsInv(h.content, c.records, cmd);
    RecordsMoveKeeps(lim, c, c.(records := Records.Apply(h.content, c.records, cmd).0));
  }

  lemma {:induction false} InnerKeeps(h: Hashes, lim: Limits, c: Cluster, cmd: RaftCommand)
    requires lim.Usable() && Body(lim, c)
    ensures Keeps(lim, c, Inner(h, lim, c, cmd).0)
  {
    match cmd {
      case Record(rc) =>
        hide Records.Apply, Keeps, Body;
        RecordKeeps(h, lim, c, rc);
      case AcquireController(holder) =>
        hide AcquireStep, Keeps, Body;
        AcquireKeeps(h, lim, c, holder);
      case PutDesired(ns, app, expected, payload, digest) =>
        hide PutDesiredStep, Keeps, Body;
        PutKeeps(lim, c, (ns, app), expected, payload, digest);
      case CompleteFinite(ns, app, generation, unit) =>
        hide CompleteFiniteStep, Keeps, Body;
        CompleteKeeps(lim, c, (ns, app), generation, unit);
      case Idempotent(_, _, _) =>
    }
  }

  predicate Older(m: map<OperationId, Receipt>, a: OperationId, b: OperationId)
    requires a in m && b in m
  {
    PairLess((m[a].recordedAtMs, a), (m[b].recordedAtMs, b))
  }

  /** Eviction removes receipts in `(time, id)` order: whatever goes is older than whatever stays. */
  lemma {:induction false} EvictsOldestFirst(m: map<OperationId, Receipt>, max: nat)
    requires max >= 1
    ensures MakeRoom(m, max).Keys <= m.Keys
    ensures forall k :: k in MakeRoom(m, max) ==> MakeRoom(m, max)[k] == m[k]
    ensures forall gone, kept :: gone in m && gone !in MakeRoom(m, max) && kept in MakeRoom(m, max)
              ==> Older(m, gone, kept)
    ensures |MakeRoom(m, max)| == Min(|m|, max - 1)
    ensures |m| < max ==> MakeRoom(m, max) == m
    decreases |m|
  {
    if |m| >= max {
      var first := OldestReceipt(m);
      var rest := m - {first};
      EvictsOldestFirst(rest, max);
      assert |m| == |rest| + 1 by {
        assert m.Keys == rest.Keys + {first};
      }
      var kept := MakeRoom(m, max);
      forall gone, k | gone in m && gone !in kept && k in kept ensures Older(m, gone, k) {
        assert k in rest;
        assert gone != first ==> gone in rest;
      }
    }
  }

  lemma {:induction false} EnvelopedKeeps(h: Hashes, lim: Limits, c: Cluster, id: OperationId, digest: Digest,
                                          inner: RaftCommand)
    requires lim.Usable() && Inv(lim, c)
    ensures var c' := Enveloped(h, lim, c, id, digest, inner).0;
            Body(lim, c') && ReceiptsSound(c') && |c'.receipts| <= lim.maxReceipts
            && c'.records.nowMs >= c.records.nowMs
  {
    hide Inner, MakeRoom, Records.Inv, DesiredWithinBudget, CompletionsCurrent;
    InnerKeeps(h, lim, c, inner);
    var c1 := Inner(h, lim, c, inner).0;
    EvictsOldestFirst(c1.receipts, lim.maxReceipts);
  }

  /** In a reachable state nothing is waiting to expire. */
  lemma {:induction false} ExpireIdle(lim: Limits, c: Cluster)
    requires ReceiptsBounded(lim, c)
    ensures Expire(c, lim.ttlMs) == c
  {
    assert FreshReceipts(c.receipts, c.records.nowMs, lim.ttlMs) == c.receipts;
  }

  lemma {:induction false} ExpireBounds(lim: Limits, c: Cluster)
    requires Body(lim, c) && ReceiptsSound(c) && |c.receipts| <= lim.maxReceipts
    ensures Inv(lim, Expire(c, lim.ttlMs))
  {
    var c' := Expire(c, lim.ttlMs);
    SubsetSize(c'.receipts.Keys, c.receipts.Keys);
  }

  /**
   * After every command: budgets and ceilings hold, completions are current, no receipt is
   * older than the limit, and the clock has not gone back.
   */
  lemma {:induction false} StepKeepsInv(h: Hashes, lim: Limits, c: Cluster, cmd: RaftCommand)
    requires lim.Usable() && Inv(lim, c)
    ensures Inv(lim, Step(h, lim, c, cmd).0)
    ensures Step(h, lim, c, cmd).0.records.nowMs >= c.records.nowMs
  {
    hide Inner, Enveloped, Body;
    ExpireIdle(lim, c);
    if cmd.Idempotent? {
      EnvelopedKeeps(h, lim, c, cmd.operationId, cmd.requestDigest, cmd.inner);
      ExpireBounds(lim, Enveloped(h, lim, c, cmd.operationId, cmd.requestDigest, cmd.inner).0);
    } else {
      InnerKeeps(h, lim, c, cmd);
      ExpireBounds(lim, Inner(h, lim, c, cmd).0);
    }
  }

  lemma {:induction false} RunKeepsInv(h: Hashes, lim: Limits, c: Cluster, log: seq<RaftCommand>)
    requires lim.Usable() && Inv(lim, c)
    ensures Inv(lim, Run(h, lim, c, log).0)
    ensures |Run(h, lim, c, log).1| == |log|
    decreases |log|
  {
    hide Step, Inv;
    if log != [] {
      var front := log[..|log| - 1];
      RunKeepsInv(h, lim, c, front);
      StepKeepsInv(h, lim, Run(h, lim, c, front).0, log[|log| - 1]);
    }
  }

  /** The state after the first `i` commands. */
  ghost function At(h: Hashes, lim: Limits, c: Cluster, log: seq<RaftCommand>, i: nat): Cluster
    requires lim.Usable() && i <= |log|
  {
    Run(h, lim, c, log[..i]).0
  }

  lemma {:induction false} AtNext(h: Hashes, lim: Limits, c: Cluster, log: seq<RaftCommand>, i: nat)
    requires lim.Usable() && i < |log|
    ensures At(h, lim, c, log, i + 1) == Step(h, lim, At(h, lim, c, log, i), log[i]).0
  {
    assert log[..i + 1][..i] == log[..i];
  }

  // ---- Snapshots ----------------------------------------------------------

  /** The record machine without its change buffer, which is not serialized. */
  datatype RecordImage = RecordImage(
    revision: u64, records: map<Records.RecordKey, Records.RecordValue>, usage: Records.BudgetUsage,
    nowMs: u64, watch: Records.WatchHistory, leases: Records.LeaseTable)

  /** What `Serialize` writes and `Deserialize` reads. */
  datatype Image = Image(
    records: RecordImage,
    controller: Authority,
    desired: map<DesiredKey, DesiredEntry>,
    completions: set<Completion>,
    receipts: map<OperationId, Receipt>)

  function Save(c: Cluster): Image {
    var m := c.records;
    Image(RecordImage(m.revision, m.records, m.usage, m.nowMs, m.watch, m.leases),
          c.controller, c.desired, c.completions, c.receipts)
  }

  function Load(i: Image): Cluster {
    var m := i.records;
    Cluster(Records.RecordMachine(m.revision, m.records, m.usage, m.nowMs, m.watch, m.leases, []),
            i.controller, i.desired, i.completions, i.receipts)
  }

  /** The snapshot loses nothing exactly when no change is buffered. */
  lemma {:induction false} LoadSave(c: Cluster)
    ensures Load(Save(c)) == c <==> c.records.pending == []
  {
  }

  lemma {:induction false} NothingBuffered(lim: Limits, c: Cluster)
    requires Inv(lim, c)
    ensures c.records.pending == []
  {
  }

  // ---- Exactly once -------------------------------------------------------

  /**
   * While a receipt is retained, resubmitting its operation changes nothing: the same digest
   * gets the original response back, any other digest is refused, whatever the inner command.
   */
  lemma {:induction false} RetainedReceiptAnswers(h: Hashes, lim: Limits, c: Cluster,
                               id: OperationId, digest: Digest, inner: RaftCommand)
    requires lim.Usable() && Inv(lim, c) && id in c.receipts
    ensures Step(h, lim, c, Idempotent(id, digest, inner))
            == (c, if c.receipts[id].requestDigest == digest
                   then Replay(c.receipts[id].response) else Rejected(IdempotencyConflict(id)))
  {
    ExpireIdle(lim, c);
  }

  /**
   * A receipt is never rewritten, and leaves in one of two ways only: it is past its time to
   * live at the new clock, or it was evicted for a newer receipt at the ceiling while being
   * older than every receipt that stayed.
   */
  lemma {:induction false} ReceiptLeavesOnlyByAgeOrCeiling(h: Hashes, lim: Limits, c: Cluster, cmd: RaftCommand,
                                                           id: OperationId)
    requires lim.Usable() && Inv(lim, c) && id in c.receipts
    ensures var c' := Step(h, lim, c, cmd).0;
            if id in c'.receipts then c'.receipts[id] == c.receipts[id]
            else
              || c.receipts[id].recordedAtMs + lim.ttlMs < c'.records.nowMs
              || (|c.receipts| == lim.maxReceipts && cmd.Idempotent? && cmd.operationId !in c.receipts
                  && forall k :: k in c'.receipts && k != cmd.operationId ==>
                       k in c.receipts && Older(c.receipts, id, k))
  {
    hide Inner, MakeRoom, Body;
    ExpireIdle(lim, c);
    var c' := Step(h, lim, c, cmd).0;
    if cmd.Idempotent? {
      InnerKeeps(h, lim, c, cmd.inner);
      EvictsOldestFirst(c.receipts, lim.maxReceipts);
    } else {
      InnerKeeps(h, lim, c, cmd);
    }
  }

  /** Recording and immediately resubmitting: an applied command leaves its own receipt. */
  lemma {:induction false} AppliedLeavesReceipt(h: Hashes, lim: Limits, c: Cluster, id: OperationId, digest: Digest,
                                                inner: RaftCommand)
    requires lim.Usable() && Inv(lim, c)
    requires Step(h, lim, c, Idempotent(id, digest, inner)).1.Applied?
    ensures var (c', r) := Step(h, lim, c, Idempotent(id, digest, inner));
            id in c'.receipts && c'.receipts[id] == Receipt(digest, r, c'.records.nowMs)
  {
    hide Inner, MakeRoom, Body;
    ExpireIdle(lim, c);
    if id !in c.receipts {
      InnerKeeps(h, lim, c, inner);
    }
  }

  ghost predicate RetainedThroughout(h: Hashes, lim: Limits, c: Cluster, log: seq<RaftCommand>, id: OperationId)
    requires lim.Usable()
  {
    forall i :: 0 <= i <= |log| ==> id in At(h, lim, c, log, i).receipts
  }

  lemma {:induction false} RetainedUnchanged(h: Hashes, lim: Limits, c: Cluster, log: seq<RaftCommand>,
                                             id: OperationId, i: nat)
    requires lim.Usable() && Inv(lim, c) && RetainedThroughout(h, lim, c, log, id) && i <= |log|
    ensures id in c.receipts && At(h, lim, c, log, i).receipts[id] == c.receipts[id]
  {
    hide Step, Inv;
    assert log[..0] == [];
    assert At(h, lim, c, log, 0) == c;
    if i > 0 {
      RetainedUnchanged(h, lim, c, log, id, i - 1);
      AtNext(h, lim, c, log, i - 1);
      RunKeepsInv(h, lim, c, log[..i - 1]);
      assert id in At(h, lim, c, log, i).receipts;
      ReceiptLeavesOnlyByAgeOrCeiling(h, lim, At(h, lim, c, log, i - 1), log[i - 1], id);
    }
  }

  /**
   * Submit once, let any commands follow while the receipt is kept, submit again: the second
   * answer is the first one, and the second submission changes nothing.
   */
  lemma {:induction false} ResubmissionReplays(h: Hashes, lim: Limits, c: Cluster, id: OperationId, digest: Digest,
                            inner: RaftCommand, between: seq<RaftCommand>)
    requires lim.Usable() && Inv(lim, c)
    requires Step(h, lim, c, Idempotent(id, digest, inner)).1.Applied?
    requires RetainedThroughout(h, lim, Step(h, lim, c, Idempotent(id, digest, inner)).0, between, id)
    ensures var (c1, first) := Step(h, lim, c, Idempotent(id, digest, inner));
            var c2 := Run(h, lim, c1, between).0;
            Step(h, lim, c2, Idempotent(id, digest, inner)) == (c2, Replay(first))
  {
    hide Step, Inv;
    var (c1, first) := Step(h, lim, c, Idempotent(id, digest, inner));
    AppliedLeavesReceipt(h, lim, c, id, digest, inner);
    StepKeepsInv(h, lim, c, Idempotent(id, digest, inner));
    RetainedUnchanged(h, lim, c1, between, id, |between|);
    RunKeepsInv(h, lim, c1, between);
    assert between[..|between|] == between;
    RetainedReceiptAnswers(h, lim, Run(h, lim, c1, between).0, id, digest, inner);
  }

  // ---- Generations --------------------------------------------------------

  /** The declaration a command carries, inside an envelope or not. */
  function Carried(cmd: RaftCommand): RaftCommand {
    if cmd.Idempotent? then cmd.inner else cmd
  }

  /** The command moved this key's generation. */
  ghost predicate TakesEffect(h: Hashes, lim: Limits, c: Cluster, cmd: RaftCommand, key: DesiredKey)
    requires lim.Usable()
  {
    Generation(Step(h, lim, c, cmd).0, key) != Generation(c, key)
  }

  ghost predicate SameEntry(c: Cluster, c': Cluster, key: DesiredKey) {
    (key in c'.desired <==> key in c.desired) && (key in c.desired ==> c'.desired[key] == c.desired[key])
  }

  lemma {:induction false} InnerGeneration(h: Hashes, lim: Limits, c: Cluster, cmd: RaftCommand, key: DesiredKey)
    requires lim.Usable()
    ensures var (c', r) := Inner(h, lim, c, cmd);
            || (Generation(c', key) == Generation(c, key) && SameEntry(c, c', key))
            || (cmd.PutDesired? && (cmd.namespace, cmd.app) == key
                && cmd.expectedGeneration == Generation(c, key)
                && Generation(c', key) == Generation(c, key) + 1
                && key in c'.desired && c'.desired[key] == DesiredEntry(Generation(c', key), cmd.contentDigest, cmd.payload)
                && r == Outcome(c'.records.revision, Generation(c', key)))
  {
    if cmd.PutDesired? {
      var k := (cmd.namespace, cmd.app);
      var c' := PutDesiredStep(lim, c, k, cmd.expectedGeneration, cmd.payload, cmd.contentDigest).0;
      assert k != key ==> SameEntry(c, c', key);
    }
  }

  /**
   * A generation moves only by one, and only under a declaration of that key that expected it,
   * which is then what is stored; nothing else changes the key's entry.
   */
  lemma {:induction false} StepGeneration(h: Hashes, lim: Limits, c: Cluster, cmd: RaftCommand, key: DesiredKey)
    requires lim.Usable()
    ensures TakesEffect(h, lim, c, cmd, key) ==>
              var (c', r) := Step(h, lim, c, cmd);
              var put := Carried(cmd);
              put.PutDesired? && (put.namespace, put.app) == key
              && put.expectedGeneration == Generation(c, key)
              && Generation(c', key) == Generation(c, key) + 1
              && key in c'.desired && c'.desired[key] == DesiredEntry(Generation(c', key), put.contentDigest, put.payload)
              && r == Outcome(c'.records.revision, Generation(c', key))
    ensures !TakesEffect(h, lim, c, cmd, key) ==> SameEntry(c, Step(h, lim, c, cmd).0, key)
  {
    hide Inner;
    InnerGeneration(h, lim, Expire(c, lim.ttlMs), Carried(cmd), key);
  }

  lemma {:induction false} InnerEffectIffApplied(h: Hashes, lim: Limits, c: Cluster, cmd: RaftCommand, key: DesiredKey)
    requires lim.Usable() && Generation(c, key) < U64_MAX
    ensures var (c', r) := Inner(h, lim, c, cmd);
            Generation(c', key) != Generation(c, key)
            <==> cmd.PutDesired? && (cmd.namespace, cmd.app) == key && r.Applied?
  {
    hide IsLabel, TotalAfter, Others;
    if cmd.PutDesired? {
      var k := (cmd.namespace, cmd.app);
      var c' := PutDesiredStep(lim, c, k, cmd.expectedGeneration, cmd.payload, cmd.contentDigest).0;
      assert k != key ==> Generation(c', key) == Generation(c, key);
    }
  }

  /** Short of the last generation, a declaration takes effect exactly when it is answered as applied, not replayed. */
  lemma {:induction false} EffectIffApplied(h: Hashes, lim: Limits, c: Cluster, cmd: RaftCommand, key: DesiredKey)
    requires lim.Usable() && Generation(c, key) < U64_MAX
    ensures TakesEffect(h, lim, c, cmd, key)
            <==> var put := Carried(cmd);
                 put.PutDesired? && (put.namespace, put.app) == key && Step(h, lim, c, cmd).1.Applied?
  {
    hide Inner;
    InnerEffectIffApplied(h, lim, Expire(c, lim.ttlMs), Carried(cmd), key);
  }

  /** How many commands of the log moved this key's generation. */
  ghost function EffectsOn(h: Hashes, lim: Limits, c: Cluster, log: seq<RaftCommand>, key: DesiredKey): nat
    requires lim.Usable()
    decreases |log|
  {
    if log == [] then 0 else
      var front := log[..|log| - 1];
      EffectsOn(h, lim, c, front, key)
      + if TakesEffect(h, lim, Run(h, lim, c, front).0, log[|log| - 1], key) then 1 else 0
  }

  /** In every run a key's generation is the number of declarations of it that took effect. */
  lemma {:induction false} GenerationCountsEffects(h: Hashes, lim: Limits, log: seq<RaftCommand>, key: DesiredKey)
    requires lim.Usable()
    ensures Generation(Run(h, lim, EMPTY, log).0, key) == EffectsOn(h, lim, EMPTY, log, key)
    decreases |log|
  {
    hide Step;
    if log != [] {
      var front := log[..|log| - 1];
      GenerationCountsEffects(h, lim, front, key);
      StepGeneration(h, lim, Run(h, lim, EMPTY, front).0, log[|log| - 1], key);
    }
  }

  // ---- Controller epochs --------------------------------------------------

  function Epoch(c: Cluster): u64 {
    if c.controller.current.Some? then c.controller.current.value.epoch else 0
  }

  /**
   * The current token: its fence is the hash of its epoch, the holder and a fresh nonce, and its
   * lease is one granted now, for ten seconds.
   */
  ghost predicate Held(h: Hashes, c: Cluster, c': Cluster) {
    && c'.controller.current.Some? && c'.controller.holder.Some?
    && c'.controller.acquireNonce == Min(c.controller.acquireNonce + 1, U64_MAX)
    && var token := c'.controller.current.value;
       && token.fence == h.fence(token.epoch, c'.controller.holder.value, c'.controller.acquireNonce)
       && token.leaseId in c'.records.leases.leases
       && var lease := c'.records.leases.leases[token.leaseId];
          && lease.id == token.leaseId == Min(c.records.leases.nextId + 1, U64_MAX)
          && lease.expiresAtMs == Min(c.records.nowMs + 10_000, U64_MAX)
  }

  lemma {:induction false} InnerEpoch(h: Hashes, lim: Limits, c: Cluster, cmd: RaftCommand)
    requires lim.Usable()
    ensures var (c', r) := Inner(h, lim, c, cmd);
            if cmd.AcquireController?
            then Epoch(c') == Min(Epoch(c) + 1, U64_MAX) && c'.controller.holder == Some(cmd.holder)
                 && r.Applied? && r.outcome.controller == c'.controller.current && Held(h, c, c')
                 && r.outcome.leaseId == Some(c'.controller.current.value.leaseId)
            else c'.controller == c.controller
  {
    hide PutDesiredStep, CompleteFiniteStep, Records.Apply;
    match cmd {
      case PutDesired(ns, app, expected, payload, digest) =>
        PutLeavesController(lim, c, (ns, app), expected, payload, digest);
      case CompleteFinite(ns, app, generation, unit) =>
        CompleteLeavesController(c, (ns, app), generation, unit);
      case _ =>
    }
  }

  lemma {:induction false} PutLeavesController(lim: Limits, c: Cluster, key: DesiredKey, expected: u64,
                                               payload: Bytes, digest: Digest)
    ensures PutDesiredStep(lim, c, key, expected, payload, digest).0.controller == c.controller
  {
  }

  lemma {:induction false} CompleteLeavesController(c: Cluster, key: DesiredKey, generation: u64, unit: UnitId)
    ensures CompleteFiniteStep(c, key, generation, unit).0.controller == c.controller
  {
  }

  /** Epochs never go back: only an acquisition moves them, by one, and an answer to one hands out the new token. */
  lemma {:induction false} StepEpoch(h: Hashes, lim: Limits, c: Cluster, cmd: RaftCommand)
    requires lim.Usable()
    ensures var (c', r) := Step(h, lim, c, cmd);
            if Carried(cmd).AcquireController? && r.Applied?
            then Epoch(c') == Min(Epoch(c) + 1, U64_MAX) && r.outcome.controller == c'.controller.current
                 && c'.controller.holder == Some(Carried(cmd).holder) && Held(h, c, c')
                 && r.outcome.leaseId == Some(c'.controller.current.value.leaseId)
            else c'.controller == c.controller
  {
    hide Inner;
    InnerEpoch(h, lim, Expire(c, lim.ttlMs), Carried(cmd));
  }

  /** In every run, of two applied acquisitions the later one holds the larger epoch, short of the last. */
  lemma {:induction false} LaterControllerLargerEpoch(h: Hashes, lim: Limits, c: Cluster, log: seq<RaftCommand>,
                                                      i: nat, j: nat)
    requires lim.Usable() && i <= j <= |log|
    ensures Epoch(At(h, lim, c, log, i)) <= Epoch(At(h, lim, c, log, j))
    ensures i < j && Carried(log[j - 1]).AcquireController? && Epoch(At(h, lim, c, log, i)) < U64_MAX
            && Step(h, lim, At(h, lim, c, log, j - 1), log[j - 1]).1.Applied? ==>
              Epoch(At(h, lim, c, log, i)) < Epoch(At(h, lim, c, log, j))
    decreases j - i
  {
    hide Step, At;
    if i < j {
      LaterControllerLargerEpoch(h, lim, c, log, i, j - 1);
      AtNext(h, lim, c, log, j - 1);
      StepEpoch(h, lim, At(h, lim, c, log, j - 1), log[j - 1]);
    }
  }

  // ---- Generations over runs ----------------------------------------------

  lemma {:induction false} GenerationsGrow(h: Hashes, lim: Limits, c: Cluster, log: seq<RaftCommand>,
                                           key: DesiredKey, i: nat, j: nat)
    requires lim.Usable() && i <= j <= |log|
    ensures Generation(At(h, lim, c, log, i), key) <= Generation(At(h, lim, c, log, j), key)
    decreases j - i
  {
    hide Step;
    if i < j {
      GenerationsGrow(h, lim, c, log, key, i, j - 1);
      AtNext(h, lim, c, log, j - 1);
      StepGeneration(h, lim, At(h, lim, c, log, j - 1), log[j - 1], key);
    }
  }

  /**
   * At most one declaration per key and expected generation ever takes effect, whether or not
   * receipts were kept: of two that did, the later one expected a larger generation.
   */
  lemma {:induction false} AtMostOneEffectPerGeneration(h: Hashes, lim: Limits, c: Cluster, log: seq<RaftCommand>,
                                     key: DesiredKey, i: nat, j: nat)
    requires lim.Usable() && i < j < |log|
    requires TakesEffect(h, lim, At(h, lim, c, log, i), log[i], key)
    requires TakesEffect(h, lim, At(h, lim, c, log, j), log[j], key)
    ensures Carried(log[i]).PutDesired? && Carried(log[j]).PutDesired?
    ensures Carried(log[i]).expectedGeneration < Carried(log[j]).expectedGeneration
  {
    hide Step, At;
    StepGeneration(h, lim, At(h, lim, c, log, i), log[i], key);
    StepGeneration(h, lim, At(h, lim, c, log, j), log[j], key);
    AtNext(h, lim, c, log, i);
    GenerationsGrow(h, lim, c, log, key, i + 1, j);
  }

  // ---- Completions --------------------------------------------------------

  /** The completion a command asks for. */
  function Asked(cmd: RaftCommand): Completion
    requires Carried(cmd).CompleteFinite?
  {
    var ask := Carried(cmd);
    (ask.namespace, ask.app, ask.generation, ask.unitId)
  }

  /** The command completed this entry, now or once more. */
  ghost predicate Completes(h: Hashes, lim: Limits, c: Cluster, cmd: RaftCommand, x: Completion)
    requires lim.Usable()
  {
    Carried(cmd).CompleteFinite? && Asked(cmd) == x && Step(h, lim, c, cmd).1.Applied?
  }

  function KeyOf(x: Completion): DesiredKey {
    (x.0, x.1)
  }

  /** What a declaration leaves of the completions: exactly those of other keys. */
  ghost predicate OnlyOthers(completions: set<Completion>, completions': set<Completion>, key: DesiredKey) {
    forall x :: x in completions' <==> x in completions && KeyOf(x) != key
  }

  lemma {:induction false} InnerCompletions(h: Hashes, lim: Limits, c: Cluster, cmd: RaftCommand)
    requires lim.Usable()
    ensures var (c', r) := Inner(h, lim, c, cmd);
            && (cmd.CompleteFinite? && r.Applied? ==> c'.completions == c.completions + {Asked(cmd)})
            && (cmd.PutDesired? && c'.desired != c.desired ==>
                  OnlyOthers(c.completions, c'.completions, (cmd.namespace, cmd.app)))
            && (!(cmd.CompleteFinite? && r.Applied?) && c'.desired == c.desired ==> c'.completions == c.completions)
            && (!cmd.PutDesired? ==> c'.desired == c.desired)
  {
    hide IsLabel, TotalAfter, Records.Apply, Records.Grant;
    if cmd.PutDesired? {
      PutCompletions(lim, c, (cmd.namespace, cmd.app), cmd.expectedGeneration, cmd.payload, cmd.contentDigest);
    }
  }

  lemma {:induction false} PutCompletions(lim: Limits, c: Cluster, key: DesiredKey, expected: u64, payload: Bytes,
                                          digest: Digest)
    ensures var c' := PutDesiredStep(lim, c, key, expected, payload, digest).0;
            && (c' == c || (Generation(c', key) != Generation(c, key) && OnlyOthers(c.completions, c'.completions, key)))
            && (Generation(c', key) == Generation(c, key) ==> c' == c)
  {
    hide IsLabel, TotalAfter;
  }

  /**
   * What a command does to the completions. An applied completion is stored; a declaration that
   * takes effect clears those of its own key and no others; nothing else touches them.
   */
  lemma {:induction false} StepCompletions(h: Hashes, lim: Limits, c: Cluster, cmd: RaftCommand, x: Completion)
    requires lim.Usable()
    ensures x in Step(h, lim, c, cmd).0.completions
            <==> Completes(h, lim, c, cmd, x) || (x in c.completions && !TakesEffect(h, lim, c, cmd, KeyOf(x)))
    ensures Completes(h, lim, c, cmd, x) ==> !TakesEffect(h, lim, c, cmd, KeyOf(x))
  {
    hide Inner;
    var before, carried := Expire(c, lim.ttlMs), Carried(cmd);
    InnerCompletions(h, lim, before, carried);
    InnerGeneration(h, lim, before, carried, KeyOf(x));
    if carried.PutDesired? {
      PutMoves(h, lim, before, carried, KeyOf(x));
    }
  }

  lemma {:induction false} PutMoves(h: Hashes, lim: Limits, c: Cluster, cmd: RaftCommand, key: DesiredKey)
    requires lim.Usable() && cmd.PutDesired?
    ensures var c' := Inner(h, lim, c, cmd).0;
            && (Generation(c', key) != Generation(c, key) ==>
                  key == (cmd.namespace, cmd.app) && OnlyOthers(c.completions, c'.completions, key))
            && (c' == c || Generation(c', (cmd.namespace, cmd.app)) != Generation(c, (cmd.namespace, cmd.app)))
            && (Generation(c', key) == Generation(c, key) ==>
                  forall x :: KeyOf(x) == key ==> (x in c'.completions <==> x in c.completions))
  {
    hide IsLabel, TotalAfter;
    PutCompletions(lim, c, (cmd.namespace, cmd.app), cmd.expectedGeneration, cmd.payload, cmd.contentDigest);
    InnerGeneration(h, lim, c, cmd, key);
  }

  /** The receipt of an enveloped command is not there to answer for it. */
  predicate Unanswered(c: Cluster, cmd: RaftCommand) {
    cmd.Idempotent? ==> cmd.operationId !in c.receipts
  }

  /** What the answer to a completion says, and what it leaves. */
  ghost predicate CompletionAnswered(c: Cluster, c': Cluster, x: Completion, r: RaftResponse) {
    && (r.Applied? ==>
          && c'.completions == c.completions + {x}
          && c'.records.revision
             == (if x in c.completions then c.records.revision else Min(c.records.revision + 1, U64_MAX))
          && r.outcome.revision == c'.records.revision && r.outcome.desiredGeneration == Some(x.2))
    && (!r.Applied? ==> c' == c)
  }

  ghost predicate Completable(c: Cluster, x: Completion) {
    && KeyOf(x) in c.desired && c.desired[KeyOf(x)].generation == x.2
    && (x in c.completions || |c.completions| < FINITE_COMPLETION_MAX_ENTRIES)
  }

  lemma {:induction false} InnerCompletionApplied(h: Hashes, lim: Limits, c: Cluster, cmd: RaftCommand)
    requires lim.Usable() && Body(lim, c) && cmd.CompleteFinite?
    ensures var (x, (c', r)) := (Asked(cmd), Inner(h, lim, c, cmd));
            (r.Applied? <==> Completable(c, x)) && CompletionAnswered(c, c', x, r)
  {
    hide IsLabel, Records.Inv;
    var x := Asked(cmd);
    if KeyOf(x) in c.desired {
      assert WellFormedEntry(KeyOf(x), c.desired[KeyOf(x)]);
    }
    if x in c.completions {
      assert c.completions + {x} == c.completions;
    }
  }

  /**
   * A completion is applied exactly if its declaration is at that generation and there is room or
   * it was stored before. Then it is stored, and the revision moves if it was not; a refused one
   * changes nothing.
   */
  lemma {:induction false} CompletionApplied(h: Hashes, lim: Limits, c: Cluster, cmd: RaftCommand)
    requires lim.Usable() && Inv(lim, c) && Carried(cmd).CompleteFinite?
    ensures var (x, (c', r)) := (Asked(cmd), Step(h, lim, c, cmd));
            (r.Applied? <==> Unanswered(c, cmd) && Completable(c, x)) && CompletionAnswered(c, c', x, r)
  {
    hide Inner, MakeRoom, Body, Completable;
    ExpireIdle(lim, c);
    InnerCompletionApplied(h, lim, c, Carried(cmd));
  }

  /** The entry was completed by command `i`, and its declaration has not moved since. */
  ghost predicate CompletedAt(h: Hashes, lim: Limits, c: Cluster, log: seq<RaftCommand>, x: Completion, i: nat)
    requires lim.Usable() && i < |log|
  {
    && Completes(h, lim, At(h, lim, c, log, i), log[i], x)
    && forall j :: i < j < |log| ==> !TakesEffect(h, lim, At(h, lim, c, log, j), log[j], KeyOf(x))
  }

  lemma {:induction false} CompletedAtFront(h: Hashes, lim: Limits, c: Cluster, log: seq<RaftCommand>, x: Completion,
                                            i: nat)
    requires lim.Usable() && i < |log| - 1
    ensures var front := log[..|log| - 1];
            CompletedAt(h, lim, c, log, x, i)
            <==> CompletedAt(h, lim, c, front, x, i) && !TakesEffect(h, lim, Run(h, lim, c, front).0, log[|log| - 1], KeyOf(x))
  {
    hide Step, Run, TakesEffect, Completes;
    var front := log[..|log| - 1];
    assert forall j :: 0 <= j <= |front| ==> front[..j] == log[..j];
    assert front[..|front|] == front;
  }

  lemma {:induction false} CompletedAtLast(h: Hashes, lim: Limits, c: Cluster, log: seq<RaftCommand>, x: Completion)
    requires lim.Usable() && log != []
    ensures CompletedAt(h, lim, c, log, x, |log| - 1)
            <==> Completes(h, lim, Run(h, lim, c, log[..|log| - 1]).0, log[|log| - 1], x)
  {
    hide Step, Completes;
  }

  /**
   * In every run from the empty state an entry is among the completions exactly when an applied
   * completion of it followed the last declaration of its key that took effect.
   */
  lemma {:induction false} CompletionsAreApplied(h: Hashes, lim: Limits, log: seq<RaftCommand>, x: Completion)
    requires lim.Usable()
    ensures x in Run(h, lim, EMPTY, log).0.completions
            <==> exists i :: 0 <= i < |log| && CompletedAt(h, lim, EMPTY, log, x, i)
    decreases |log|
  {
    hide Step, CompletedAt, TakesEffect, Completes;
    if log != [] {
      var front := log[..|log| - 1];
      var c := Run(h, lim, EMPTY, front).0;
      CompletionsAreApplied(h, lim, front, x);
      StepCompletions(h, lim, c, log[|log| - 1], x);
      CompletedAtLast(h, lim, EMPTY, log, x);
      forall i | 0 <= i < |front|
        ensures CompletedAt(h, lim, EMPTY, log, x, i)
                <==> CompletedAt(h, lim, EMPTY, front, x, i) && !TakesEffect(h, lim, c, log[|log| - 1], KeyOf(x))
      {
        CompletedAtFront(h, lim, EMPTY, log, x, i);
      }
    }
  }

  // ---- Which declarations are applied -------------------------------------

  lemma {:induction false} TotalAfterIsTotal(lim: Limits, desired: map<DesiredKey, DesiredEntry>, key: DesiredKey,
                                             e: DesiredEntry)
    requires lim.Usable() && DesiredWithinBudget(lim, desired)
    ensures TotalAfter(desired, key, e.payload) == Min(Sum(desired[key := e], StoredBytes), U64_MAX)
  {
    SumPut(desired, key, e, StoredBytes);
    if key in desired {
      SumEntry(desired, key, StoredBytes);
    }
  }

  /** Well-formed names and payload, the expected generation, a place, and enough bytes left. */
  ghost predicate Declarable(lim: Limits, c: Cluster, put: RaftCommand)
    requires put.PutDesired?
  {
    var key := (put.namespace, put.app);
    && IsLabel(key.0) && IsLabel(key.1) && |put.payload| <= 262_144 && put.expectedGeneration == Generation(c, key)
    && if put.expectedGeneration == U64_MAX then key in c.desired && c.desired[key].contentDigest == put.contentDigest
       else
         && (key in c.desired || |c.desired| < lim.maxDesired)
         && Sum(c.desired[key := DesiredEntry(put.expectedGeneration + 1, put.contentDigest, put.payload)], StoredBytes)
            <= lim.maxDesiredBytes
  }

  lemma {:induction false} InnerDeclarationApplied(h: Hashes, lim: Limits, c: Cluster, put: RaftCommand)
    requires lim.Usable() && Body(lim, c) && put.PutDesired?
    ensures var (c', r) := Inner(h, lim, c, put);
            (r.Applied? <==> Declarable(lim, c, put)) && !r.Replay? && (!r.Applied? ==> c' == c)
  {
    hide IsLabel, TotalAfter, Others, Sum, Records.Inv, CompletionsCurrent;
    var key := (put.namespace, put.app);
    if put.expectedGeneration < U64_MAX {
      TotalAfterIsTotal(lim, c.desired, key, DesiredEntry(put.expectedGeneration + 1, put.contentDigest, put.payload));
    }
  }

  /** Exactly those declarations are applied that are not answered by a receipt and are declarable; others change nothing. */
  lemma {:induction false} DeclarationApplied(h: Hashes, lim: Limits, c: Cluster, cmd: RaftCommand)
    requires lim.Usable() && Inv(lim, c) && Carried(cmd).PutDesired?
    ensures var (c', r) := Step(h, lim, c, cmd);
            (r.Applied? <==> Unanswered(c, cmd) && Declarable(lim, c, Carried(cmd))) && (!r.Applied? ==> c' == c)
  {
    hide Inner, MakeRoom, Body, Declarable;
    ExpireIdle(lim, c);
    InnerDeclarationApplied(h, lim, c, Carried(cmd));
  }

  // ---- Revisions and sizes ------------------------------------------------

  /**
   * Every applied answer carries the revision it left. Outside the record machine the revision
   * moves, by one, exactly when a declaration, a completion or the controller changed.
   */
  lemma {:induction false} StepRevision(h: Hashes, lim: Limits, c: Cluster, cmd: RaftCommand)
    requires lim.Usable() && Inv(lim, c)
    ensures var (c', r) := Step(h, lim, c, cmd);
            && (r.Applied? ==> r.outcome.revision == c'.records.revision)
            && (!Carried(cmd).Record? ==>
                  c'.records.revision
                  == if (c'.desired, c'.completions, c'.controller) == (c.desired, c.completions, c.controller)
                        && !(Carried(cmd).AcquireController? && r.Applied?)
                     then c.records.revision else Min(c.records.revision + 1, U64_MAX))
  {
    hide Inner, MakeRoom, Body;
    ExpireIdle(lim, c);
    InnerRevision(h, lim, c, Carried(cmd));
  }

  /** A record command is the record machine's affair: its reply decides, its result is handed on, nothing else moves. */
  lemma {:induction false} StepRecord(h: Hashes, lim: Limits, c: Cluster, cmd: RaftCommand)
    requires lim.Usable() && Inv(lim, c) && Carried(cmd).Record? && Unanswered(c, cmd)
    ensures var (c', r) := Step(h, lim, c, cmd);
            var (records, reply) := Records.Apply(h.content, c.records, Carried(cmd).command);
            && (c'.records, c'.desired, c'.completions, c'.controller) == (records, c.desired, c.completions, c.controller)
            && match reply
               case Err(e) => r == Rejected(RecordError(e))
               case Ok(result) =>
                 && r.Applied? && r.outcome.txnSucceeded == result.txnSucceeded
                 && r.outcome.expiredLeaseIds == result.expiredLeaseIds
                 && (result.lease.Some? ==> r.outcome.leaseId == Some(result.lease.value.id))
                 && (result.lease.None? ==> r.outcome.leaseId == None)
  {
    hide Records.Apply, MakeRoom, Body;
    ExpireIdle(lim, c);
  }

  lemma {:induction false} InnerRevision(h: Hashes, lim: Limits, c: Cluster, cmd: RaftCommand)
    requires lim.Usable()
    ensures var (c', r) := Inner(h, lim, c, cmd);
            && !r.Replay?
            && (r.Applied? ==> r.outcome.revision == c'.records.revision)
            && (!cmd.Record? ==>
                  c'.records.revision
                  == if (c'.desired, c'.completions, c'.controller) == (c.desired, c.completions, c.controller)
                        && !(cmd.AcquireController? && r.Applied?)
                     then c.records.revision else Min(c.records.revision + 1, U64_MAX))
            && (cmd.AcquireController? ==> r.Applied?)
  {
    match cmd {
      case Record(rc) =>
        hide Records.Apply;
        Records.ReplyRevision(h.content, c.records, rc);
      case AcquireController(_) =>
      case PutDesired(ns, app, expected, payload, digest) =>
        PutRevision(lim, c, (ns, app), expected, payload, digest);
      case CompleteFinite(_, _, _, _) =>
      case Idempotent(_, _, _) =>
    }
  }

  lemma {:induction false} PutRevision(lim: Limits, c: Cluster, key: DesiredKey, expected: u64, payload: Bytes,
                                       digest: Digest)
    ensures var (c', r) := PutDesiredStep(lim, c, key, expected, payload, digest);
            && !r.Replay? && c'.controller == c.controller
            && (r.Applied? ==> r.outcome.revision == c'.records.revision)
            && c'.records.revision == (if c'.desired == c.desired then c.records.revision
                                       else Min(c.records.revision + 1, U64_MAX))
            && (c'.desired == c.desired ==> c' == c)
  {
    hide IsLabel, TotalAfter, Others;
    PutCompletions(lim, c, key, expected, payload, digest);
  }

  /** A declaration that took effect weighs its names and its payload, and that is within the budget. */
  lemma {:induction false} EffectFits(h: Hashes, lim: Limits, c: Cluster, cmd: RaftCommand, key: DesiredKey)
    requires lim.Usable() && Inv(lim, c) && TakesEffect(h, lim, c, cmd, key)
    ensures Carried(cmd).PutDesired?
    ensures |key.0| + |key.1| + |Carried(cmd).payload| <= lim.maxDesiredBytes
    ensures 1 <= |key.0| <= 63 && 1 <= |key.1| <= 63 && |Carried(cmd).payload| <= 262_144
  {
    hide Step, Body;
    StepGeneration(h, lim, c, cmd, key);
    StepKeepsInv(h, lim, c, cmd);
    EntryFits(lim, Step(h, lim, c, cmd).0, key);
  }

  lemma {:induction false} EntryFits(lim: Limits, c: Cluster, key: DesiredKey)
    requires Inv(lim, c) && key in c.desired
    ensures |key.0| + |key.1| + |c.desired[key].payload| <= lim.maxDesiredBytes
    ensures 1 <= |key.0| <= 63 && 1 <= |key.1| <= 63 && |c.desired[key].payload| <= 262_144
  {
    SumEntry(c.desired, key, StoredBytes);
    assert WellFormedEntry(key, c.desired[key]);
  }
}
