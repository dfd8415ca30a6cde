/**
 * The deploy transaction (crates/gump-server/src/deploy_txn.rs): publish the capsule under
 * its immutable key, then commit the intent through an idempotent replicated command. The
 * object store may fail at any call, and a write to the cluster may time out whether or not
 * it was committed.
 */
module Deploy {
  import opened Machine
  import opened BigEndian
  import opened Concatenation
  import opened Sums
  import opened RequestPreimages
  import opened ClusterSpec
  import opened ClusterLaws
  import opened ClusterMachine

  type CapsuleId = nat
  type ClusterId = nat

  /** The final key `clusters/<cluster>/capsules/<capsule>.capsule`. */
  datatype ObjectKey = ObjectKey(cluster: ClusterId, capsule: CapsuleId)

  datatype StoredObject = StoredObject(digest: Digest, bytes: Bytes)

  datatype Request = Request(
    operationId: OperationId,
    operationIdDisplay: string,
    namespace: string,
    app: string,
    expectedGeneration: u64,
    contentDigest: Digest,
    capsuleBytes: Option<Bytes>,
    clusterId: ClusterId,
    capsuleId: CapsuleId)
  {
    function Key(): ObjectKey {
      ObjectKey(clusterId, capsuleId)
    }

    /** What `deploy_request_digest` hashes. */
    function Preimage(): Bytes {
      DeployPreimage(Be(operationId, 16), Be(contentDigest, 32), Ascii(namespace), Ascii(app), expectedGeneration)
    }
  }

  datatype DeployPhase = LocalValidation | CapsulePersist | ImmutablePublish | IntentAccept

  datatype Orphan = Orphan(capsuleId: CapsuleId, capsuleDigest: Digest, locator: ObjectKey, operationId: OperationId)

  datatype DeployOutcome =
    | Success(desiredGeneration: u64, clusterRevision: u64, locator: ObjectKey, replayed: bool)
    | Conflict(operationId: OperationId)
    | Failed(phase: DeployPhase, orphan: Option<Orphan>)

  /** The JSON encoding of the capsule binding, left uninterpreted. */
  type BindingEncoder = (string, CapsuleId) -> Bytes

  /** The replicated command a request turns into. */
  function Intent(h: Hashes, encode: BindingEncoder, req: Request): RaftCommand {
    Idempotent(req.operationId, h.content(req.Preimage()),
               RaftCommand.PutDesired(req.namespace, req.app, req.expectedGeneration,
                                      encode(req.operationIdDisplay, req.capsuleId), req.contentDigest))
  }

  function OrphanOf(req: Request): Orphan {
    Orphan(req.capsuleId, req.contentDigest, req.Key(), req.operationId)
  }

  function ReportApplied(o: ApplyOutcome, locator: ObjectKey, replayed: bool): DeployOutcome {
    Success(if o.desiredGeneration.Some? then o.desiredGeneration.value else 1, o.revision, locator, replayed)
  }

  /** How a cluster answer is reported; `None` is a write whose outcome is unknown. */
  function Report(req: Request, answer: Option<RaftResponse>): DeployOutcome {
    match answer
    case None => Failed(IntentAccept, Some(OrphanOf(req)))
    case Some(Applied(o)) => ReportApplied(o, req.Key(), false)
    case Some(Replay(Applied(o))) => ReportApplied(o, req.Key(), true)
    case Some(Replay(_)) => Failed(IntentAccept, None)
    case Some(Rejected(reason)) =>
      if reason.IdempotencyConflict? then Conflict(req.operationId)
      else Failed(IntentAccept, Some(OrphanOf(req)))
  }

  /**
   * What a reported success says of the cluster. Fresh: the generation after the expected one,
   * under which the binding now stands, and the revision that wrote it. Replayed: the two numbers
   * of the kept receipt.
   */
  ghost predicate Reported(encode: BindingEncoder, req: Request, c: Cluster, c': Cluster, outcome: DeployOutcome)
    requires outcome.Success?
  {
    var key := (req.namespace, req.app);
    if outcome.replayed then
      && req.operationId in c.receipts && c.receipts[req.operationId].response.Applied?
      && var o := c.receipts[req.operationId].response.outcome;
         && outcome.clusterRevision == o.revision
         && (o.desiredGeneration.Some? ==> outcome.desiredGeneration == o.desiredGeneration.value)
         && c'.desired == c.desired && c'.records == c.records
    else
      && outcome.clusterRevision == c'.records.revision
      && outcome.desiredGeneration == Generation(c', key) == Min(req.expectedGeneration + 1, U64_MAX)
      && (req.expectedGeneration < U64_MAX ==>
            && c'.records.revision == Min(c.records.revision + 1, U64_MAX)
            && key in c'.desired
            && c'.desired[key] == DesiredEntry(req.expectedGeneration + 1, req.contentDigest,
                                               encode(req.operationIdDisplay, req.capsuleId)))
  }

  lemma {:induction false} PutReported(lim: Limits, c: Cluster, key: DesiredKey, expected: u64, payload: Bytes,
                                       digest: Digest)
    ensures var (c', r) := PutDesiredStep(lim, c, key, expected, payload, digest);
            && !r.Replay? && (r.Rejected? ==> !r.reason.IdempotencyConflict?)
            && (r.Applied? ==>
                  && r.outcome.revision == c'.records.revision
                  && r.outcome.desiredGeneration == Some(Min(expected + 1, U64_MAX))
                  && Generation(c', key) == Min(expected + 1, U64_MAX)
                  && (expected < U64_MAX ==>
                        && c'.records.revision == Min(c.records.revision + 1, U64_MAX)
                        && key in c'.desired && c'.desired[key] == DesiredEntry(expected + 1, digest, payload)))
  {
    hide IsLabel, TotalAfter, Others;
  }

  /** The report of the cluster's answer is true of the cluster. */
  lemma {:induction false} ReportIsTrue(h: Hashes, lim: Limits, encode: BindingEncoder, c: Cluster, req: Request)
    requires lim.Usable()
    ensures var (c', answer) := Step(h, lim, c, Intent(h, encode, req));
            var outcome := Report(req, Some(answer));
            && (outcome.Success? ==> Reported(encode, req, c, c', outcome))
            && (answer.Rejected? && answer.reason.IdempotencyConflict? ==>
                  answer == Rejected(IdempotencyConflict(req.operationId)))
  {
    hide PutDesiredStep, MakeRoom;
    var intent := Intent(h, encode, req);
    PutReported(lim, Expire(c, lim.ttlMs), (req.namespace, req.app), req.expectedGeneration, intent.inner.payload,
                req.contentDigest);
  }

  // ---- Object store -------------------------------------------------------

  /** Stored objects hash to their recorded digest. */
  ghost predicate Sealed(h: Hashes, objects: map<ObjectKey, StoredObject>) {
    forall k :: k in objects ==> h.content(objects[k].bytes) == objects[k].digest
  }

  /** Nothing already stored is replaced or removed. */
  ghost predicate Extends(before: map<ObjectKey, StoredObject>, after: map<ObjectKey, StoredObject>) {
    forall k :: k in before ==> k in after && after[k] == before[k]
  }

  datatype PublishError = Conflicting | Fault

  class ObjectStore {
    var objects: map<ObjectKey, StoredObject>

    constructor ()
      ensures objects == map[]
    {
      objects := map[];
    }

    /** `None` covers both a missing object and a failed call, as the caller does. */
    method Head(key: ObjectKey) returns (ev: Option<Digest>)
      ensures ev.Some? ==> key in objects && ev.value == objects[key].digest
    {
      var fault: bool := *;
      ev := if key in objects && !fault then Some(objects[key].digest) else None;
    }

    /** Uploads to quarantine; the store refuses bytes that do not hash to the declared digest. */
    method Quarantine(h: Hashes, bytes: Bytes, digest: Digest) returns (ok: bool)
      ensures ok ==> h.content(bytes) == digest
    {
      var fault: bool := *;
      ok := bytes != [] && h.content(bytes) == digest && !fault;
    }

    method PublishIfAbsent(key: ObjectKey, digest: Digest, bytes: Bytes) returns (e: Option<PublishError>)
      modifies this
      ensures e.None? ==> key in objects && objects[key].digest == digest
      ensures objects == old(objects)
              || (key !in old(objects) && objects == old(objects)[key := StoredObject(digest, bytes)])
    {
      var fault: bool := *;
      if fault {
        return Some(Fault);
      }
      if key in objects {
        if objects[key].digest == digest && |objects[key].bytes| == |bytes| {
          return None;
        }
        return Some(Conflicting);
      }
      objects := objects[key := StoredObject(digest, bytes)];
      return None;
    }
  }

  // ---- Transaction --------------------------------------------------------

  class DeployServer {
    const store: ObjectStore
    const cluster: ClusterState
    var orphans: seq<Orphan>

    constructor (store: ObjectStore, cluster: ClusterState)
      ensures this.store == store && this.cluster == cluster && orphans == []
    {
      this.store := store;
      this.cluster := cluster;
      orphans := [];
    }

    /** Publishes the capsule, or finds it published already under the same digest. */
    method PublishCapsule(h: Hashes, req: Request) returns (failure: Option<DeployOutcome>)
      requires Sealed(h, store.objects)
      modifies store
      ensures Sealed(h, store.objects) && Extends(old(store.objects), store.objects)
      ensures failure.None? ==> req.Key() in store.objects && store.objects[req.Key()].digest == req.contentDigest
      ensures failure.Some? ==> failure.value.Failed? && failure.value.orphan.None?
      ensures failure.Some? ==>
                && failure.value.phase in {LocalValidation, CapsulePersist, ImmutablePublish}
                && (failure.value.phase == LocalValidation ==> req.capsuleBytes.None?)
                && (failure.value.phase == CapsulePersist ==> req.capsuleBytes.Some?)
                && (failure.value.phase != ImmutablePublish ==> store.objects == old(store.objects))
    {
      var key := req.Key();
      var ev := store.Head(key);
      if ev.Some? {
        if ev.value == req.contentDigest {
          return None;
        }
        return Some(Failed(ImmutablePublish, None));
      }
      if req.capsuleBytes.None? {
        return Some(Failed(LocalValidation, None));
      }
      var bytes := req.capsuleBytes.value;
      var ok := store.Quarantine(h, bytes, req.contentDigest);
      if !ok {
        return Some(Failed(CapsulePersist, None));
      }
      var e := store.PublishIfAbsent(key, req.contentDigest, bytes);
      if e == Some(Conflicting) {
        var again := store.Head(key);
        if again == Some(req.contentDigest) {
          return None;
        }
        return Some(Failed(ImmutablePublish, None));
      } else if e.Some? {
        return Some(Failed(ImmutablePublish, None));
      }
      return None;
    }

    /** Commits a command, or loses contact: then nobody knows whether it was committed. */
    method ClientWrite(h: Hashes, cmd: RaftCommand) returns (answer: Option<RaftResponse>, ghost committed: bool)
      requires cluster.Indexed()
      modifies cluster
      ensures cluster.Indexed()
      ensures answer.Some? ==> committed
      ensures committed ==> cluster.View() == Step(h, cluster.limits, old(cluster.View()), cmd).0
      ensures answer.Some? ==> answer.value == Step(h, cluster.limits, old(cluster.View()), cmd).1
      ensures !committed ==> cluster.View() == old(cluster.View())
    {
      hide Step;
      var lostBefore: bool := *;
      if lostBefore {
        return None, false;
      }
      var r := cluster.Apply(h, cmd);
      committed := true;
      var lostAfter: bool := *;
      answer := if lostAfter then None else Some(r);
    }

    /**
     * Publish, then commit. Success means the capsule is stored under the requested digest;
     * the cluster moves only by this request's command; an orphan is recorded exactly when
     * the capsule was published and its intent was not acknowledged.
     */
    method RunDeployTxn(h: Hashes, encode: BindingEncoder, req: Request)
      returns (outcome: DeployOutcome, ghost committed: bool)
      requires cluster.Indexed() && Sealed(h, store.objects)
      modifies this, store, cluster
      ensures cluster.Indexed() && Sealed(h, store.objects) && Extends(old(store.objects), store.objects)
      ensures cluster.View() == if committed
                                then Step(h, cluster.limits, old(cluster.View()), Intent(h, encode, req)).0
                                else old(cluster.View())
      ensures outcome.Success? ==>
                committed && outcome.locator == req.Key() && outcome.locator in store.objects
                && store.objects[outcome.locator].digest == req.contentDigest
      ensures committed ==>
                outcome == Report(req, None)
                || outcome == Report(req, Some(Step(h, cluster.limits, old(cluster.View()), Intent(h, encode, req)).1))
      ensures !committed ==> outcome.Failed?
      ensures outcome.Success? ==>
                && outcome.locator == ObjectKey(req.clusterId, req.capsuleId)
                && Reported(encode, req, old(cluster.View()), cluster.View(), outcome)
      ensures committed ==>
                var answer := Step(h, cluster.limits, old(cluster.View()), Intent(h, encode, req)).1;
                && (outcome.Conflict? ==> answer == Rejected(IdempotencyConflict(req.operationId)))
                && (outcome.Failed? ==> outcome.phase == IntentAccept && (outcome.orphan.Some? || answer.Replay?))
      ensures orphans == old(orphans) + if outcome.Failed? && outcome.orphan.Some? then [outcome.orphan.value] else []
      ensures outcome.Failed? && outcome.orphan.Some? ==>
                && outcome.orphan.value.capsuleId == req.capsuleId
                && outcome.orphan.value.capsuleDigest == req.contentDigest
                && outcome.orphan.value.operationId == req.operationId
                && outcome.orphan.value.locator == ObjectKey(req.clusterId, req.capsuleId)
                && outcome.orphan.value == OrphanOf(req) && req.Key() in store.objects
    {
      hide Step, Intent, Reported;
      ReportIsTrue(h, cluster.limits, encode, cluster.View(), req);
      committed := false;
      var failure := PublishCapsule(h, req);
      if failure.Some? {
        return failure.value, false;
      }
      var answer;
      answer, committed := ClientWrite(h, Intent(h, encode, req));
      outcome := Report(req, answer);
      if outcome.Failed? && outcome.orphan.Some? {
        orphans := orphans + [outcome.orphan.value];
      }
    }
  }

  // ---- Retries ------------------------------------------------------------

  /**
   * A deploy that was applied, whether or not its caller heard so, reports the same
   * generation and revision on every retry while the receipt is kept, and retries
   * change nothing.
   */
  lemma {:induction false} RetriedDeployReportsOnce(h: Hashes, lim: Limits, encode: BindingEncoder, c: Cluster,
                                 req: Request, between: seq<RaftCommand>)
    requires lim.Usable() && Inv(lim, c)
    requires Step(h, lim, c, Intent(h, encode, req)).1.Applied?
    requires RetainedThroughout(h, lim, Step(h, lim, c, Intent(h, encode, req)).0, between, req.operationId)
    ensures var (c1, first) := Step(h, lim, c, Intent(h, encode, req));
            var c2 := Run(h, lim, c1, between).0;
            var (c3, second) := Step(h, lim, c2, Intent(h, encode, req));
            var a, b := Report(req, Some(first)), Report(req, Some(second));
            c3 == c2 && a.Success? && b == a.(replayed := true)
  {
    hide Step, Inv, Intent;
    IntentShape(h, encode, req);
    var intent := Intent(h, encode, req);
    ResubmissionReplays(h, lim, c, intent.operationId, intent.requestDigest, intent.inner, between);
  }

  lemma {:induction false} IntentShape(h: Hashes, encode: BindingEncoder, req: Request)
    ensures var intent := Intent(h, encode, req);
            intent.Idempotent? && intent == Idempotent(req.operationId, intent.requestDigest, intent.inner)
  {
  }

  /**
   * Once the declaration took effect, a retry never takes effect again, kept receipt or not:
   * the generation it expected is behind.
   */
  lemma {:induction false} RetriedDeployNeverDoubles(h: Hashes, lim: Limits, encode: BindingEncoder, c: Cluster,
                                  req: Request, log: seq<RaftCommand>, i: nat, j: nat)
    requires lim.Usable() && i < j < |log|
    requires log[i] == log[j] == Intent(h, encode, req)
    requires TakesEffect(h, lim, At(h, lim, c, log, i), log[i], (req.namespace, req.app))
    ensures !TakesEffect(h, lim, At(h, lim, c, log, j), log[j], (req.namespace, req.app))
  {
    hide Step, At;
    if TakesEffect(h, lim, At(h, lim, c, log, j), log[j], (req.namespace, req.app)) {
      AtMostOneEffectPerGeneration(h, lim, c, log, (req.namespace, req.app), i, j);
    }
  }

  ghost predicate Bounded(req: Request) {
    req.operationId < Pow256(16) && req.contentDigest < Pow256(32)
  }

  lemma {:induction false} LabelNulFree(s: string)
    requires IsLabel(s)
    ensures NulFree(Ascii(s))
  {
  }

  lemma {:induction false} AsciiInjective(s: string, t: string)
    requires IsLabel(s) && IsLabel(t) && Ascii(s) == Ascii(t)
    ensures s == t
  {
    forall i | 0 <= i < |s| ensures s[i] == t[i] {
      assert Ascii(s)[i] == Ascii(t)[i];
      assert LabelByte(s[i]) && LabelByte(t[i]);
    }
  }

  /**
   * Reusing an operation id for a deploy that differs in content, name or expected generation
   * is a conflict while the first receipt is kept, as long as the content hash does not
   * collide on the two preimages.
   */
  lemma {:induction false} ReusedOperationConflicts(h: Hashes, lim: Limits, encode: BindingEncoder, c: Cluster,
                                 req: Request, other: Request)
    requires lim.Usable() && Inv(lim, c) && Bounded(req) && Bounded(other)
    requires IsLabel(req.namespace) && IsLabel(req.app) && IsLabel(other.namespace) && IsLabel(other.app)
    requires req.operationId == other.operationId && req.operationId in c.receipts
    requires c.receipts[req.operationId].requestDigest == h.content(req.Preimage())
    requires (req.contentDigest, req.namespace, req.app, req.expectedGeneration)
             != (other.contentDigest, other.namespace, other.app, other.expectedGeneration)
    requires h.content(req.Preimage()) == h.content(other.Preimage()) ==> req.Preimage() == other.Preimage()
    ensures var (c', r) := Step(h, lim, c, Intent(h, encode, other));
            c' == c && Report(other, Some(r)) == Conflict(req.operationId)
  {
    hide Step, Inv, IsLabel;
    var intent := Intent(h, encode, other);
    RetainedReceiptAnswers(h, lim, c, intent.operationId, intent.requestDigest, intent.inner);
    if req.Preimage() == other.Preimage() {
      LabelNulFree(req.namespace);
      LabelNulFree(req.app);
      DeployInjective(Be(req.operationId, 16), Be(req.contentDigest, 32), Ascii(req.namespace), Ascii(req.app),
                      req.expectedGeneration,
                      Be(other.operationId, 16), Be(other.contentDigest, 32), Ascii(other.namespace),
                      Ascii(other.app), other.expectedGeneration);
      BeInjective(req.contentDigest, other.contentDigest, 32);
      AsciiInjective(req.namespace, other.namespace);
      AsciiInjective(req.app, other.app);
    }
  }

  // ---- What the binding names ---------------------------------------------

  /** The declaration of the request's application names the request's capsule. */
  ghost predicate Binds(encode: BindingEncoder, c: Cluster, req: Request) {
    var key := (req.namespace, req.app);
    key in c.desired && c.desired[key].payload == encode(req.operationIdDisplay, req.capsuleId)
  }

  lemma {:induction false} PutBinds(lim: Limits, c: Cluster, key: DesiredKey, expected: u64, payload: Bytes,
                                    digest: Digest)
    ensures var (c', r) := PutDesiredStep(lim, c, key, expected, payload, digest);
            && !r.Replay?
            && (r.Applied? && expected < U64_MAX ==> key in c'.desired && c'.desired[key].payload == payload)
            && (r.Applied? && expected == U64_MAX ==> c'.desired == c.desired)
  {
    hide IsLabel, TotalAfter, Others;
  }

  /**
   * A reported success names the request's capsule exactly when the command ran, below the last
   * generation, or when the declaration named that capsule already: a replay reports the earlier
   * operation, and at the last generation nothing is written.
   */
  lemma {:induction false} SuccessBindsIff(h: Hashes, lim: Limits, encode: BindingEncoder, c: Cluster, req: Request)
    requires lim.Usable() && Inv(lim, c)
    requires Report(req, Some(Step(h, lim, c, Intent(h, encode, req)).1)).Success?
    ensures Binds(encode, Step(h, lim, c, Intent(h, encode, req)).0, req)
            <==> (req.operationId !in c.receipts && req.expectedGeneration < U64_MAX) || Binds(encode, c, req)
  {
    hide Body, PutDesiredStep, MakeRoom;
    var intent := Intent(h, encode, req);
    if req.operationId in c.receipts {
      RetainedReceiptAnswers(h, lim, c, intent.operationId, intent.requestDigest, intent.inner);
    } else {
      ExpireIdle(lim, c);
      var put := intent.inner;
      PutBinds(lim, c, (req.namespace, req.app), req.expectedGeneration, put.payload, req.contentDigest);
    }
  }

  /** The requests differ at most in what their digest leaves out: the capsule and how it is stored. */
  ghost predicate SameButCapsule(first: Request, again: Request) {
    again == first.(operationIdDisplay := again.operationIdDisplay, capsuleBytes := again.capsuleBytes,
                    clusterId := again.clusterId, capsuleId := again.capsuleId)
  }

  /**
   * Repeating an operation with another capsule reports success under the new capsule's key and
   * changes nothing, so the declaration names it exactly when the two bindings are encoded alike.
   */
  lemma {:induction false} RepeatedWithAnotherCapsule(h: Hashes, lim: Limits, encode: BindingEncoder, c: Cluster,
                                                      first: Request, again: Request, between: seq<RaftCommand>)
    requires lim.Usable() && Inv(lim, c) && SameButCapsule(first, again)
    requires first.operationId !in c.receipts && first.expectedGeneration < U64_MAX
    requires Step(h, lim, c, Intent(h, encode, first)).1.Applied?
    requires RetainedThroughout(h, lim, Step(h, lim, c, Intent(h, encode, first)).0, between, first.operationId)
    requires Binds(encode, Run(h, lim, Step(h, lim, c, Intent(h, encode, first)).0, between).0, first)
    ensures var c2 := Run(h, lim, Step(h, lim, c, Intent(h, encode, first)).0, between).0;
            var (c3, second) := Step(h, lim, c2, Intent(h, encode, again));
            var outcome := Report(again, Some(second));
            && c3 == c2 && outcome.Success? && outcome.replayed && outcome.locator == again.Key()
            && (Binds(encode, c3, again) <==> encode(first.operationIdDisplay, first.capsuleId)
                                              == encode(again.operationIdDisplay, again.capsuleId))
  {
    hide Step, Inv;
    var intent, other := Intent(h, encode, first), Intent(h, encode, again);
    assert again.Preimage() == first.Preimage();
    var (c1, answer) := Step(h, lim, c, intent);
    AppliedLeavesReceipt(h, lim, c, intent.operationId, intent.requestDigest, intent.inner);
    StepKeepsInv(h, lim, c, intent);
    RetainedUnchanged(h, lim, c1, between, first.operationId, |between|);
    RunKeepsInv(h, lim, c1, between);
    assert between[..|between|] == between;
    RetainedReceiptAnswers(h, lim, Run(h, lim, c1, between).0, other.operationId, other.requestDigest, other.inner);
  }

  lemma {:induction false} FirstDeclarationApplies(h: Hashes, intent: RaftCommand)
    requires intent.Idempotent? && intent.inner.PutDesired?
    requires IsLabel(intent.inner.namespace) && IsLabel(intent.inner.app) && intent.inner.expectedGeneration == 0
    requires |intent.inner.payload| <= DESIRED_MAX_PAYLOAD_BYTES
    ensures Step(h, DEFAULT_LIMITS, EMPTY, intent).1.Applied?
  {
    hide MakeRoom;
    SumEmpty<DesiredKey, DesiredEntry>(StoredBytes);
    assert EMPTY.desired == map[] && Expire(EMPTY, IDEMPOTENCY_TTL_MS).receipts == map[];
  }

  /** The deploys of one operation for two capsules with the same bytes. */
  function TwoDeploys(h: Hashes, bytes: Bytes): (Request, Request) {
    var first := Request(1, "op", "a", "b", 0, h.content(bytes), Some(bytes), 0, 1);
    (first, first.(capsuleId := 2))
  }

  /** On an empty cluster both are answered with success, and only the first is named. */
  lemma {:induction false} TwoDeploysAnswered(h: Hashes, encode: BindingEncoder, bytes: Bytes)
    requires encode("op", 1) != encode("op", 2) && |encode("op", 1)| <= DESIRED_MAX_PAYLOAD_BYTES
    ensures var (first, again) := TwoDeploys(h, bytes);
            var (c1, answer) := Step(h, DEFAULT_LIMITS, EMPTY, Intent(h, encode, first));
            var (c2, second) := Step(h, DEFAULT_LIMITS, c1, Intent(h, encode, again));
            && Report(first, Some(answer)).Success? && Binds(encode, c1, first)
            && Report(again, Some(second)).Success? && Report(again, Some(second)).locator == again.Key()
            && c2 == c1 && !Binds(encode, c2, again)
  {
    hide Step, Inv;
    var (first, again) := TwoDeploys(h, bytes);
    EmptyInv(DEFAULT_LIMITS);
    assert IsLabel("a") && IsLabel("b");
    FirstDeclarationApplies(h, Intent(h, encode, first));
    SuccessBindsIff(h, DEFAULT_LIMITS, encode, EMPTY, first);
    var c1 := Step(h, DEFAULT_LIMITS, EMPTY, Intent(h, encode, first)).0;
    assert Run(h, DEFAULT_LIMITS, c1, []).0 == c1;
    AppliedLeavesReceipt(h, DEFAULT_LIMITS, EMPTY, 1, h.content(first.Preimage()), Intent(h, encode, first).inner);
    RepeatedWithAnotherCapsule(h, DEFAULT_LIMITS, encode, EMPTY, first, again, []);
  }

  /**
   * The two transactions on an empty cluster. Both capsules end up stored, both deploys succeed
   * unless contact is lost, and the declaration names capsule 1 only.
   */
  method SuccessNamesAnotherCapsule(h: Hashes, encode: BindingEncoder, bytes: Bytes)
    returns (server: DeployServer, a: DeployOutcome, b: DeployOutcome, ghost done: bool)
    requires encode("op", 1) != encode("op", 2) && |encode("op", 1)| <= DESIRED_MAX_PAYLOAD_BYTES
    ensures fresh(server) && server.cluster.Indexed()
    ensures a.Success? && b.Success? ==> done
    ensures var (first, again) := TwoDeploys(h, bytes);
            done ==>
              && (a.Success? || a == Report(first, None)) && (b.Success? || b == Report(again, None))
              && first.Key() in server.store.objects && again.Key() in server.store.objects
              && (a.Success? ==> a.locator == first.Key()) && (b.Success? ==> b.locator == again.Key())
              && Binds(encode, server.cluster.View(), first) && !Binds(encode, server.cluster.View(), again)
  {
    hide Step, Binds, Intent, Inv;
    var (first, again) := TwoDeploys(h, bytes);
    TwoDeploysAnswered(h, encode, bytes);
    var store := new ObjectStore();
    var cluster := new ClusterState(DEFAULT_LIMITS);
    server := new DeployServer(store, cluster);
    ghost var firstCommitted, secondCommitted;
    a, firstCommitted := server.RunDeployTxn(h, encode, first);
    b, secondCommitted := server.RunDeployTxn(h, encode, again);
    done := firstCommitted && secondCommitted;
  }
}
