/**
 * `ClusterState` as it is kept in memory: mutable fields, a cached time of the oldest
 * receipt that spares the TTL scan, and limits that a snapshot does not carry.
 */
module ClusterMachine {
  import opened Machine
  import opened Ordered
  import opened Sums
  import opened ClusterSpec
  import opened ClusterLaws
  import Records

  class ClusterState {
    var records: Records.RecordMachine
    var controller: Authority
    var desired: map<DesiredKey, DesiredEntry>
    var finiteCompletions: set<Completion>
    var idempotency: map<OperationId, Receipt>
    var oldestMs: Option<u64>
    const limits: Limits

    /** The serialized fields. */
    function View(): Cluster
      reads this
    {
      Cluster(records, controller, desired, finiteCompletions, idempotency)
    }

    /** The cached index agrees with a full scan. */
    predicate Indexed()
      reads this
    {
      limits.Usable() && oldestMs == OldestTime(idempotency)
    }

    /** The index agrees with a full scan or has been lost. */
    predicate Recoverable()
      reads this
    {
      limits.Usable() && (oldestMs.None? || oldestMs == OldestTime(idempotency))
    }

    constructor (limits: Limits)
      requires limits.Usable()
      ensures Indexed() && View() == EMPTY && this.limits == limits
    {
      records := Records.EMPTY_MACHINE;
      controller := Authority(None, None, 0);
      desired := map[];
      finiteCompletions := {};
      idempotency := map[];
      oldestMs := None;
      this.limits := limits;
    }

    /** `Deserialize`: production limits, and the index recomputed from the receipts. */
    constructor Restore(image: Image)
      ensures Indexed() && View() == Load(image) && limits == DEFAULT_LIMITS
    {
      var c := Load(image);
      records := c.records;
      controller := c.controller;
      desired := c.desired;
      finiteCompletions := c.completions;
      idempotency := c.receipts;
      oldestMs := None;
      limits := DEFAULT_LIMITS;
      new;
      RecomputeOldest();
    }

    method RecomputeOldest()
      requires limits.Usable()
      modifies this`oldestMs
      ensures Indexed()
    {
      oldestMs := OldestTime(idempotency);
    }

    /** Scans only when the oldest receipt is due; the outcome is that of always scanning. */
    method ExpireIdempotencyTtl()
      requires Recoverable()
      modifies this`idempotency, this`oldestMs
      ensures Indexed() && View() == Expire(old(View()), limits.ttlMs)
    {
      var now := records.nowMs;
      if oldestMs.None? && idempotency != map[] {
        RecomputeOldest();
      }
      if oldestMs.None? {
        assert idempotency == FreshReceipts(idempotency, now, limits.ttlMs);
        return;
      }
      if SatSub(now, oldestMs.value) <= limits.ttlMs {
        assert idempotency == FreshReceipts(idempotency, now, limits.ttlMs);
        return;
      }
      idempotency := map id | id in idempotency && Fresh(idempotency[id], now, limits.ttlMs) :: idempotency[id];
      RecomputeOldest();
    }

    /** Removes the least `(time, id)`; the index is rescanned only if it named that time. */
    method EvictOne()
      requires Indexed() && idempotency != map[]
      modifies this`idempotency, this`oldestMs
      ensures Indexed() && idempotency == old(idempotency) - {OldestReceipt(old(idempotency))}
    {
      var id := OldestReceipt(idempotency);
      var removed := idempotency[id];
      idempotency := idempotency - {id};
      if oldestMs == Some(removed.recordedAtMs) {
        RecomputeOldest();
      }
    }

    method NoteTime(recordedAtMs: u64)
      modifies this`oldestMs
      ensures oldestMs == Some(if old(oldestMs).Some? then Min(old(oldestMs).value, recordedAtMs) else recordedAtMs)
    {
      oldestMs := Some(if oldestMs.Some? then Min(oldestMs.value, recordedAtMs) else recordedAtMs);
    }

    method Record(id: OperationId, receipt: Receipt)
      requires Indexed() && id !in idempotency
      modifies this`idempotency, this`oldestMs
      ensures Indexed()
      ensures idempotency == MakeRoom(old(idempotency), limits.maxReceipts)[id := receipt]
    {
      while |idempotency| >= limits.maxReceipts
        invariant Indexed() && id !in idempotency
        invariant MakeRoom(idempotency, limits.maxReceipts) == MakeRoom(old(idempotency), limits.maxReceipts)
        decreases |idempotency|
      {
        EvictOne();
      }
      ghost var kept := idempotency;
      idempotency := idempotency[id := receipt];
      NoteTime(receipt.recordedAtMs);
      NotedIsOldest(kept, id, receipt);
    }

    /** Taking the minimum with the new time keeps the index exact. */
    lemma {:induction false} NotedIsOldest(kept: map<OperationId, Receipt>, id: OperationId, receipt: Receipt)
      requires id !in kept
      ensures OldestTime(kept[id := receipt])
              == Some(if kept == map[] then receipt.recordedAtMs
                      else Min(OldestTime(kept).value, receipt.recordedAtMs))
    {
      var all := kept[id := receipt];
      var t := OldestTime(all).value;
      var k :| k in all && all[k].recordedAtMs == t;
      assert all[id].recordedAtMs >= t;
      if kept != map[] {
        var m :| m in kept && kept[m].recordedAtMs == OldestTime(kept).value;
        assert all[m].recordedAtMs >= t;
      }
    }

    method ApplyIdempotent(h: Hashes, id: OperationId, digest: Digest, inner: RaftCommand)
      returns (r: RaftResponse)
      requires Indexed()
      modifies this
      ensures Indexed()
      ensures (View(), r) == Enveloped(h, limits, old(View()), id, digest, inner)
    {
      if id in idempotency {
        if idempotency[id].requestDigest == digest {
          return Replay(idempotency[id].response);
        }
        return Rejected(IdempotencyConflict(id));
      }
      if inner.Idempotent? {
        return Rejected(NestedIdempotent);
      }
      r := ApplyInner(h, inner);
      if r.Applied? {
        Record(id, Receipt(digest, r, records.nowMs));
      }
    }

    /** The saturating fold over the map is the capped sum, whatever the order. */
    method DesiredTotalBytes() returns (total: nat)
      ensures total == Min(Sum(desired, StoredBytes), U64_MAX)
    {
      hide Sum;
      total := 0;
      var todo := desired;
      ghost var goal := Sum(desired, StoredBytes);
      while todo != map[]
        invariant Min(total + Sum(todo, StoredBytes), U64_MAX) == Min(goal, U64_MAX)
        invariant total <= U64_MAX
        decreases |todo|
      {
        var k :| k in todo;
        SumRemove(todo, k, StoredBytes);
        total := SatAdd(total, StoredBytes(k, todo[k]), U64_MAX);
        todo := todo - {k};
      }
      SumEmpty<DesiredKey, DesiredEntry>(StoredBytes);
    }

    method PutDesired(key: DesiredKey, expected: u64, payload: Bytes, digest: Digest) returns (r: RaftResponse)
      requires limits.Usable()
      modifies this`finiteCompletions, this`desired, this`records
      ensures (View(), r) == PutDesiredStep(limits, old(View()), key, expected, payload, digest)
    {
      if !IsLabel(key.0) {
        return Rejected(InvalidNamespace);
      }
      if !IsLabel(key.1) {
        return Rejected(InvalidApp);
      }
      if |payload| > DESIRED_MAX_PAYLOAD_BYTES {
        return Rejected(ClusterSpec.PayloadTooLarge(|payload|));
      }
      var current := if key in desired then desired[key].generation else 0;
      if current != expected {
        return Rejected(GenerationConflict(current, expected));
      }
      var next := SatAdd(expected, 1, U64_MAX);
      if key in desired {
        var prev := desired[key];
        if prev.generation == next && prev.contentDigest != digest {
          return Rejected(DivergentContent(next));
        }
        if prev.generation == next && prev.contentDigest == digest {
          return Outcome(records.revision, next);
        }
      }
      var incoming := EntryBytes(key, payload);
      var previous := if key in desired then EntryBytes(key, desired[key].payload) else 0;
      if key !in desired && |desired| >= limits.maxDesired {
        return Rejected(DesiredFull(|desired|, limits.maxDesired));
      }
      var total := DesiredTotalBytes();
      var totalAfter := SatAdd(SatSub(total, previous), incoming, U64_MAX);
      if totalAfter > limits.maxDesiredBytes {
        return Rejected(DesiredBytes(totalAfter, limits.maxDesiredBytes));
      }
      finiteCompletions := set x | x in finiteCompletions && (x.0 != key.0 || x.1 != key.1);
      desired := desired[key := DesiredEntry(next, digest, payload)];
      records := Records.BumpRevision(records);
      assert finiteCompletions == Others(old(finiteCompletions), key);
      return Outcome(records.revision, next);
    }

    method CompleteFinite(key: DesiredKey, generation: u64, unit: UnitId) returns (r: RaftResponse)
      modifies this`finiteCompletions, this`records
      ensures (View(), r) == CompleteFiniteStep(old(View()), key, generation, unit)
    {
      if !IsLabel(key.0) {
        return Rejected(InvalidNamespace);
      }
      if !IsLabel(key.1) {
        return Rejected(InvalidApp);
      }
      if key !in desired {
        return Rejected(NoDesiredExecution);
      }
      if desired[key].generation != generation {
        return Rejected(CompletionConflict(desired[key].generation, generation));
      }
      var entry := (key.0, key.1, generation, unit);
      if entry in finiteCompletions {
        return Outcome(records.revision, generation);
      }
      if |finiteCompletions| >= FINITE_COMPLETION_MAX_ENTRIES {
        return Rejected(CompletionFull(|finiteCompletions|));
      }
      finiteCompletions := finiteCompletions + {entry};
      records := Records.BumpRevision(records);
      return Outcome(records.revision, generation);
    }

    method ApplyInner(h: Hashes, cmd: RaftCommand) returns (r: RaftResponse)
      requires limits.Usable()
      modifies this`records, this`controller, this`desired, this`finiteCompletions
      ensures (View(), r) == Inner(h, limits, old(View()), cmd)
    {
      hide Records.Apply, PutDesiredStep, CompleteFiniteStep;
      match cmd {
        case Record(rc) =>
          var (m, reply) := Records.Apply(h.content, records, rc);
          records := m;
          return RecordOutcome(reply);
        case AcquireController(holder) =>
          var (c, response) := AcquireStep(h, View(), holder);
          controller := c.controller;
          records := c.records;
          return response;
        case PutDesired(ns, app, expected, payload, digest) =>
          r := PutDesired((ns, app), expected, payload, digest);
        case CompleteFinite(ns, app, generation, unit) =>
          r := CompleteFinite((ns, app), generation, unit);
        case Idempotent(_, _, _) =>
          return Rejected(NestedEntrypoint);
      }
    }

    /**
     * One committed command. Holding only a usable or a lost index beforehand, the index is
     * exact afterwards and state and response are those of the scanning specification.
     */
    method Apply(h: Hashes, cmd: RaftCommand) returns (r: RaftResponse)
      requires Recoverable()
      modifies this
      ensures Indexed()
      ensures (View(), r) == Step(h, limits, old(View()), cmd)
    {
      hide Inner, Enveloped;
      ExpireIdempotencyTtl();
      if cmd.Idempotent? {
        r := ApplyIdempotent(h, cmd.operationId, cmd.requestDigest, cmd.inner);
      } else {
        r := ApplyInner(h, cmd);
      }
      ExpireIdempotencyTtl();
    }
  }
}

/** The replicated log applied to memory, and its snapshots (crates/gump-memory/src/ram_store.rs). */
module RamStore {
  import opened Machine
  import opened ClusterSpec
  import opened ClusterLaws
  import opened ClusterMachine
  import Records

  type LogId = nat
  type Membership = nat

  datatype EntryPayload = Blank | Normal(command: RaftCommand) | Members(membership: Membership)

  datatype Entry = Entry(logId: LogId, payload: EntryPayload)

  /** `StateMachineData`: log position, voter set with the entry that set it, application state. */
  datatype StateData = StateData(lastApplied: Option<LogId>, lastMembership: Option<(LogId, Membership)>, cluster: Cluster)

  /** A serialized `StateMachineData`. */
  datatype DataImage =
    DataImage(lastApplied: Option<LogId>, lastMembership: Option<(LogId, Membership)>, cluster: Image)

  datatype Snapshot = Snapshot(lastLog: Option<LogId>, lastMembership: Option<(LogId, Membership)>,
                               id: nat, data: DataImage)

  const FRESH: StateData := StateData(None, None, EMPTY)

  function Acknowledged(c: Cluster): RaftResponse {
    Applied(ApplyOutcome(c.records.revision, None, None, [], None, None))
  }

  ghost function ApplyEntry(h: Hashes, d: StateData, e: Entry): (StateData, RaftResponse) {
    var d' := d.(lastApplied := Some(e.logId));
    match e.payload
    case Blank => (d', Acknowledged(d.cluster))
    case Members(m) => (d'.(lastMembership := Some((e.logId, m))), Acknowledged(d.cluster))
    case Normal(cmd) =>
      var (c, r) := Step(h, DEFAULT_LIMITS, d.cluster, cmd);
      (d'.(cluster := c), r)
  }

  ghost function ApplyAll(h: Hashes, d: StateData, log: seq<Entry>): (StateData, seq<RaftResponse>)
    decreases |log|
  {
    if log == [] then (d, []) else
    var (d1, rs) := ApplyAll(h, d, log[..|log| - 1]);
    var (d2, r) := ApplyEntry(h, d1, log[|log| - 1]);
    (d2, rs + [r])
  }

  function SaveData(d: StateData): DataImage {
    DataImage(d.lastApplied, d.lastMembership, Save(d.cluster))
  }

  function LoadData(i: DataImage): StateData {
    StateData(i.lastApplied, i.lastMembership, Load(i.cluster))
  }

  class RamStateMachine {
    var lastApplied: Option<LogId>
    var lastMembership: Option<(LogId, Membership)>
    var cluster: ClusterState
    var snapshotIdx: nat
    var currentSnapshot: Option<Snapshot>

    function State(): StateData
      reads this, cluster
    {
      StateData(lastApplied, lastMembership, cluster.View())
    }

    /** The application state has the production limits and an exact receipt index. */
    predicate Valid()
      reads this, cluster
    {
      cluster.Indexed() && cluster.limits == DEFAULT_LIMITS
    }

    constructor ()
      ensures Valid() && State() == FRESH && fresh(cluster)
    {
      lastApplied := None;
      lastMembership := None;
      cluster := new ClusterState(DEFAULT_LIMITS);
      snapshotIdx := 0;
      currentSnapshot := None;
    }

    /** Applies a batch of log entries in order. */
    method Apply(h: Hashes, entries: seq<Entry>) returns (rs: seq<RaftResponse>)
      requires Valid()
      modifies this`lastApplied, this`lastMembership, cluster
      ensures Valid() && (State(), rs) == ApplyAll(h, old(State()), entries)
    {
      hide Step;
      rs := [];
      for i := 0 to |entries|
        invariant Valid()
        invariant (State(), rs) == ApplyAll(h, old(State()), entries[..i])
      {
        assert entries[..i + 1][..i] == entries[..i];
        var e := entries[i];
        lastApplied := Some(e.logId);
        match e.payload {
          case Blank =>
            rs := rs + [Acknowledged(cluster.View())];
          case Normal(cmd) =>
            var r := cluster.Apply(h, cmd);
            rs := rs + [r];
          case Members(m) =>
            lastMembership := Some((e.logId, m));
            rs := rs + [Acknowledged(cluster.View())];
        }
      }
      assert entries[..|entries|] == entries;
    }

    method BuildSnapshot() returns (s: Snapshot)
      requires Valid()
      modifies this`snapshotIdx, this`currentSnapshot
      ensures s.data == SaveData(State()) && s.lastLog == lastApplied && s.lastMembership == lastMembership
      ensures s.id == snapshotIdx == old(snapshotIdx) + 1 && currentSnapshot == Some(s)
    {
      var data := SaveData(State());
      snapshotIdx := snapshotIdx + 1;
      s := Snapshot(lastApplied, lastMembership, snapshotIdx, data);
      currentSnapshot := Some(s);
    }

    method InstallSnapshot(s: Snapshot)
      modifies this`lastApplied, this`lastMembership, this`cluster, this`currentSnapshot
      ensures Valid() && State() == LoadData(s.data) && currentSnapshot == Some(s) && fresh(cluster)
    {
      lastApplied := s.data.lastApplied;
      lastMembership := s.data.lastMembership;
      cluster := new ClusterState.Restore(s.data.cluster);
      currentSnapshot := Some(s);
    }
  }

  lemma {:induction false} ApplyAllKeepsInv(h: Hashes, d: StateData, log: seq<Entry>)
    requires Inv(DEFAULT_LIMITS, d.cluster)
    ensures Inv(DEFAULT_LIMITS, ApplyAll(h, d, log).0.cluster)
    ensures |ApplyAll(h, d, log).1| == |log|
    decreases |log|
  {
    hide Step, Inv;
    if log != [] {
      var front, last := log[..|log| - 1], log[|log| - 1];
      ApplyAllKeepsInv(h, d, front);
      if last.payload.Normal? {
        StepKeepsInv(h, DEFAULT_LIMITS, ApplyAll(h, d, front).0.cluster, last.payload.command);
      }
    }
  }

  lemma {:induction false} ApplyAllAppend(h: Hashes, d: StateData, a: seq<Entry>, b: seq<Entry>)
    ensures var (d1, r1) := ApplyAll(h, d, a);
            var (d2, r2) := ApplyAll(h, d1, b);
            ApplyAll(h, d, a + b) == (d2, r1 + r2)
    decreases |b|
  {
    hide ApplyEntry;
    if b == [] {
      assert a + b == a;
      assert ApplyAll(h, d, a).1 + [] == ApplyAll(h, d, a).1;
    } else {
      var front := b[..|b| - 1];
      ApplyAllAppend(h, d, a, front);
      assert (a + b)[..|a + b| - 1] == a + front;
      var (d1, r1) := ApplyAll(h, d, a);
      var (d2, r2) := ApplyAll(h, d1, front);
      var r := ApplyEntry(h, d2, b[|b| - 1]).1;
      assert r1 + (r2 + [r]) == r1 + r2 + [r];
    }
  }

  /** The commands in a log. */
  ghost function Commands(log: seq<Entry>): seq<RaftCommand> {
    if log == [] then []
    else Commands(log[..|log| - 1]) + if log[|log| - 1].payload.Normal? then [log[|log| - 1].payload.command] else []
  }

  /** The answers to the commands among the answers to a log. */
  ghost function Answers(log: seq<Entry>, rs: seq<RaftResponse>): seq<RaftResponse>
    requires |rs| == |log|
  {
    if log == [] then []
    else
      var n := |log| - 1;
      Answers(log[..n], rs[..n]) + if log[n].payload.Normal? then [rs[n]] else []
  }

  /** Where a log stands: its last entry, and the last entry that set the voters. */
  ghost predicate Standing(log: seq<Entry>, d: StateData) {
    && d.lastApplied == (if log == [] then None else Some(log[|log| - 1].logId))
    && match d.lastMembership
       case None => forall i :: 0 <= i < |log| ==> !log[i].payload.Members?
       case Some((id, members)) =>
         exists i :: 0 <= i < |log| && log[i] == Entry(id, Members(members))
                     && forall j :: i < j < |log| ==> !log[j].payload.Members?
  }

  /**
   * Applying a log from scratch runs its commands and nothing else, answers them as the run does,
   * and keeps the position of the last entry and of the last voter set.
   */
  lemma {:induction false} LogRunsItsCommands(h: Hashes, log: seq<Entry>)
    ensures var (d, rs) := ApplyAll(h, FRESH, log);
            && |rs| == |log| && (d.cluster, Answers(log, rs)) == Run(h, DEFAULT_LIMITS, EMPTY, Commands(log))
            && Standing(log, d)
    decreases |log|
  {
    hide Step;
    if log != [] {
      var n := |log| - 1;
      var front := log[..n];
      LogRunsItsCommands(h, front);
      var (d, rs) := ApplyAll(h, FRESH, log);
      assert rs[..n] == ApplyAll(h, FRESH, front).1;
      assert forall i :: 0 <= i < n ==> front[i] == log[i];
      if log[n].payload.Normal? {
        assert Commands(log)[..|Commands(log)| - 1] == Commands(front);
      } else {
        assert Commands(log) == Commands(front);
        assert Answers(log, rs) == Answers(front, rs[..n]);
      }
      StandingNext(h, log);
    }
  }

  lemma {:induction false} StandingNext(h: Hashes, log: seq<Entry>)
    requires log != [] && Standing(log[..|log| - 1], ApplyAll(h, FRESH, log[..|log| - 1]).0)
    ensures Standing(log, ApplyAll(h, FRESH, log).0)
  {
    hide Step;
    var n := |log| - 1;
    var front := log[..n];
    assert forall i :: 0 <= i < n ==> front[i] == log[i];
    var before, d := ApplyAll(h, FRESH, front).0, ApplyAll(h, FRESH, log).0;
    if log[n].payload.Members? {
      assert log[n] == Entry(log[n].logId, Members(log[n].payload.membership));
    } else if before.lastMembership.Some? {
      var (id, members) := before.lastMembership.value;
      var i :| 0 <= i < |front| && front[i] == Entry(id, Members(members))
               && forall j :: i < j < |front| ==> !front[j].payload.Members?;
      assert log[i] == Entry(id, Members(members));
    }
  }

  lemma {:induction false} ImageRoundTrip(d: StateData)
    requires Inv(DEFAULT_LIMITS, d.cluster)
    ensures LoadData(SaveData(d)) == d
  {
    NothingBuffered(DEFAULT_LIMITS, d.cluster);
    LoadSave(d.cluster);
  }

  /**
   * Every log, every cut: a replica that installs the snapshot taken at the cut and applies
   * the rest ends in the same state, with the same responses, as one that applied it all.
   */
  lemma {:induction false} SnapshotThenReplay(h: Hashes, log: seq<Entry>, cut: nat)
    requires cut <= |log|
    ensures var (atCut, early) := ApplyAll(h, FRESH, log[..cut]);
            var (final, late) := ApplyAll(h, LoadData(SaveData(atCut)), log[cut..]);
            ApplyAll(h, FRESH, log) == (final, early + late)
  {
    hide ApplyEntry, Inv;
    EmptyInv(DEFAULT_LIMITS);
    ApplyAllKeepsInv(h, FRESH, log[..cut]);
    ImageRoundTrip(ApplyAll(h, FRESH, log[..cut]).0);
    ApplyAllAppend(h, FRESH, log[..cut], log[cut..]);
    assert log[..cut] + log[cut..] == log;
  }

  /** The same on two live state machines, cached index and limits included. */
  method FollowerCatchesUp(h: Hashes, log: seq<Entry>, cut: nat)
    returns (leader: RamStateMachine, follower: RamStateMachine, rs: seq<RaftResponse>, late: seq<RaftResponse>)
    requires cut <= |log|
    ensures fresh(leader) && fresh(follower) && leader != follower
    ensures leader.Valid() && follower.Valid()
    ensures follower.State() == leader.State() == ApplyAll(h, FRESH, log).0
    ensures follower.cluster.oldestMs == leader.cluster.oldestMs
    ensures follower.cluster.limits == leader.cluster.limits
    ensures |rs| == |log| && late == rs[cut..]
  {
    hide Step, ApplyEntry, Inv, ApplyAll;
    leader := new RamStateMachine();
    var early := leader.Apply(h, log[..cut]);
    var snapshot := leader.BuildSnapshot();
    follower := new RamStateMachine();
    follower.InstallSnapshot(snapshot);
    late := follower.Apply(h, log[cut..]);
    var rest := leader.Apply(h, log[cut..]);
    rs := early + rest;
    EmptyInv(DEFAULT_LIMITS);
    ApplyAllKeepsInv(h, FRESH, log[..cut]);
    ImageRoundTrip(ApplyAll(h, FRESH, log[..cut]).0);
    ApplyAllAppend(h, FRESH, log[..cut], log[cut..]);
    assert log[..cut] + log[cut..] == log;
    ApplyAllKeepsInv(h, ApplyAll(h, FRESH, log[..cut]).0, log[cut..]);
  }
}
