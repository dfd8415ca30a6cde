/** What the effect executor keeps, and how it hangs together with the trace of driver calls. */
module ExecutorSpec {
  import opened Machine
  import opened Lifecycle
  import opened Fencing
  import opened AgentTrace

  datatype AgentError = Fence(error: FenceError) | Driver | UnverifiedCapsule | AttemptRoot | Capacity | NotFound

  datatype Contract = Contract(
    readiness: Option<CheckSpec>, liveness: Option<CheckSpec>, retry: RetryPolicy, declaresPublication: bool)

  /** A placement accepted for this node. */
  datatype Placement = Placement(
    attemptId: AttemptId, fence: u64, finite: bool, capsuleVerified: bool, contract: Contract)

  datatype Phase =
    | Running
    | Terminal(exit: Option<int>)
    | AwaitingRestart(afterMs: u64)
    | PermanentFailure

  datatype Observation = Observation(running: bool, exit: Option<int>)

  /** `handle` says a running handle is held. */
  datatype LiveAttempt = LiveAttempt(
    placement: Placement, handle: bool, phase: Phase, startedMs: u64, attemptIndex: u32,
    readiness: CheckRuntime, liveness: CheckRuntime, ready: Option<bool>, publicationEligible: Option<bool>)

  type Live = map<AttemptId, LiveAttempt>

  // ---- How the tables and the trace hang together -------------------------

  /** The index counts the starts; one more while a restart is awaited. */
  ghost predicate Counted(a: LiveAttempt, starts: nat) {
    && 1 <= a.attemptIndex <= Max(1, a.placement.contract.retry.maxAttempts)
    && (if a.phase.AwaitingRestart? then 2 <= a.attemptIndex == starts + 1 else a.attemptIndex == starts)
    && (a.handle <==> a.phase.Running?)
  }

  /** Readiness and publication are reported exactly when declared, and published only once ready. */
  ghost predicate NeverInferred(a: LiveAttempt) {
    && (a.ready.Some? <==> a.placement.contract.readiness.Some?)
    && (a.publicationEligible.Some? <==> a.placement.contract.declaresPublication)
    && (a.publicationEligible == Some(true) ==> a.ready == Some(true) && a.readiness.passed)
  }

  ghost predicate Kept(a: LiveAttempt, starts: nat) {
    Counted(a, starts) && NeverInferred(a)
  }

  /** `loose` are attempts between leaving the table and being restarted or forgotten. */
  ghost predicate Consistent(trace: Trace, live: Live, completed: set<AttemptId>, loose: set<AttemptId>) {
    && Lawful(trace)
    && (forall id :: id in live ==> live[id].placement.attemptId == id && Kept(live[id], Starts(trace, id)))
    && (forall id :: id in live ==> Budget(trace, id) == live[id].placement.contract.retry.maxAttempts)
    && (forall id :: id !in live && id !in loose ==> Starts(trace, id) == 0)
    && (forall id :: id in completed <==> Done(trace, id))
  }

  /** Events that leave all counts alone. */
  predicate Plain(e: Event) {
    !e.Start? && !e.Forget? && !e.Complete? && !e.Pass?
  }

  lemma {:induction false} PlainKeeps(trace: Trace, live: Live, completed: set<AttemptId>, loose: set<AttemptId>,
                                      e: Event)
    requires Consistent(trace, live, completed, loose) && Plain(e)
    ensures Consistent(trace + [e], live, completed, loose)
    ensures forall id :: Starts(trace + [e], id) == Starts(trace, id) && Budget(trace + [e], id) == Budget(trace, id)
    ensures Desired(trace + [e]) == Desired(trace)
  {
    hide Lawful, Starts, Budget, Done, Desired, Kept;
    Append(trace, e);
  }

  /** Dropping an attempt resets its count. */
  lemma {:induction false} ForgetKeeps(trace: Trace, live: Live, completed: set<AttemptId>, loose: set<AttemptId>,
                                       id: AttemptId)
    requires Consistent(trace, live, completed, loose)
    ensures Consistent(trace + [Forget(id)], live - {id}, completed, loose - {id})
  {
    hide Lawful, Starts, Budget, Done, Desired, Kept;
    Append(trace, Forget(id));
  }

  /** A finite success enters the tombstones. */
  lemma {:induction false} CompleteKeeps(trace: Trace, live: Live, completed: set<AttemptId>, loose: set<AttemptId>,
                                         id: AttemptId)
    requires Consistent(trace, live, completed, loose)
    ensures Consistent(trace + [Complete(id)], live, completed + {id}, loose)
  {
    hide Lawful, Starts, Budget, Done, Desired, Kept;
    Append(trace, Complete(id));
  }

  /** A pass drops the tombstones of attempts no longer desired. */
  lemma {:induction false} PassKeeps(trace: Trace, live: Live, completed: set<AttemptId>, desired: set<AttemptId>)
    requires Consistent(trace, live, completed, {})
    ensures Consistent(trace + [Pass(desired)], live, completed * desired, {})
    ensures Desired(trace + [Pass(desired)]) == desired
  {
    hide Lawful, Starts, Budget, Done, Desired, Kept;
    Append(trace, Pass(desired));
  }

  /** Changing an entry without touching its count. */
  lemma {:induction false} UpdateKeeps(trace: Trace, live: Live, completed: set<AttemptId>, id: AttemptId,
                                       a: LiveAttempt)
    requires Consistent(trace, live, completed, {}) && id in live && a.placement == live[id].placement
    requires Kept(live[id], Starts(trace, id)) ==> Kept(a, Starts(trace, id))
    ensures Consistent(trace, live[id := a], completed, {})
  {
    hide Lawful, Starts, Budget, Done, Desired, Kept;
  }

  /** A lawful start and the entry it creates. */
  lemma {:induction false} StartKeeps(trace: Trace, live: Live, completed: set<AttemptId>, e: Event, a: LiveAttempt)
    requires e.Start? && Consistent(trace, live, completed, {e.id}) && e.id !in live
    requires LawfulStart(trace, e)
    requires a.placement.attemptId == e.id && a.attemptIndex == e.index && a.phase.Running? && a.handle
    requires a.placement.contract.retry.maxAttempts == e.maxAttempts && NeverInferred(a)
    ensures Consistent(trace + [e], live, completed, {e.id})
    ensures Consistent(trace + [e], live[e.id := a], completed, {})
  {
    hide Lawful, Starts, Budget, Done, Desired;
    Append(trace, e);
  }

  // ---- What a stretch of the trace may hold -------------------------------

  /** The trace grew within a pass, and any new start was made under this authority for one of these attempts. */
  ghost predicate Grew(before: Trace, after: Trace, authority: Authority, ids: set<AttemptId>) {
    && before <= after
    && (forall i :: |before| <= i < |after| ==> !after[i].Pass?)
    && forall i :: |before| <= i < |after| && after[i].Start? ==> after[i].authority == authority && after[i].id in ids
  }

  lemma {:induction false} GrewDesired(a: Trace, b: Trace, authority: Authority, ids: set<AttemptId>)
    requires Grew(a, b, authority, ids)
    ensures Desired(b) == Desired(a)
  {
    if |a| < |b| {
      var front := b[..|b| - 1];
      assert forall i :: 0 <= i < |front| ==> front[i] == b[i];
      GrewDesired(a, front, authority, ids);
    } else {
      assert a == b;
    }
  }

  lemma {:induction false} NoGrowth(trace: Trace, authority: Authority, ids: set<AttemptId>)
    ensures Grew(trace, trace, authority, ids)
  {
  }

  lemma {:induction false} GrewPrefix(a: Trace, b: Trace, authority: Authority, ids: set<AttemptId>)
    requires Grew(a, b, authority, ids)
    ensures a <= b
  {
  }

  lemma {:induction false} GrewMore(a: Trace, b: Trace, authority: Authority, ids: set<AttemptId>, more: set<AttemptId>)
    requires Grew(a, b, authority, ids) && ids <= more
    ensures Grew(a, b, authority, more)
  {
  }

  lemma {:induction false} GrewOn(a: Trace, b: Trace, c: Trace, authority: Authority, ids: set<AttemptId>)
    requires Grew(a, b, authority, ids) && Grew(b, c, authority, ids)
    ensures Grew(a, c, authority, ids)
  {
  }

  /** The event is among the new ones. */
  ghost predicate Happened(before: Trace, after: Trace, e: Event) {
    exists i :: |before| <= i < |after| && after[i] == e
  }

  predicate Watching(e: Event) {
    e.Observe? || e.Cleanup?
  }

  predicate Stopping(e: Event) {
    e.Kill? || e.Cleanup? || e.Forget?
  }

  predicate Leaving(e: Event) {
    e.Cleanup? || e.Forget?
  }

  predicate Halting(e: Event) {
    e.Terminate? || e.Observe? || e.Kill?
  }

  ghost predicate OnlyNew(before: Trace, after: Trace, allowed: Event -> bool) {
    before <= after && forall i :: |before| <= i < |after| ==> allowed(after[i])
  }

  lemma {:induction false} OnlyNewOn(a: Trace, b: Trace, c: Trace, allowed: Event -> bool)
    requires OnlyNew(a, b, allowed) && OnlyNew(b, c, allowed)
    ensures OnlyNew(a, c, allowed)
  {
  }

  lemma {:induction false} StillHappened(a: Trace, b: Trace, c: Trace, e: Event)
    requires Happened(a, b, e) && b <= c
    ensures Happened(a, c, e)
  {
    var i :| |a| <= i < |b| && b[i] == e;
    assert c[i] == e;
  }

  lemma {:induction false} HappenedLater(a: Trace, b: Trace, c: Trace, e: Event)
    requires a <= b && Happened(b, c, e)
    ensures Happened(a, c, e)
  {
  }

  lemma {:induction false} IsPrefix(a: Trace, b: Trace, allowed: Event -> bool)
    requires OnlyNew(a, b, allowed)
    ensures a <= b
  {
  }

  lemma {:induction false} NothingNew(a: Trace, allowed: Event -> bool)
    ensures OnlyNew(a, a, allowed)
  {
  }

  lemma {:induction false} OneNew(a: Trace, e: Event, allowed: Event -> bool)
    requires allowed(e)
    ensures OnlyNew(a, a + [e], allowed) && Happened(a, a + [e], e)
  {
    assert (a + [e])[|a|] == e;
  }

  lemma {:induction false} LeavingIsStopping(a: Trace, b: Trace)
    requires OnlyNew(a, b, Leaving)
    ensures OnlyNew(a, b, Stopping)
  {
  }

  lemma {:induction false} LeavingGrew(a: Trace, b: Trace, authority: Authority)
    requires OnlyNew(a, b, Leaving)
    ensures Grew(a, b, authority, {})
  {
  }

  lemma {:induction false} HaltingGrew(a: Trace, b: Trace, authority: Authority)
    requires OnlyNew(a, b, Halting)
    ensures Grew(a, b, authority, {})
  {
  }

  lemma {:induction false} OneGrew(a: Trace, e: Event, authority: Authority, ids: set<AttemptId>)
    requires !e.Pass? && (e.Start? ==> e.authority == authority && e.id in ids)
    ensures Grew(a, a + [e], authority, ids)
  {
  }

  // ---- Starts of one attempt ----------------------------------------------

  /** The indices the attempt was started with, in order. */
  ghost function Indices(t: Trace, id: AttemptId): seq<u32> {
    if t == [] then []
    else Indices(t[..|t| - 1], id) + if Starting(t[|t| - 1], id) then [t[|t| - 1].index] else []
  }

  /** The same for what is new in the trace. */
  ghost function NewStarts(before: Trace, after: Trace, id: AttemptId): seq<u32> {
    if |before| <= |after| then Indices(after[|before|..], id) else []
  }

  lemma {:induction false} IndicesJoin(a: Trace, b: Trace, id: AttemptId)
    ensures Indices(a + b, id) == Indices(a, id) + Indices(b, id)
  {
    if b == [] {
      assert a + b == a;
    } else {
      IndicesJoin(a, b[..|b| - 1], id);
      assert (a + b)[..|a + b| - 1] == a + b[..|b| - 1];
    }
  }

  lemma {:induction false} NewStartsOn(a: Trace, b: Trace, c: Trace, id: AttemptId)
    requires a <= b <= c
    ensures NewStarts(a, c, id) == NewStarts(a, b, id) + NewStarts(b, c, id)
  {
    hide Indices;
    assert c[|a|..] == b[|a|..] + c[|b|..];
    IndicesJoin(b[|a|..], c[|b|..], id);
  }

  lemma {:induction false} NoIndices(t: Trace, id: AttemptId)
    requires forall i :: 0 <= i < |t| ==> !Starting(t[i], id)
    ensures Indices(t, id) == []
  {
    if t != [] {
      NoIndices(t[..|t| - 1], id);
    }
  }

  lemma {:induction false} GrewStarts(a: Trace, b: Trace, authority: Authority, ids: set<AttemptId>, id: AttemptId)
    requires Grew(a, b, authority, ids) && id !in ids
    ensures NewStarts(a, b, id) == []
  {
    NoIndices(b[|a|..], id);
  }

  lemma {:induction false} NothingStarted(t: Trace, id: AttemptId)
    ensures NewStarts(t, t, id) == []
  {
  }

  lemma {:induction false} PassStarts(t: Trace, ids: set<AttemptId>, id: AttemptId)
    ensures NewStarts(t, t + [Pass(ids)], id) == []
  {
    assert (t + [Pass(ids)])[|t|..] == [Pass(ids)];
    NoIndices([Pass(ids)], id);
  }

  /** Prepare, admit and start, and what they add. */
  ghost function LaunchOf(p: Placement, authority: Authority, index: u32): Trace {
    [Prepare(p.attemptId), Admit(p.attemptId),
     Start(p.attemptId, p.fence, authority, index, p.contract.retry.maxAttempts)]
  }

  lemma {:induction false} LaunchStarts(t: Trace, p: Placement, authority: Authority, index: u32, id: AttemptId)
    ensures NewStarts(t, t + LaunchOf(p, authority, index), id) == if id == p.attemptId then [index] else []
  {
    var calls := LaunchOf(p, authority, index);
    assert (t + calls)[|t|..] == calls;
    assert calls == calls[..2] + [calls[2]];
    NoIndices(calls[..2], id);
    IndicesJoin(calls[..2], [calls[2]], id);
    assert [calls[2]][..0] == [];
  }

  // ---- One attempt at a time ----------------------------------------------

  /** Only this attempt changed, it is still in one of the tables, and under the same placement. */
  ghost predicate About(live: Live, live': Live, done: set<AttemptId>, done': set<AttemptId>, id: AttemptId) {
    && live' - {id} == live - {id} && done' - {id} == done - {id} && done <= done'
    && (id in live' || id in done')
    && (id in live && id in live' ==> live'[id].placement == live[id].placement)
  }

  lemma {:induction false} AboutNothing(live: Live, done: set<AttemptId>, id: AttemptId)
    requires id in live || id in done
    ensures About(live, live, done, done, id)
  {
  }

  lemma {:induction false} AboutUpdate(live: Live, done: set<AttemptId>, id: AttemptId, a: LiveAttempt)
    requires id in live && a.placement == live[id].placement
    ensures About(live, live[id := a], done, done, id)
  {
    assert live[id := a] - {id} == live - {id};
  }

  lemma {:induction false} AboutComplete(live: Live, done: set<AttemptId>, id: AttemptId)
    requires id in live && id !in done
    ensures About(live, live - {id}, done, done + {id}, id)
  {
    assert live - {id} - {id} == live - {id};
    assert done + {id} - {id} == done - {id};
  }

  lemma {:induction false} AboutBoth(live0: Live, live1: Live, live2: Live, done0: set<AttemptId>,
                                     done1: set<AttemptId>,
                                     done2: set<AttemptId>, id: AttemptId)
    requires About(live0, live1, done0, done1, id) && About(live1, live2, done1, done2, id)
    requires id in live1 || live2 == live1
    ensures About(live0, live2, done0, done2, id)
  {
  }

  // ---- Entries ------------------------------------------------------------

  function NewEntry(p: Placement, nowMs: u64, index: u32): LiveAttempt {
    LiveAttempt(p, true, Running, nowMs, index, FRESH, FRESH,
                if p.contract.readiness.Some? then Some(false) else None,
                if p.contract.declaresPublication then Some(false) else None)
  }

  lemma {:induction false} NewEntryFacts(p: Placement, nowMs: u64, index: u32)
    ensures var a := NewEntry(p, nowMs, index);
            && a.placement == p && a.attemptIndex == index && a.phase.Running? && a.handle && NeverInferred(a)
            && a.startedMs == nowMs && a.readiness == a.liveness == CheckRuntime(0, 0, 0, false)
            && (p.contract.readiness.Some? ==> a.ready == Some(false))
            && (p.contract.declaresPublication ==> a.publicationEligible == Some(false))
  {
  }

  /** The entry of an attempt waiting for its next try. */
  function Rescheduled(a: LiveAttempt, id: AttemptId, nowMs: u64): LiveAttempt
    requires a.attemptIndex < U32_MAX
  {
    var contract := a.placement.contract;
    var backoff := contract.retry.BackoffMs(a.attemptIndex, SatAdd(id % 256, nowMs, U64_MAX));
    a.(phase := AwaitingRestart(SatAdd(nowMs, backoff, U64_MAX)),
       attemptIndex := a.attemptIndex + 1,
       ready := if contract.readiness.Some? then Some(false) else None,
       publicationEligible := if contract.declaresPublication then Some(false) else a.publicationEligible)
  }

  predicate Finishes(a: LiveAttempt, exit: Option<int>) {
    a.placement.finite && exit == Some(0)
  }

  /** A failure is retried only while connected and within the budget. */
  predicate Retries(a: LiveAttempt, isolated: bool) {
    a.placement.contract.retry.Enabled() && a.attemptIndex < a.placement.contract.retry.maxAttempts && !isolated
  }

  /** The entry of an attempt that ended and stays in the table. */
  function Settled(a: LiveAttempt, id: AttemptId, exit: Option<int>, isolated: bool, nowMs: u64): LiveAttempt {
    var ended := a.(handle := false);
    if Finishes(a, exit) then ended.(phase := Terminal(exit))
    else if Retries(a, isolated) then Rescheduled(ended, id, nowMs)
    else ended.(phase := PermanentFailure)
  }

  lemma {:induction false} RescheduledKept(a: LiveAttempt, id: AttemptId, nowMs: u64, starts: nat)
    requires a.attemptIndex < a.placement.contract.retry.maxAttempts && !a.phase.AwaitingRestart?
    ensures Kept(a, starts) ==> Kept(Rescheduled(a.(handle := false), id, nowMs), starts)
  {
    hide RetryPolicy.BackoffMs;
  }

  lemma {:induction false} SettledKept(a: LiveAttempt, id: AttemptId, exit: Option<int>, isolated: bool, nowMs: u64,
                                       starts: nat)
    requires !a.phase.AwaitingRestart?
    ensures Kept(a, starts) ==> Kept(Settled(a, id, exit, isolated, nowMs), starts)
    ensures Settled(a, id, exit, isolated, nowMs).placement == a.placement
    ensures !Settled(a, id, exit, isolated, nowMs).handle && !Settled(a, id, exit, isolated, nowMs).phase.Running?
  {
    hide Kept, RetryPolicy.BackoffMs;
    if Finishes(a, exit) {
      PhaseKept(a, a.(handle := false, phase := Terminal(exit)), starts);
    } else if Retries(a, isolated) {
      RescheduledKept(a, id, nowMs, starts);
    } else {
      PhaseKept(a, a.(handle := false, phase := PermanentFailure), starts);
    }
  }

  /** Outside an awaited restart the phase is not counted, as long as exactly a running attempt holds a handle. */
  lemma {:induction false} PhaseKept(a: LiveAttempt, b: LiveAttempt, starts: nat)
    requires !a.phase.AwaitingRestart? && !b.phase.AwaitingRestart? && b == a.(phase := b.phase, handle := b.handle)
    requires b.handle <==> b.phase.Running?
    ensures Kept(a, starts) ==> Kept(b, starts)
  {
  }

  /**
   * What becomes of an attempt that is no longer running and stays in the table: a finite success
   * is terminal, a failure waits for its next try if it is connected and has one left, and has
   * failed for good otherwise.
   */
  ghost predicate Ended(a: LiveAttempt, b: LiveAttempt, id: AttemptId, exit: Option<int>, isolated: bool, nowMs: u64) {
    var contract := a.placement.contract;
    && !b.handle && b.placement == a.placement && b.startedMs == a.startedMs
    && b.readiness == a.readiness && b.liveness == a.liveness
    && if a.placement.finite && exit == Some(0) then
         && b.phase == Terminal(Some(0)) && b.attemptIndex == a.attemptIndex
         && b.ready == a.ready && b.publicationEligible == a.publicationEligible
       else if !isolated && a.attemptIndex < contract.retry.maxAttempts then
         var seed := Min(id % 256 + nowMs, U64_MAX);
         && b.phase == AwaitingRestart(Min(nowMs + contract.retry.BackoffMs(a.attemptIndex, seed), U64_MAX))
         && b.attemptIndex == a.attemptIndex + 1
         && b.ready == (if contract.readiness.Some? then Some(false) else None)
         && b.publicationEligible == (if contract.declaresPublication then Some(false) else a.publicationEligible)
       else
         && b.phase == PermanentFailure && b.attemptIndex == a.attemptIndex
         && b.ready == a.ready && b.publicationEligible == a.publicationEligible
  }

  lemma {:induction false} SettledIsEnded(a: LiveAttempt, id: AttemptId, exit: Option<int>, isolated: bool, nowMs: u64)
    ensures Ended(a, Settled(a, id, exit, isolated, nowMs), id, exit, isolated, nowMs)
  {
    hide RetryPolicy.BackoffMs;
  }

  /** The attempt was seen to have exited: completed if a finite success while connected, ended otherwise. */
  ghost predicate ExitedWith(a: LiveAttempt, live: Live, done: set<AttemptId>, id: AttemptId, exit: Option<int>,
                             isolated: bool, nowMs: u64)
  {
    if a.placement.finite && exit == Some(0) && !isolated then id !in live && id in done
    else id in live && Ended(a, live[id], id, exit, isolated, nowMs)
  }

  ghost predicate Exited(a: LiveAttempt, live: Live, done: set<AttemptId>, id: AttemptId, isolated: bool, nowMs: u64) {
    exists exit :: ExitedWith(a, live, done, id, exit, isolated, nowMs)
  }

  // ---- Checks -------------------------------------------------------------

  /** A declared check whose delay and interval have passed. */
  ghost predicate DueAt(spec: Option<CheckSpec>, check: CheckRuntime, startedMs: u64, nowMs: u64) {
    && spec.Some? && Waited(nowMs, startedMs, spec.value.initialDelayMs)
    && Waited(nowMs, check.lastRunMs, spec.value.intervalMs)
  }

  ghost predicate Ran(before: CheckRuntime, after: CheckRuntime, spec: CheckSpec, nowMs: u64) {
    exists ok :: after == before.(lastRunMs := nowMs).Record(ok, spec)
  }

  /** Each check that was due ran once, each other one did not; nothing else about the entry changed. */
  ghost predicate Probed(a: LiveAttempt, b: LiveAttempt, nowMs: u64) {
    var contract := a.placement.contract;
    && b.placement == a.placement && b.handle == a.handle && b.phase == a.phase
    && b.startedMs == a.startedMs && b.attemptIndex == a.attemptIndex
    && (if DueAt(contract.readiness, a.readiness, a.startedMs, nowMs) then
          && Ran(a.readiness, b.readiness, contract.readiness.value, nowMs)
          && b.ready == Some(b.readiness.passed)
          && b.publicationEligible
             == (if contract.declaresPublication then Some(b.readiness.passed) else a.publicationEligible)
        else b.readiness == a.readiness && b.ready == a.ready && b.publicationEligible == a.publicationEligible)
    && (if DueAt(contract.liveness, a.liveness, a.startedMs, nowMs)
        then Ran(a.liveness, b.liveness, contract.liveness.value, nowMs)
        else b.liveness == a.liveness)
  }

  /** The liveness check just ran and has now failed as often in a row as is tolerated. */
  ghost predicate LivenessFailed(a: LiveAttempt, b: LiveAttempt, nowMs: u64) {
    var contract := a.placement.contract;
    && DueAt(contract.liveness, a.liveness, a.startedMs, nowMs)
    && b.liveness.consecutiveFailure >= Max(contract.liveness.value.failureThreshold, 1)
  }

  ghost predicate Checked(a: LiveAttempt, b: LiveAttempt, nowMs: u64) {
    Probed(a, b, nowMs) && !LivenessFailed(a, b, nowMs)
  }

  /** Its last liveness check failed it, and it is treated like one that exited. */
  ghost predicate Lost(a: LiveAttempt, b: LiveAttempt, id: AttemptId, isolated: bool, nowMs: u64) {
    exists probed :: Probed(a, probed, nowMs) && LivenessFailed(a, probed, nowMs)
                     && Ended(probed, b, id, None, isolated, nowMs)
  }

  // ---- One attempt in one pass --------------------------------------------

  predicate IsDue(a: LiveAttempt, nowMs: u64) {
    a.phase.AwaitingRestart? && a.phase.afterMs <= nowMs
  }

  /** A finite success that was seen while isolated and is not yet recorded. */
  predicate SucceededUnseen(a: LiveAttempt) {
    a.placement.finite && !a.handle && a.phase == Terminal(Some(0))
  }

  /** The entry a connected pass goes on with: a restart that is due has been made. */
  function Begun(a: LiveAttempt, nowMs: u64): LiveAttempt {
    if IsDue(a, nowMs) then NewEntry(a.placement, nowMs, a.attemptIndex) else a
  }

  /**
   * What a connected pass does to an entry. A running attempt is observed: it runs on and its due
   * checks were run, or it exited, or its liveness check failed it and it was killed. One that
   * waits or has failed is left alone; a success not yet recorded is.
   */
  ghost predicate Tended(a: LiveAttempt, live: Live, done: set<AttemptId>, id: AttemptId, before: Trace, after: Trace,
                         nowMs: u64)
  {
    && (a.phase.AwaitingRestart? || a.phase.PermanentFailure? ==> id in live && live[id] == a)
    && (SucceededUnseen(a) ==> id in done)
    && (a.phase.Running? ==>
          || (Happened(before, after, Observe(id, Some(true))) && id in live && Checked(a, live[id], nowMs))
          || (Happened(before, after, Observe(id, Some(false))) && Exited(a, live, done, id, false, nowMs))
          || (Happened(before, after, Observe(id, Some(true))) && Happened(before, after, Kill(id))
              && id in live && Lost(a, live[id], id, false, nowMs)))
  }

  /** The attempt is restarted exactly if that is due, once and with the awaited index, and then tended. */
  ghost predicate Supervised(a: LiveAttempt, live: Live, done: set<AttemptId>, id: AttemptId, before: Trace,
                             after: Trace, nowMs: u64)
  {
    && NewStarts(before, after, id) == (if IsDue(a, nowMs) then [a.attemptIndex] else [])
    && Tended(Begun(a, nowMs), live, done, id, before, after, nowMs)
  }

  /** What happens to other attempts before and after does not matter. */
  lemma {:induction false} TendedWithin(a: LiveAttempt, live: Live, live': Live, done: set<AttemptId>,
                                        done': set<AttemptId>, id: AttemptId, first: Trace, before: Trace,
                                        after: Trace, last: Trace, nowMs: u64)
    requires Tended(a, live, done, id, before, after, nowMs) && first <= before <= after <= last
    requires (id in live' <==> id in live) && (id in live ==> live'[id] == live[id]) && (id in done' <==> id in done)
    ensures Tended(a, live', done', id, first, last, nowMs)
  {
    hide Happened, Checked, Ended, Lost;
    forall e | Happened(before, after, e) ensures Happened(first, last, e) {
      HappenedLater(first, before, after, e);
      StillHappened(first, after, last, e);
    }
    if Exited(a, live, done, id, false, nowMs) {
      var exit :| ExitedWith(a, live, done, id, exit, false, nowMs);
      assert ExitedWith(a, live', done', id, exit, false, nowMs);
    }
  }

  lemma {:induction false} SupervisedWithin(a: LiveAttempt, live: Live, live': Live, done: set<AttemptId>,
                                            done': set<AttemptId>, id: AttemptId, first: Trace, before: Trace,
                                            after: Trace, last: Trace, nowMs: u64)
    requires Supervised(a, live, done, id, before, after, nowMs) && first <= before <= after <= last
    requires NewStarts(first, before, id) == [] && NewStarts(after, last, id) == []
    requires (id in live' <==> id in live) && (id in live ==> live'[id] == live[id]) && (id in done' <==> id in done)
    ensures Supervised(a, live', done', id, first, last, nowMs)
  {
    hide Tended, NewStarts, Begun;
    NewStartsOn(first, before, after, id);
    NewStartsOn(first, after, last, id);
    TendedWithin(Begun(a, nowMs), live, live', done, done', id, first, before, after, last, nowMs);
  }

  /** The starts a connected pass owes an attempt: a restart that is due, or the first start of one in no table. */
  function Owed(live: Live, done: set<AttemptId>, id: AttemptId, nowMs: u64): seq<u32> {
    if id in live then if IsDue(live[id], nowMs) then [live[id].attemptIndex] else []
    else if id in done then []
    else [1]
  }

  // ---- Eligibility after an exit ------------------------------------------

  /** One readiness outcome on the entry. */
  function WithReadiness(a: LiveAttempt, ok: bool, spec: CheckSpec, nowMs: u64): LiveAttempt {
    var readiness := a.readiness.(lastRunMs := nowMs).Record(ok, spec);
    a.(readiness := readiness,
       ready := Some(readiness.passed),
       publicationEligible := if a.placement.contract.declaresPublication then Some(readiness.passed)
                              else a.publicationEligible)
  }

  /** Being eligible does not imply running: the flag outlives every exit but a scheduled retry. */
  lemma {:induction false} EligibleAfterExit(a: LiveAttempt, id: AttemptId, exit: Option<int>, isolated: bool, nowMs: u64)
    requires NeverInferred(a)
    ensures Settled(a, id, exit, isolated, nowMs).publicationEligible == Some(true)
            <==> a.publicationEligible == Some(true) && (Finishes(a, exit) || !Retries(a, isolated))
  {
    hide RetryPolicy.BackoffMs;
  }

  /** Started, found ready once, then exited without a retry: failed for good, and still reported eligible. */
  lemma {:induction false} FailedYetEligible(p: Placement, nowMs: u64, exit: int)
    requires p.contract.readiness.Some? && p.contract.readiness.value.Needed() == 1
    requires p.contract.declaresPublication && !p.contract.retry.Enabled() && exit != 0
    ensures var ready := WithReadiness(NewEntry(p, nowMs, 1), true, p.contract.readiness.value, nowMs);
            var failed := Settled(ready, p.attemptId, Some(exit), false, nowMs);
            failed.phase.PermanentFailure? && !failed.handle && failed.publicationEligible == Some(true)
  {
  }
}
