/** Fenced authority and isolation grace (crates/gump-agent/src/fence.rs). */
module Fencing {
  import opened Machine

  datatype Authority = Authority(controllerEpoch: u64, placementFence: u64, isolatedSince: Option<u64>) {
    predicate Isolated() {
      isolatedSince.Some?
    }
  }

  datatype IsolationPolicy = IsolationPolicy(graceMs: u64, stopOnIsolation: bool, confirmWindowMs: u64) {
    function EffectiveGraceMs(): u64 {
      if stopOnIsolation then confirmWindowMs else graceMs
    }
  }

  datatype FenceError = StaleFence | IsolatedEffect | GraceExpired

  function RequireFence(authority: Authority, expected: u64): Option<FenceError> {
    if authority.placementFence != expected then Some(StaleFence) else None
  }

  function AllowEffect(authority: Authority, expected: u64): Option<FenceError> {
    var stale := RequireFence(authority, expected);
    if stale.Some? then stale else if authority.Isolated() then Some(IsolatedEffect) else None
  }

  predicate GraceIsOver(authority: Authority, policy: IsolationPolicy, nowMs: u64) {
    authority.isolatedSince.Some? && SatSub(nowMs, authority.isolatedSince.value) >= policy.EffectiveGraceMs()
  }

  /** The grace counts from the isolation: the short confirmation window if stopping is asked for, else the full time. */
  lemma {:induction false} GraceIsOverIff(authority: Authority, policy: IsolationPolicy, nowMs: u64)
    ensures GraceIsOver(authority, policy, nowMs)
            <==> && authority.isolatedSince.Some?
                 && var since := authority.isolatedSince.value;
                    if policy.stopOnIsolation
                    then policy.confirmWindowMs == 0 || since + policy.confirmWindowMs <= nowMs
                    else policy.graceMs == 0 || since + policy.graceMs <= nowMs
  {
  }

  /** An effect is allowed exactly under the current fence and while connected; a stale fence is reported first. */
  lemma {:induction false} AllowedIff(authority: Authority, fence: u64)
    ensures AllowEffect(authority, fence).None? <==> fence == authority.placementFence && authority.isolatedSince.None?
    ensures AllowEffect(authority, fence) == Some(StaleFence) <==> fence != authority.placementFence
    ensures AllowEffect(authority, fence) == Some(IsolatedEffect)
            <==> fence == authority.placementFence && authority.isolatedSince.Some?
  {
  }
}

/** What the executor asks of its driver, in order, and the laws such a trace obeys. */
module AgentTrace {
  import opened Machine
  import opened Fencing

  type AttemptId = nat

  /**
   * Driver calls, with bookkeeping marks between them: `Forget` when an attempt leaves the
   * supervised set or a start fails, `Complete` when a finite attempt succeeds, `Pass` with the
   * desired attempts when a connected pass begins. An observation carries the answer, whether the
   * attempt is still running; `None` is a driver that failed to say.
   */
  datatype Event =
    | Prepare(id: AttemptId)
    | Admit(id: AttemptId)
    | Start(id: AttemptId, fence: u64, authority: Authority, index: u32, maxAttempts: u32)
    | Observe(id: AttemptId, answer: Option<bool>)
    | Terminate(id: AttemptId)
    | Kill(id: AttemptId)
    | Cleanup(id: AttemptId)
    | Forget(id: AttemptId)
    | Complete(id: AttemptId)
    | Pass(desired: set<AttemptId>)

  type Trace = seq<Event>

  predicate Starting(e: Event, id: AttemptId) {
    e.Start? && e.id == id
  }

  /** Starts of the attempt since it was last forgotten. */
  ghost function Starts(trace: Trace, id: AttemptId): nat {
    if trace == [] then 0
    else
      var front, e := trace[..|trace| - 1], trace[|trace| - 1];
      if e == Forget(id) then 0
      else if Starting(e, id) then Starts(front, id) + 1
      else Starts(front, id)
  }

  /** The retry budget the attempt was last started with. */
  ghost function Budget(trace: Trace, id: AttemptId): u32 {
    if trace == [] then 0
    else if Starting(trace[|trace| - 1], id) then trace[|trace| - 1].maxAttempts
    else Budget(trace[..|trace| - 1], id)
  }

  /** The attempt completed and has been desired in every pass since. */
  ghost predicate Done(trace: Trace, id: AttemptId) {
    if trace == [] then false
    else
      var front, e := trace[..|trace| - 1], trace[|trace| - 1];
      if e == Complete(id) then true
      else if e.Pass? && id !in e.desired then false
      else Done(front, id)
  }

  /** What the last pass desired. */
  ghost function Desired(trace: Trace): set<AttemptId> {
    if trace == [] then {}
    else if trace[|trace| - 1].Pass? then trace[|trace| - 1].desired
    else Desired(trace[..|trace| - 1])
  }

  /**
   * A start is made right after its preparation and admission, of an attempt the pass desires and
   * that is not completed, under live authority, with the next index, within the retry budget; a
   * restart keeps the budget.
   */
  ghost predicate LawfulStart(before: Trace, e: Event)
    requires e.Start?
  {
    && e.fence == e.authority.placementFence && !e.authority.Isolated()
    && e.index == Starts(before, e.id) + 1
    && e.index <= Max(1, e.maxAttempts)
    && (e.index > 1 ==> e.maxAttempts == Budget(before, e.id))
    && !Done(before, e.id) && e.id in Desired(before)
    && Readied(before, e.id)
  }

  /** The last two calls prepared and admitted the attempt. */
  ghost predicate Readied(before: Trace, id: AttemptId) {
    |before| >= 2 && before[|before| - 2] == Prepare(id) && before[|before| - 1] == Admit(id)
  }

  ghost predicate Lawful(trace: Trace) {
    trace == []
    || var front, e := trace[..|trace| - 1], trace[|trace| - 1];
       Lawful(front) && (e.Start? ==> LawfulStart(front, e))
  }

  lemma {:induction false} Append(trace: Trace, e: Event)
    ensures Lawful(trace + [e]) <==> Lawful(trace) && (e.Start? ==> LawfulStart(trace, e))
    ensures forall id :: Starts(trace + [e], id)
                      == if e == Forget(id) then 0
                         else if Starting(e, id) then Starts(trace, id) + 1
                         else Starts(trace, id)
    ensures forall id :: Budget(trace + [e], id) == if Starting(e, id) then e.maxAttempts else Budget(trace, id)
    ensures forall id :: Done(trace + [e], id)
                     <==> e == Complete(id) || (Done(trace, id) && !(e.Pass? && id !in e.desired))
    ensures Desired(trace + [e]) == if e.Pass? then e.desired else Desired(trace)
  {
    assert (trace + [e])[..|trace|] == trace;
  }

  /** Every start anywhere in a lawful trace is lawful. */
  lemma {:induction false} EveryStartLawful(trace: Trace, i: nat)
    requires Lawful(trace) && i < |trace| && trace[i].Start?
    ensures LawfulStart(trace[..i], trace[i])
  {
    hide LawfulStart;
    var front := trace[..|trace| - 1];
    if i < |trace| - 1 {
      EveryStartLawful(front, i);
      assert front[..i] == trace[..i];
    }
  }

  // ---- How often an attempt is started ------------------------------------

  /** All starts of an attempt in a trace. */
  ghost function Launches(trace: Trace, id: AttemptId): nat {
    if trace == [] then 0
    else Launches(trace[..|trace| - 1], id) + if Starting(trace[|trace| - 1], id) then 1 else 0
  }

  /** The attempt is forgotten at `i` although it has been started: a life ends there. */
  ghost predicate DroppedAt(trace: Trace, id: AttemptId, i: nat)
    requires i < |trace|
  {
    trace[i] == Forget(id) && Starts(trace[..i], id) > 0
  }

  /** How many lives have ended. A start refused before the driver was asked ends none. */
  ghost function Drops(trace: Trace, id: AttemptId): nat {
    if trace == [] then 0
    else
      var front := trace[..|trace| - 1];
      Drops(front, id) + if trace[|trace| - 1] == Forget(id) && Starts(front, id) > 0 then 1 else 0
  }

  /** The starts of all lives that have ended. */
  ghost function Dropped(trace: Trace, id: AttemptId): nat {
    if trace == [] then 0
    else
      var front := trace[..|trace| - 1];
      Dropped(front, id) + if trace[|trace| - 1] == Forget(id) then Starts(front, id) else 0
  }

  /** What the ended lives were allowed: for each, the budget it had. */
  ghost function Forfeited(trace: Trace, id: AttemptId): nat {
    if trace == [] then 0
    else
      var front := trace[..|trace| - 1];
      Forfeited(front, id)
      + if trace[|trace| - 1] == Forget(id) && Starts(front, id) > 0 then Max(1, Budget(front, id)) else 0
  }

  /** Every start belongs to a life that has ended or to the current one. */
  lemma {:induction false} LaunchesSplit(trace: Trace, id: AttemptId)
    ensures Launches(trace, id) == Dropped(trace, id) + Starts(trace, id)
  {
    if trace != [] {
      LaunchesSplit(trace[..|trace| - 1], id);
    }
  }

  /** No start was lost exactly when the attempt was only ever forgotten unstarted. */
  lemma {:induction false} NothingDroppedIff(trace: Trace, id: AttemptId)
    ensures Dropped(trace, id) == 0 <==> forall i :: 0 <= i < |trace| ==> !DroppedAt(trace, id, i)
  {
    hide Starts;
    if trace != [] {
      var front := trace[..|trace| - 1];
      NothingDroppedIff(front, id);
      forall i | 0 <= i < |front| ensures DroppedAt(trace, id, i) <==> DroppedAt(front, id, i) {
        assert front[..i] == trace[..i];
      }
      assert DroppedAt(trace, id, |trace| - 1)
        <==> trace[|trace| - 1] == Forget(id) && Starts(front, id) > 0;
    }
  }

  /**
   * Every start is accounted for, in every lawful trace: all starts are those of the ended lives
   * and of the current one, and no life has more than its own retry budget.
   */
  lemma {:induction false} LaunchesAccounted(trace: Trace, id: AttemptId)
    requires Lawful(trace)
    ensures Starts(trace, id) <= Max(1, Budget(trace, id))
    ensures Launches(trace, id) == Dropped(trace, id) + Starts(trace, id)
    ensures Dropped(trace, id) <= Forfeited(trace, id)
  {
    hide Launches;
    LaunchesSplit(trace, id);
    if trace != [] {
      LaunchesAccounted(trace[..|trace| - 1], id);
    }
  }

  ghost predicate BudgetIs(trace: Trace, id: AttemptId, maxAttempts: u32) {
    forall i :: 0 <= i < |trace| && Starting(trace[i], id) ==> trace[i].maxAttempts == maxAttempts
  }

  /** With one budget throughout: each ended life costs at most one full budget. */
  lemma {:induction false} LaunchesPerLife(trace: Trace, id: AttemptId, maxAttempts: u32)
    requires Lawful(trace) && BudgetIs(trace, id, maxAttempts)
    ensures Launches(trace, id) <= Drops(trace, id) * Max(1, maxAttempts) + Starts(trace, id)
    ensures Starts(trace, id) <= Max(1, maxAttempts)
  {
    var m := Max(1, maxAttempts);
    if trace != [] {
      var front, e := trace[..|trace| - 1], trace[|trace| - 1];
      assert forall i :: 0 <= i < |front| ==> front[i] == trace[i];
      LaunchesPerLife(front, id, maxAttempts);
      if e == Forget(id) {
        assert (Drops(front, id) + 1) * m == Drops(front, id) * m + m;
      }
    }
  }

  /** Once started and dropped, the attempt is not started again. */
  ghost predicate NeverRestartDropped(trace: Trace, id: AttemptId) {
    forall i, j :: 0 <= i < j < |trace| && DroppedAt(trace, id, i) ==> !Starting(trace[j], id)
  }

  /** The start counts on from all starts before it. */
  ghost predicate CountsOn(trace: Trace, id: AttemptId, j: nat)
    requires j < |trace| && Starting(trace[j], id)
  {
    trace[j].index == Launches(trace[..j], id) + 1
  }

  lemma {:induction false} CountsOnIff(trace: Trace, id: AttemptId, j: nat)
    requires Lawful(trace) && j < |trace| && Starting(trace[j], id)
    ensures CountsOn(trace, id, j) <==> forall i :: 0 <= i < j ==> !DroppedAt(trace, id, i)
  {
    hide Lawful, Starts, Launches, Dropped;
    EveryStartLawful(trace, j);
    LaunchesSplit(trace[..j], id);
    NothingDroppedIff(trace[..j], id);
    forall i | 0 <= i < j ensures DroppedAt(trace, id, i) <==> DroppedAt(trace[..j], id, i) {
      assert trace[..j][..i] == trace[..i];
    }
  }

  /**
   * The index handed to the driver is the number of the start, in a lawful trace, exactly when the
   * attempt is never started again after a started life was dropped.
   */
  lemma {:induction false} EveryStartCountsOnIff(trace: Trace, id: AttemptId)
    requires Lawful(trace)
    ensures (forall j :: 0 <= j < |trace| && Starting(trace[j], id) ==> CountsOn(trace, id, j))
            <==> NeverRestartDropped(trace, id)
  {
    hide Lawful, CountsOn, DroppedAt;
    forall j | 0 <= j < |trace| && Starting(trace[j], id)
      ensures CountsOn(trace, id, j) <==> forall i :: 0 <= i < j ==> !DroppedAt(trace, id, i)
    {
      CountsOnIff(trace, id, j);
    }
  }

  /**
   * Unless a started life is dropped and the attempt started again, it is started at most
   * `max(1, max_attempts)` times, and always with the same budget.
   */
  lemma {:induction false} LaunchesBounded(trace: Trace, id: AttemptId)
    requires Lawful(trace) && NeverRestartDropped(trace, id)
    ensures Launches(trace, id) <= Max(1, Budget(trace, id))
    ensures BudgetIs(trace, id, Budget(trace, id))
  {
    hide Lawful, LawfulStart, Launches, Budget, Starts, Dropped, DroppedAt;
    if trace == [] {
      Nothing(id);
    } else {
      var front, e := trace[..|trace| - 1], trace[|trace| - 1];
      assert trace == front + [e];
      Append(front, e);
      LaunchNext(front, e, id);
      assert forall i :: 0 <= i < |front| ==> front[i] == trace[i];
      forall i | 0 <= i < |front| ensures DroppedAt(front, id, i) <==> DroppedAt(trace, id, i) {
        DroppedEarlier(trace, id, |front|, i);
      }
      LaunchesBounded(front, id);
      if Starting(e, id) {
        NothingDroppedIff(front, id);
        LaunchesSplit(front, id);
        BudgetKept(front, e);
        if Starts(front, id) == 0 {
          NeverLaunched(front, id);
        }
      }
    }
  }

  lemma {:induction false} DroppedEarlier(trace: Trace, id: AttemptId, n: nat, i: nat)
    requires i < n <= |trace|
    ensures DroppedAt(trace[..n], id, i) <==> DroppedAt(trace, id, i)
  {
    assert trace[..n][..i] == trace[..i];
  }

  lemma {:induction false} BudgetKept(before: Trace, e: Event)
    requires e.Start? && LawfulStart(before, e)
    ensures e.index == Starts(before, e.id) + 1 && e.index <= Max(1, e.maxAttempts)
    ensures Starts(before, e.id) > 0 ==> e.maxAttempts == Budget(before, e.id)
  {
  }

  lemma {:induction false} NeverLaunched(trace: Trace, id: AttemptId)
    requires Launches(trace, id) == 0
    ensures forall i :: 0 <= i < |trace| ==> !Starting(trace[i], id)
  {
    if trace != [] {
      var front := trace[..|trace| - 1];
      NeverLaunched(front, id);
      assert forall i :: 0 <= i < |front| ==> front[i] == trace[i];
    }
  }

  /**
   * A started attempt that is dropped only when completed, and desired by every pass from then on,
   * is never started again; starts refused before may have been many.
   */
  lemma {:induction false} CompletedIsNotRevived(trace: Trace, id: AttemptId)
    requires Lawful(trace)
    requires forall i :: 0 <= i < |trace| && DroppedAt(trace, id, i) ==> Done(trace[..i], id)
    requires forall i, k :: 0 <= i < k < |trace| && DroppedAt(trace, id, i) && trace[k].Pass? ==> id in trace[k].desired
    ensures NeverRestartDropped(trace, id)
    ensures Launches(trace, id) <= Max(1, Budget(trace, id))
  {
    hide Lawful, Launches, Budget, DroppedAt;
    forall i, j | 0 <= i < j < |trace| && DroppedAt(trace, id, i) ensures !Starting(trace[j], id) {
      DropIsNoPass(trace, id, i);
      DonePersists(trace, id, i, j);
      if trace[j].Start? {
        EveryStartLawful(trace, j);
      }
    }
    LaunchesBounded(trace, id);
  }

  lemma {:induction false} DropIsNoPass(trace: Trace, id: AttemptId, i: nat)
    requires i < |trace| && DroppedAt(trace, id, i)
    ensures !trace[i].Pass?
  {
  }

  lemma {:induction false} DonePersists(trace: Trace, id: AttemptId, i: nat, j: nat)
    requires i <= j <= |trace| && Done(trace[..i], id)
    requires forall k :: i <= k < j && trace[k].Pass? ==> id in trace[k].desired
    ensures Done(trace[..j], id)
  {
    if i < j {
      DonePersists(trace, id, i, j - 1);
      assert trace[..j][..j - 1] == trace[..j - 1];
    }
  }

  // ---- The bound needs its condition --------------------------------------

  /** Four passes: started, seen to exit, restart refused by the driver and dropped, started afresh. */
  ghost function StartedOver(id: AttemptId, first: Event, second: Event): Trace {
    var pass, ready := Pass({id}), [Prepare(id), Admit(id)];
    ([pass] + ready) + [first]
    + ([Observe(id, Some(true)), pass, Observe(id, Some(false)), Cleanup(id), pass] + ready) + [second]
    + [Forget(id)]
    + ([pass] + ready) + [first]
    + [Observe(id, Some(true))]
  }

  /**
   * When the restart of a two-try attempt fails, its entry goes and the next pass begins again at
   * index one: three starts. The account above is then met with equality.
   */
  lemma {:induction false} DroppedAttemptStartsOver(id: AttemptId, authority: Authority)
    requires !authority.Isolated()
    ensures var fence := authority.placementFence;
            var first, second := Start(id, fence, authority, 1, 2), Start(id, fence, authority, 2, 2);
            var trace := StartedOver(id, first, second);
            && Lawful(trace) && BudgetIs(trace, id, 2) && Drops(trace, id) == 1
            && Launches(trace, id) == 3 == Drops(trace, id) * 2 + Starts(trace, id)
            && !NeverRestartDropped(trace, id)
  {
    hide Lawful, Starts, Done, Launches, Budget, Desired, Drops, NeverRestartDropped;
    var fence := authority.placementFence;
    var first, second := Start(id, fence, authority, 1, 2), Start(id, fence, authority, 2, 2);
    var pass, ready := Pass({id}), [Prepare(id), Admit(id)];
    var t0: Trace := [];
    Nothing(id);
    var t1 := Launched(t0, [pass], id, first);
    var t2 := Launched(t1, [Observe(id, Some(true)), pass, Observe(id, Some(false)), Cleanup(id), pass], id, second);
    var t3 := t2 + [Forget(id)];
    Append(t2, Forget(id));
    LaunchNext(t2, Forget(id), id);
    var t4 := Launched(t3, [pass], id, first);
    Quietly(t4, [Observe(id, Some(true))], id);
    assert t4 + [Observe(id, Some(true))] == StartedOver(id, first, second);
    if NeverRestartDropped(StartedOver(id, first, second), id) {
      LaunchesBounded(StartedOver(id, first, second), id);
    }
  }

  /** Quiet calls up to a pass that desires the attempt, then prepare, admit and start. */
  lemma {:induction false} Launched(trace: Trace, calls: Trace, id: AttemptId, e: Event) returns (after: Trace)
    requires Lawful(trace) && !Done(trace, id) && Quiet(calls, id) && calls != [] && calls[|calls| - 1] == Pass({id})
    requires Starting(e, id) && e.fence == e.authority.placementFence && !e.authority.Isolated()
    requires e.index == Starts(trace, id) + 1 && e.index <= Max(1, e.maxAttempts)
    requires e.index > 1 ==> e.maxAttempts == Budget(trace, id)
    ensures after == trace + (calls + [Prepare(id), Admit(id)]) + [e]
    ensures Lawful(after) && !Done(after, id) && Starts(after, id) == e.index && Budget(after, id) == e.maxAttempts
    ensures Launches(after, id) == Launches(trace, id) + 1 && Drops(after, id) == Drops(trace, id)
  {
    hide Lawful, Starts, Done, Launches, Budget, Desired, Drops;
    var more := calls + [Prepare(id), Admit(id)];
    Quietly(trace, more, id);
    DesiredNow(trace + calls, id);
    assert trace + more == trace + calls + [Prepare(id)] + [Admit(id)];
    Append(trace + calls, Prepare(id));
    Append(trace + calls + [Prepare(id)], Admit(id));
    Append(trace + more, e);
    LaunchNext(trace + more, e, id);
    after := trace + more + [e];
  }

  lemma {:induction false} DesiredNow(trace: Trace, id: AttemptId)
    requires trace != [] && trace[|trace| - 1] == Pass({id})
    ensures Desired(trace) == {id}
  {
  }

  /** Nothing that starts, completes or drops the attempt, and no other start. */
  ghost predicate Quiet(calls: Trace, id: AttemptId) {
    forall i :: 0 <= i < |calls| ==> !calls[i].Start? && calls[i] != Forget(id) && calls[i] != Complete(id)
  }

  lemma {:induction false} Quietly(trace: Trace, calls: Trace, id: AttemptId)
    requires Quiet(calls, id)
    ensures Lawful(trace + calls) <==> Lawful(trace)
    ensures Starts(trace + calls, id) == Starts(trace, id) && Budget(trace + calls, id) == Budget(trace, id)
    ensures Launches(trace + calls, id) == Launches(trace, id) && Drops(trace + calls, id) == Drops(trace, id)
    ensures !Done(trace, id) ==> !Done(trace + calls, id)
  {
    hide Lawful, Starts, Done, Launches, Budget, Desired, Drops;
    if calls == [] {
      assert trace + calls == trace;
    } else {
      var front, e := calls[..|calls| - 1], calls[|calls| - 1];
      Quietly(trace, front, id);
      assert trace + calls == trace + front + [e];
      Append(trace + front, e);
      LaunchNext(trace + front, e, id);
    }
  }

  lemma {:induction false} Nothing(id: AttemptId)
    ensures Lawful([]) && Starts([], id) == 0 && Budget([], id) == 0 && !Done([], id)
    ensures Launches([], id) == 0 && Drops([], id) == 0
  {
  }

  lemma {:induction false} LaunchNext(trace: Trace, e: Event, id: AttemptId)
    ensures Launches(trace + [e], id) == Launches(trace, id) + if Starting(e, id) then 1 else 0
    ensures Drops(trace + [e], id) == Drops(trace, id) + if e == Forget(id) && Starts(trace, id) > 0 then 1 else 0
  {
    assert (trace + [e])[..|trace|] == trace;
  }

  // ---- Completion ---------------------------------------------------------

  /** From its completion on, as long as every pass desires it, an attempt stays done and is not started. */
  lemma {:induction false} CompletedNeverRestarts(trace: Trace, id: AttemptId, c: nat, i: nat)
    requires Lawful(trace) && c < i < |trace| && trace[c] == Complete(id)
    requires forall j :: c < j < |trace| && trace[j].Pass? ==> id in trace[j].desired
    ensures Done(trace[..i], id)
    ensures !Starting(trace[i], id)
  {
    hide Lawful;
    assert trace[..c + 1][|trace[..c + 1]| - 1] == Complete(id);
    DonePersists(trace, id, c + 1, i);
    if trace[i].Start? {
      EveryStartLawful(trace, i);
    }
  }
}
