/** The effect executor (crates/gump-agent/src/reconcile.rs). */
module Executor {
  import opened Machine
  import opened Ordered
  import opened Lifecycle
  import opened Fencing
  import opened AgentTrace
  import opened ExecutorSpec

  class EffectExecutor {
    var authority: Authority
    const isolation: IsolationPolicy
    var live: Live
    var completed: set<AttemptId>
    var completionEvents: set<AttemptId>
    const maxLive: nat
    /** Everything asked of the driver so far. */
    ghost var trace: Trace

    ghost predicate Valid()
      reads this
    {
      Consistent(trace, live, completed, {}) && Tables()
    }

    /** The live table is within its ceiling, apart from the tombstones, and events come from tombstones. */
    ghost predicate Tables()
      reads this
    {
      |live| <= maxLive && live.Keys !! completed && completionEvents <= completed
    }

    /** The attempt is in neither table, and a restart gets the place it gave up. */
    ghost predicate Startable(p: Placement, index: u32)
      reads this
    {
      var id := p.attemptId;
      && Consistent(trace, live, completed, {id}) && Tables() && id in Desired(trace)
      && id !in live && id !in completed && (index > 1 ==> |live| < maxLive)
      && index == Starts(trace, id) + 1 <= Max(1, p.contract.retry.maxAttempts)
      && (index > 1 ==> Budget(trace, id) == p.contract.retry.maxAttempts)
    }

    constructor (authority: Authority, isolation: IsolationPolicy, maxLive: nat)
      ensures Valid() && live == map[] && completed == {} && completionEvents == {} && trace == []
      ensures this.authority == authority && this.isolation == isolation && this.maxLive == maxLive
    {
      this.authority, this.isolation, this.maxLive := authority, isolation, maxLive;
      live, completed, completionEvents, trace := map[], {}, {}, [];
    }

    method SetAuthority(a: Authority)
      requires Valid()
      modifies this`authority
      ensures Valid() && authority == a
    {
      authority := a;
    }

    method MarkIsolated(nowMs: u64)
      requires Valid()
      modifies this`authority
      ensures Valid() && authority.Isolated()
      ensures authority == if old(authority).Isolated() then old(authority)
                           else old(authority).(isolatedSince := Some(nowMs))
    {
      if !authority.Isolated() {
        authority := authority.(isolatedSince := Some(nowMs));
      }
    }

    method ClearIsolation(placementFence: u64, controllerEpoch: u64)
      requires Valid()
      modifies this`authority
      ensures Valid() && authority == Authority(controllerEpoch, placementFence, None)
    {
      authority := Authority(controllerEpoch, placementFence, None);
    }

    method AcknowledgeCompletion(id: AttemptId)
      requires Valid()
      modifies this`completionEvents
      ensures Valid() && completionEvents == old(completionEvents) - {id}
    {
      completionEvents := completionEvents - {id};
    }

    // ---- Starting ---------------------------------------------------------

    /** Prepare, admit, start. The driver and the file system may fail at any step. */
    method Launch(p: Placement, nowMs: u64, index: u32) returns (r: Option<AgentError>)
      requires Startable(p, index)
      modifies this`live, this`trace
      ensures Grew(old(trace), trace, authority, {p.attemptId})
      ensures r.Some? ==> live == old(live) && Consistent(trace, live, completed, {p.attemptId})
      ensures r.None? ==>
                && live == old(live)[p.attemptId := NewEntry(p, nowMs, index)] && Consistent(trace, live, completed, {})
                && trace == old(trace) + LaunchOf(p, authority, index)
      ensures index == 1 && |old(live)| >= maxLive ==> r.Some?
      ensures AllowEffect(authority, p.fence).Some? ==> r == Some(Fence(AllowEffect(authority, p.fence).value))
      ensures AllowEffect(authority, p.fence).Some? || !p.capsuleVerified ==> r.Some? && trace == old(trace)
    {
      hide Consistent, Starts, Budget, Done, Desired, Lawful, NewEntry, NeverInferred;
      var id := p.attemptId;
      var forbidden := AllowEffect(authority, p.fence);
      if forbidden.Some? {
        return Some(Fence(forbidden.value));
      }
      if !p.capsuleVerified {
        return Some(UnverifiedCapsule);
      }
      if index == 1 && |live| >= maxLive {
        return Some(Capacity);
      }
      var rootReady: bool := *;
      if !rootReady {
        return Some(AttemptRoot);
      }
      PlainKeeps(trace, live, completed, {id}, Prepare(id));
      trace := trace + [Prepare(id)];
      var prepared: bool := *;
      if !prepared {
        return Some(Driver);
      }
      PlainKeeps(trace, live, completed, {id}, Admit(id));
      trace := trace + [Admit(id)];
      var admitted: bool := *;
      if !admitted {
        return Some(Driver);
      }
      ghost var e := Start(id, p.fence, authority, index, p.contract.retry.maxAttempts);
      var entry := NewEntry(p, nowMs, index);
      NewEntryFacts(p, nowMs, index);
      NotDone(trace, live, completed, {id}, id);
      StartKeeps(trace, live, completed, e, entry);
      trace := trace + [e];
      var started: bool := *;
      if !started {
        return Some(Driver);
      }
      live := live[id := entry];
      assert trace == old(trace) + LaunchOf(p, authority, index);
      return None;
    }

    static lemma {:induction false} NotDone(trace: Trace, live: Live, completed: set<AttemptId>,
                                            loose: set<AttemptId>, id: AttemptId)
      requires Consistent(trace, live, completed, loose) && id !in completed
      ensures !Done(trace, id)
    {
    }

    /** A failed start leaves nothing supervised. */
    method StartPlacement(p: Placement, nowMs: u64, index: u32) returns (r: Option<AgentError>)
      requires Startable(p, index)
      modifies this`live, this`trace
      ensures Valid() && Grew(old(trace), trace, authority, {p.attemptId})
      ensures r.Some? ==> live == old(live)
      ensures r.None? ==>
                && live == old(live)[p.attemptId := NewEntry(p, nowMs, index)]
                && trace == old(trace) + LaunchOf(p, authority, index)
      ensures AllowEffect(authority, p.fence).Some? || !p.capsuleVerified ==>
                r.Some? && trace == old(trace) + [Forget(p.attemptId)]
    {
      hide Consistent, Starts, Budget, Desired, NewEntry, Grew;
      var id := p.attemptId;
      OneMore(live, id, NewEntry(p, nowMs, index));
      r := Launch(p, nowMs, index);
      if r.Some? {
        ForgetKeeps(trace, live, completed, {id}, id);
        OneGrew(trace, Forget(id), authority, {id});
        GrewOn(old(trace), trace, trace + [Forget(id)], authority, {id});
        trace := trace + [Forget(id)];
      }
    }

    static lemma {:induction false} OneMore(live: Live, id: AttemptId, a: LiveAttempt)
      requires id !in live
      ensures live - {id} == live && {id} - {id} == {}
      ensures live[id := a].Keys == live.Keys + {id} && |live[id := a]| == |live| + 1
    {
      assert live[id := a].Keys == live.Keys + {id};
    }

    static lemma {:induction false} Loosen(trace: Trace, live: Live, completed: set<AttemptId>, id: AttemptId)
      requires Consistent(trace, live, completed, {})
      ensures Consistent(trace, live, completed, {id})
    {
      hide Lawful, Starts, Budget, Done, Desired, Kept;
    }

    // ---- Leaving the supervised set ---------------------------------------

    /** The attempt is gone whatever the driver says about cleaning up. */
    method CleanupLive(id: AttemptId) returns (r: Option<AgentError>)
      requires Consistent(trace, live, completed, {})
      modifies this`live, this`trace
      ensures Consistent(trace, live, completed, {}) && live == old(live) - {id} && |live| <= |old(live)|
      ensures OnlyNew(old(trace), trace, Leaving)
      ensures id in old(live) && old(live)[id].handle ==> Happened(old(trace), trace, Cleanup(id))
    {
      hide Consistent;
      if id !in live {
        assert live - {id} == live;
        return None;
      }
      var handle := live[id].handle;
      ForgetKeeps(trace, live, completed, {}, id);
      assert {} - {id} == {};
      SmallerSet(live, id);
      live := live - {id};
      trace := trace + [Forget(id)];
      var ok: bool := *;
      if handle {
        PlainKeeps(trace, live, completed, {}, Cleanup(id));
        trace := trace + [Cleanup(id)];
        assert trace[|trace| - 1] == Cleanup(id);
        return if ok then None else Some(Driver);
      }
      return if ok then None else Some(AttemptRoot);
    }

    static lemma {:induction false} SmallerSet(live: Live, id: AttemptId)
      ensures |live - {id}| <= |live|
    {
      assert live.Keys == (live - {id}).Keys + (live.Keys * {id});
    }

    method ForceStopCleanup(id: AttemptId) returns (r: Option<AgentError>)
      requires Valid()
      modifies this`live, this`trace
      ensures Valid() && live == old(live) - {id}
      ensures OnlyNew(old(trace), trace, Stopping)
      ensures id in old(live) && old(live)[id].handle ==> Happened(old(trace), trace, Kill(id))
    {
      hide Consistent;
      hide OnlyNew, Happened;
      NothingNew(trace, Stopping);
      if id in live && live[id].handle {
        PlainKeeps(trace, live, completed, {}, Kill(id));
        OneNew(trace, Kill(id), Stopping);
        trace := trace + [Kill(id)];
      }
      ghost var before := trace;
      r := CleanupLive(id);
      LeavingIsStopping(before, trace);
      IsPrefix(before, trace, Stopping);
      OnlyNewOn(old(trace), before, trace, Stopping);
      if id in old(live) && old(live)[id].handle {
        StillHappened(old(trace), before, trace, Kill(id));
      }
    }

    /** Why a stop is refused outright: an unknown attempt, a stale fence or an isolated agent. */
    function Refused(table: Live, id: AttemptId): Option<AgentError>
      reads this`authority
    {
      if id !in table then Some(NotFound)
      else
        var forbidden := AllowEffect(authority, table[id].placement.fence);
        if forbidden.Some? then Some(Fence(forbidden.value)) else None
    }

    /** Graceful stop under live authority; the attempt stays supervised only if observing or killing it fails. */
    method StopAndCleanup(id: AttemptId) returns (r: Option<AgentError>)
      requires Valid()
      modifies this`live, this`trace
      ensures Valid() && Grew(old(trace), trace, authority, {})
      ensures live == old(live) || live == old(live) - {id}
      ensures r.None? ==> live == old(live) - {id}
      ensures r.None? ==> id in old(live)
      ensures r.None? && old(live)[id].handle ==>
                Happened(old(trace), trace, Terminate(id)) && Happened(old(trace), trace, Cleanup(id))
      ensures Refused(old(live), id).Some? ==> r == Refused(old(live), id) && live == old(live) && trace == old(trace)
      ensures Refused(old(live), id).None? && id in live ==>
                r.Some? && exists answer :: trace == old(trace) + Halted(id, answer) && answer != Some(false)
    {
      hide Consistent;
      if id !in live {
        return Some(NotFound);
      }
      var forbidden := AllowEffect(authority, live[id].placement.fence);
      if forbidden.Some? {
        return Some(Fence(forbidden.value));
      }
      hide OnlyNew, Grew, Happened;
      NoGrowth(trace, authority, {});
      if live[id].handle {
        r := TerminateRunning(id);
        HaltingGrew(old(trace), trace, authority);
        if r.Some? {
          return;
        }
      }
      ghost var before := trace;
      r := CleanupLive(id);
      LeavingGrew(before, trace, authority);
      GrewPrefix(old(trace), before, authority, {});
      GrewPrefix(before, trace, authority, {});
      GrewOn(old(trace), before, trace, authority, {});
      if old(live)[id].handle {
        StillHappened(old(trace), before, trace, Terminate(id));
        HappenedLater(old(trace), before, trace, Cleanup(id));
      }
    }

    /** Terminate, observe, and kill exactly if the answer is that it still runs. */
    method TerminateRunning(id: AttemptId) returns (r: Option<AgentError>)
      requires Valid()
      modifies this`trace
      ensures Valid() && OnlyNew(old(trace), trace, Halting) && Happened(old(trace), trace, Terminate(id))
      ensures exists answer :: trace == old(trace) + Halted(id, answer) && (r.None? ==> answer.Some?)
                               && (answer == Some(false) ==> r.None?)
    {
      hide Consistent;
      PlainKeeps(trace, live, completed, {}, Terminate(id));
      trace := trace + [Terminate(id)];
      var observed: bool := *;
      var running: bool := *;
      ghost var answer := if observed then Some(running) else None;
      PlainKeeps(trace, live, completed, {}, Observe(id, answer));
      trace := trace + [Observe(id, answer)];
      assert trace == old(trace) + [Terminate(id), Observe(id, answer)];
      assert trace[|old(trace)|] == Terminate(id);
      if !observed {
        assert trace == old(trace) + Halted(id, answer);
        return Some(Driver);
      }
      r := None;
      if running {
        PlainKeeps(trace, live, completed, {}, Kill(id));
        trace := trace + [Kill(id)];
        assert trace[|old(trace)|] == Terminate(id);
        var killed: bool := *;
        r := if killed then None else Some(Driver);
      }
      assert trace == old(trace) + Halted(id, answer);
    }

    static ghost function Halted(id: AttemptId, answer: Option<bool>): Trace {
      [Terminate(id), Observe(id, answer)] + if answer == Some(true) then [Kill(id)] else []
    }

    /** Stops one attempt on request. */
    method Cancel(id: AttemptId) returns (r: Option<AgentError>)
      requires Valid()
      modifies this`live, this`trace
      ensures Valid() && Grew(old(trace), trace, authority, {})
      ensures live == old(live) || live == old(live) - {id}
      ensures r.None? ==> id in old(live) && live == old(live) - {id}
      ensures r.None? && old(live)[id].handle ==>
                Happened(old(trace), trace, Terminate(id)) && Happened(old(trace), trace, Cleanup(id))
      ensures Refused(old(live), id).Some? ==> r == Refused(old(live), id) && live == old(live) && trace == old(trace)
      ensures Refused(old(live), id).None? && id in live ==>
                r.Some? && exists answer :: trace == old(trace) + Halted(id, answer) && answer != Some(false)
    {
      hide Consistent, Grew, Happened;
      NoGrowth(trace, authority, {});
      if id !in live {
        return Some(NotFound);
      }
      var forbidden := AllowEffect(authority, live[id].placement.fence);
      if forbidden.Some? {
        return Some(Fence(forbidden.value));
      }
      r := StopAndCleanup(id);
    }

    /** Kills one attempt on request; it stays supervised only if the kill fails. */
    method ForceKill(id: AttemptId) returns (r: Option<AgentError>)
      requires Valid()
      modifies this`live, this`trace
      ensures Valid() && OnlyNew(old(trace), trace, Stopping)
      ensures live == old(live) || live == old(live) - {id}
      ensures r.None? ==> id in old(live) && live == old(live) - {id}
      ensures r.None? && old(live)[id].handle ==>
                Happened(old(trace), trace, Kill(id)) && Happened(old(trace), trace, Cleanup(id))
      ensures Refused(old(live), id).Some? ==> r == Refused(old(live), id) && live == old(live) && trace == old(trace)
      ensures Refused(old(live), id).None? && id in live ==>
                r.Some? && old(live)[id].handle && trace == old(trace) + [Kill(id)]
    {
      hide Consistent, OnlyNew, Happened;
      NothingNew(trace, Stopping);
      if id !in live {
        return Some(NotFound);
      }
      var forbidden := AllowEffect(authority, live[id].placement.fence);
      if forbidden.Some? {
        return Some(Fence(forbidden.value));
      }
      if live[id].handle {
        PlainKeeps(trace, live, completed, {}, Kill(id));
        OneNew(trace, Kill(id), Stopping);
        trace := trace + [Kill(id)];
        var killed: bool := *;
        if !killed {
          return Some(Driver);
        }
      }
      ghost var before := trace;
      r := CleanupLive(id);
      LeavingIsStopping(before, trace);
      IsPrefix(old(trace), before, Stopping);
      IsPrefix(before, trace, Stopping);
      OnlyNewOn(old(trace), before, trace, Stopping);
      if old(live)[id].handle {
        StillHappened(old(trace), before, trace, Kill(id));
        HappenedLater(old(trace), before, trace, Cleanup(id));
      }
    }

    // ---- Observing --------------------------------------------------------

    /** Puts an updated entry back. */
    method Update(id: AttemptId, a: LiveAttempt)
      requires Valid() && id in live && a.placement == live[id].placement
      requires Kept(live[id], Starts(trace, id)) ==> Kept(a, Starts(trace, id))
      modifies this`live
      ensures Valid() && live == old(live)[id := a]
    {
      hide Consistent, Kept, Starts;
      UpdateKeeps(trace, live, completed, id, a);
      assert live[id := a].Keys == live.Keys;
      live := live[id := a];
    }

    static lemma {:induction false} HandleMeansRunning(trace: Trace, live: Live, completed: set<AttemptId>,
                                                       id: AttemptId)
      requires Consistent(trace, live, completed, {}) && id in live
      ensures (live[id].handle <==> live[id].phase.Running?) && live[id].placement.attemptId == id
    {
      hide Lawful, Starts, Budget, Done, Desired;
    }

    /** Attempts waiting or given up are left alone; the exit of any other is acted on. */
    method ObserveOne(id: AttemptId, nowMs: u64) returns (r: Option<AgentError>)
      requires Valid() && id in live
      modifies this`live, this`completed, this`completionEvents, this`trace
      ensures r.None? ==> old(live)[id].placement.fence == authority.placementFence
      ensures r.None? && id in live && live[id].handle ==> Happened(old(trace), trace, Observe(id, Some(true)))
      ensures id in live && live[id].handle ==> old(live)[id].handle
      ensures old(live)[id].phase.AwaitingRestart? || old(live)[id].phase.PermanentFailure? ==>
                live == old(live) && completed == old(completed) && trace == old(trace)
      ensures r.None? && SucceededUnseen(old(live)[id]) && !authority.Isolated() ==> id in completed && id in completionEvents
      ensures r.None? && old(live)[id].phase.Running? ==>
                || (Happened(old(trace), trace, Observe(id, Some(true))) && live == old(live) && completed == old(completed))
                || (Happened(old(trace), trace, Observe(id, Some(false)))
                    && Exited(old(live)[id], live, completed, id, authority.Isolated(), nowMs))
      ensures EventsKept(old(completed), completed, old(completionEvents), completionEvents)
      ensures Valid() && About(old(live), live, old(completed), completed, id) && old(completed) <= completed
      ensures Grew(old(trace), trace, authority, {})
      ensures authority.Isolated() ==>
                && live.Keys == old(live).Keys && completed == old(completed) && completionEvents == old(completionEvents)
                && OnlyNew(old(trace), trace, Watching)
    {
      hide Consistent, Starts, Lawful, Kept, Grew, OnlyNew, About, Settled, Happened, Ended;
      var a := live[id];
      HandleMeansRunning(trace, live, completed, id);
      NoGrowth(trace, authority, {});
      NothingNew(trace, Watching);
      AboutNothing(live, completed, id);
      var stale := RequireFence(authority, a.placement.fence);
      if stale.Some? {
        return Some(Fence(stale.value));
      }
      if a.phase.AwaitingRestart? || a.phase.PermanentFailure? {
        return None;
      }
      var obs := Observation(false, if a.phase.Terminal? then a.phase.exit else None);
      if a.handle {
        var observed: bool := *;
        obs := *;
        ghost var e := Observe(id, if observed then Some(obs.running) else None);
        PlainKeeps(trace, live, completed, {}, e);
        OneGrew(trace, e, authority, {});
        OneNew(trace, e, Watching);
        trace := trace + [e];
        if !observed {
          return Some(Driver);
        }
      }
      if obs.running {
        PhaseKept(a, a.(phase := Running), Starts(trace, id));
        AboutUpdate(live, completed, id, a.(phase := Running));
        Update(id, a.(phase := Running));
        assert live == old(live);
        return None;
      }
      ghost var before := trace;
      r := ApplyExitPolicy(id, obs.exit, nowMs);
      GrewPrefix(before, trace, authority, {});
      if a.handle {
        StillHappened(old(trace), before, trace, Observe(id, Some(false)));
      }
      assert ExitedWith(a, live, completed, id, obs.exit, authority.Isolated(), nowMs);
      SettledKept(old(live)[id], id, obs.exit, authority.Isolated(), nowMs, 0);
      GrewOn(old(trace), before, trace, authority, {});
      if authority.Isolated() {
        OnlyNewOn(old(trace), before, trace, Watching);
      }
    }

    /** What happens to an attempt that is no longer running. */
    method ApplyExitPolicy(id: AttemptId, exit: Option<int>, nowMs: u64) returns (r: Option<AgentError>)
      requires Valid() && id in live && !live[id].phase.AwaitingRestart?
      modifies this`live, this`completed, this`completionEvents, this`trace
      ensures Finishes(old(live)[id], exit) && !authority.Isolated() ==>
                live == old(live) - {id} && completed == old(completed) + {id} && id in completionEvents
      ensures !Finishes(old(live)[id], exit) || authority.Isolated() ==>
                && r.None? && live == old(live)[id := Settled(old(live)[id], id, exit, authority.Isolated(), nowMs)]
                && completed == old(completed) && completionEvents == old(completionEvents)
      ensures ExitedWith(old(live)[id], live, completed, id, exit, authority.Isolated(), nowMs)
      ensures EventsKept(old(completed), completed, old(completionEvents), completionEvents)
      ensures Valid() && About(old(live), live, old(completed), completed, id)
      ensures Grew(old(trace), trace, authority, {}) && (authority.Isolated() ==> OnlyNew(old(trace), trace, Watching))
    {
      hide Consistent, Starts, Lawful, Kept, Settled, Grew, OnlyNew, About, Ended;
      SettledIsEnded(live[id], id, exit, authority.Isolated(), nowMs);
      var a := live[id];
      GiveBack(id);
      var settled := Settled(a, id, exit, authority.Isolated(), nowMs);
      SettledKept(a, id, exit, authority.Isolated(), nowMs, Starts(trace, id));
      AboutUpdate(old(live), completed, id, settled);
      Overwritten(old(live), id, settled);
      Update(id, settled);
      if a.placement.finite && exit == Some(0) && !authority.Isolated() {
        ghost var before := trace;
        r := CompleteAttempt(id);
        GrewOn(old(trace), before, trace, authority, {});
        AboutComplete(old(live), old(completed), id);
        return;
      }
      return None;
    }

    static lemma {:induction false} Overwritten(live: Live, id: AttemptId, a: LiveAttempt)
      ensures live[id := a] - {id} == live - {id}
      ensures (live[id := a]).Keys == live.Keys + {id}
    {
    }

    /** Gives the handle, if any, back to the driver. */
    method GiveBack(id: AttemptId)
      requires Valid() && id in live
      modifies this`trace
      ensures Valid() && OnlyNew(old(trace), trace, Watching) && Grew(old(trace), trace, authority, {})
      ensures trace == old(trace) + if live[id].handle then [Cleanup(id)] else []
    {
      hide Consistent, Grew, OnlyNew;
      NoGrowth(trace, authority, {});
      NothingNew(trace, Watching);
      if live[id].handle {
        PlainKeeps(trace, live, completed, {}, Cleanup(id));
        OneGrew(trace, Cleanup(id), authority, {});
        OneNew(trace, Cleanup(id), Watching);
        trace := trace + [Cleanup(id)];
      }
    }

    /** A finite success moves from the live table to the tombstones. */
    method CompleteAttempt(id: AttemptId) returns (r: Option<AgentError>)
      requires Valid() && id in live
      modifies this`live, this`completed, this`completionEvents, this`trace
      ensures Valid() && live == old(live) - {id}
      ensures completed == old(completed) + {id} && completionEvents == old(completionEvents) + {id}
      ensures Grew(old(trace), trace, authority, {})
    {
      hide Consistent;
      hide Grew, OnlyNew;
      CompleteKeeps(trace, live, completed, {}, id);
      OneGrew(trace, Complete(id), authority, {});
      ghost var marked := trace + [Complete(id)];
      trace := marked;
      completed := completed + {id};
      completionEvents := completionEvents + {id};
      r := CleanupLive(id);
      LeavingGrew(marked, trace, authority);
      GrewOn(old(trace), marked, trace, authority, {});
    }

    /** A restart that is due replaces the entry, or drops it if the start fails. */
    method MaybeRestart(id: AttemptId, nowMs: u64) returns (r: Option<AgentError>)
      requires Valid() && id in live && id in Desired(trace)
      modifies this`live, this`trace
      ensures Valid() && Grew(old(trace), trace, authority, {id})
      ensures (r.None? <==> id in live) && live - {id} == old(live) - {id}
      ensures r.None? ==> About(old(live), live, completed, completed, id)
      ensures !IsDue(old(live)[id], nowMs) ==> live == old(live) && trace == old(trace)
      ensures IsDue(old(live)[id], nowMs) && r.None? ==>
                && live[id] == NewEntry(old(live)[id].placement, nowMs, old(live)[id].attemptIndex)
                && trace == old(trace) + LaunchOf(old(live)[id].placement, authority, old(live)[id].attemptIndex)
      ensures IsDue(old(live)[id], nowMs) && r.Some? ==> id !in live && Starts(trace, id) == 0
    {
      hide Consistent, Starts, Budget, Desired, Lawful, NeverInferred, NewEntry;
      var a := live[id];
      if !a.phase.AwaitingRestart? || nowMs < a.phase.afterMs {
        AboutNothing(live, completed, id);
        return None;
      }
      DropToLoose(trace, live, completed, id);
      live := live - {id};
      r := StartPlacement(a.placement, nowMs, a.attemptIndex);
      if r.None? {
        NewEntryFacts(a.placement, nowMs, a.attemptIndex);
        assert live == old(live)[id := NewEntry(a.placement, nowMs, a.attemptIndex)];
        AboutUpdate(old(live), completed, id, live[id]);
        assert live - {id} == old(live) - {id};
      } else {
        assert live - {id} == live;
        NeverStarted(trace, live, completed, id);
      }
    }

    static lemma {:induction false} DropToLoose(trace: Trace, live: Live, completed: set<AttemptId>, id: AttemptId)
      requires Consistent(trace, live, completed, {}) && id in live
      ensures Consistent(trace, live - {id}, completed, {id}) && live[id].placement.attemptId == id
      ensures Counted(live[id], Starts(trace, id)) && Budget(trace, id) == live[id].placement.contract.retry.maxAttempts
      ensures |live - {id}| + 1 == |live| && |{id}| == 1
    {
      hide Lawful, Starts, Budget, Done, Desired, Counted, NeverInferred;
      assert live.Keys == (live - {id}).Keys + {id};
    }

    // ---- Health checks ----------------------------------------------------

    /** Readiness is recorded; failed liveness stops the attempt and applies the exit policy. */
    method TickChecks(id: AttemptId, nowMs: u64) returns (r: Option<AgentError>)
      requires Valid() && (id in live || id in completed)
      modifies this`live, this`completed, this`completionEvents, this`trace
      ensures Valid() && Grew(old(trace), trace, authority, {})
      ensures About(old(live), live, old(completed), completed, id)
      ensures id !in old(live) ==> r.None? && live == old(live) && completed == old(completed) && trace == old(trace)
      ensures id in old(live) && id in live && live[id].handle ==> old(live)[id].handle
      ensures id in old(live) && old(live)[id].handle && !(id in live && live[id].handle) ==>
                Happened(old(trace), trace, Kill(id))
      ensures id in old(live) && !old(live)[id].phase.Running? ==>
                live == old(live) && completed == old(completed) && trace == old(trace)
      ensures id in old(live) && old(live)[id].phase.Running? ==>
                && r.None? && id in live && completed == old(completed)
                && ((Checked(old(live)[id], live[id], nowMs) && trace == old(trace))
                    || (Lost(old(live)[id], live[id], id, authority.Isolated(), nowMs)
                        && (old(live)[id].handle ==> Happened(old(trace), trace, Kill(id)))))
      ensures EventsKept(old(completed), completed, old(completionEvents), completionEvents)
    {
      hide Consistent, Starts, Lawful, About, Grew, CheckRuntime.Due, CheckRuntime.Record, WithReadiness, Settled, Happened,
        Ended, Probed, LivenessFailed;
      NoGrowth(trace, authority, {});
      AboutNothing(live, completed, id);
      if id !in live || !live[id].phase.Running? {
        return None;
      }
      ghost var done := completed;
      TickReadiness(id, nowMs);
      ghost var ready := live;
      var failed := TickLiveness(id, nowMs);
      ProbedBoth(old(live)[id], ready[id], live[id], nowMs, failed);
      AboutBoth(old(live), ready, live, done, done, done, id);
      if failed {
        ghost var checked := live;
        if live[id].handle {
          PlainKeeps(trace, live, completed, {}, Kill(id));
          OneGrew(trace, Kill(id), authority, {});
          OneNew(trace, Kill(id), Stopping);
          trace := trace + [Kill(id)];
        }
        ghost var before := trace;
        r := ApplyExitPolicy(id, None, nowMs);
        GrewPrefix(before, trace, authority, {});
        if checked[id].handle {
          StillHappened(old(trace), before, trace, Kill(id));
        }
        SettledKept(checked[id], id, None, authority.Isolated(), nowMs, 0);
        GrewOn(old(trace), before, trace, authority, {});
        AboutBoth(old(live), checked, live, done, done, completed, id);
        return;
      }
      return None;
    }

    /** Events are kept, and every new tombstone has one. */
    static ghost predicate EventsKept(done: set<AttemptId>, done': set<AttemptId>, events: set<AttemptId>,
                                      events': set<AttemptId>)
    {
      events <= events' && done' - done <= events'
    }

    method TickReadiness(id: AttemptId, nowMs: u64)
      requires Valid() && id in live && live[id].phase.Running?
      modifies this`live
      ensures Valid() && About(old(live), live, completed, completed, id) && id in live && live[id].phase.Running?
      ensures live[id].handle == old(live)[id].handle
      ensures live[id].liveness == old(live)[id].liveness && live[id].startedMs == old(live)[id].startedMs
      ensures live[id].placement == old(live)[id].placement
      ensures ReadinessProbed(old(live)[id], live[id], nowMs)
      ensures var a, spec := old(live)[id], old(live)[id].placement.contract.readiness;
              if DueAt(spec, a.readiness, a.startedMs, nowMs)
              then exists ok :: live == old(live)[id := WithReadiness(a, ok, spec.value, nowMs)]
              else live == old(live)
    {
      hide Consistent, Starts, CheckRuntime.Record, CheckRuntime.Due, About;
      var a := live[id];
      AboutNothing(live, completed, id);
      var declared := a.placement.contract.readiness;
      if declared.Some? {
        DueIff(a.readiness, nowMs, a.startedMs, declared.value);
      }
      if declared.Some? && a.readiness.Due(nowMs, a.startedMs, declared.value) {
        var ok: bool := *;
        AboutUpdate(live, completed, id, WithReadiness(a, ok, declared.value, nowMs));
        Update(id, WithReadiness(a, ok, declared.value, nowMs));
      }
    }

    /** The readiness check, if due, ran; nothing else about the entry changed. */
    static ghost predicate ReadinessProbed(a: LiveAttempt, b: LiveAttempt, nowMs: u64) {
      && b == a.(readiness := b.readiness, ready := b.ready, publicationEligible := b.publicationEligible)
      && var contract := a.placement.contract;
         if DueAt(contract.readiness, a.readiness, a.startedMs, nowMs) then
           && Ran(a.readiness, b.readiness, contract.readiness.value, nowMs)
           && b.ready == Some(b.readiness.passed)
           && b.publicationEligible
              == (if contract.declaresPublication then Some(b.readiness.passed) else a.publicationEligible)
         else b == a
    }

    /** The liveness check, if due, ran, and it failed the attempt exactly at its threshold. */
    static ghost predicate LivenessProbed(a: LiveAttempt, b: LiveAttempt, nowMs: u64, failed: bool) {
      && b == a.(liveness := b.liveness)
      && var spec := a.placement.contract.liveness;
         if DueAt(spec, a.liveness, a.startedMs, nowMs) then
           && Ran(a.liveness, b.liveness, spec.value, nowMs)
           && (failed <==> b.liveness.consecutiveFailure >= Max(spec.value.failureThreshold, 1))
         else b == a && !failed
    }

    static lemma {:induction false} ProbedBoth(a: LiveAttempt, ready: LiveAttempt, b: LiveAttempt, nowMs: u64,
                                               failed: bool)
      requires ReadinessProbed(a, ready, nowMs) && LivenessProbed(ready, b, nowMs, failed)
      ensures Probed(a, b, nowMs) && (failed <==> LivenessFailed(a, b, nowMs))
    {
      hide CheckRuntime.Record, Waited;
    }

    method TickLiveness(id: AttemptId, nowMs: u64) returns (failed: bool)
      requires Valid() && id in live && live[id].phase.Running?
      modifies this`live
      ensures Valid() && About(old(live), live, completed, completed, id) && id in live && live[id].phase.Running?
      ensures live[id].handle == old(live)[id].handle
      ensures live == old(live)[id := live[id]] && LivenessProbed(old(live)[id], live[id], nowMs, failed)
    {
      hide Consistent, Starts, CheckRuntime.Record, CheckRuntime.Due, About;
      failed := false;
      var a := live[id];
      AboutNothing(live, completed, id);
      var declared := a.placement.contract.liveness;
      assert live == live[id := a];
      if declared.Some? {
        DueIff(a.liveness, nowMs, a.startedMs, declared.value);
      }
      if declared.Some? && a.liveness.Due(nowMs, a.startedMs, declared.value) {
        var ok: bool := *;
        var liveness := a.liveness.(lastRunMs := nowMs).Record(ok, declared.value);
        AboutUpdate(live, completed, id, a.(liveness := liveness));
        Update(id, a.(liveness := liveness));
        failed := liveness.consecutiveFailure >= declared.value.Tolerated();
      }
    }

    /** What the laws of the trace say of a supervised attempt. */
    lemma {:induction false} StartsWithinBudget(id: AttemptId)
      requires Valid() && id in live
      ensures Starts(trace, id) <= Max(1, live[id].placement.contract.retry.maxAttempts)
      ensures Launches(trace, id) == Dropped(trace, id) + Starts(trace, id) && Dropped(trace, id) <= Forfeited(trace, id)
      ensures NeverRestartDropped(trace, id) ==>
                Launches(trace, id) <= Max(1, live[id].placement.contract.retry.maxAttempts)
    {
      hide Starts, Budget, Launches, Dropped, Forfeited, NeverRestartDropped;
      LaunchesAccounted(trace, id);
      if NeverRestartDropped(trace, id) {
        LaunchesBounded(trace, id);
      }
    }

    // ---- One pass ---------------------------------------------------------

    static ghost function Ids(desired: seq<Placement>): set<AttemptId> {
      set p | p in desired :: p.attemptId
    }

    /**
     * One reconcile pass. Past the isolation grace everything is stopped; isolated within it,
     * running attempts are only watched; connected, the live and completed attempts become
     * exactly the desired ones unless a step fails.
     */
    method Reconcile(desired: seq<Placement>, nowMs: u64) returns (r: Option<AgentError>)
      requires Valid()
      modifies this`live, this`completed, this`completionEvents, this`trace
      ensures Valid() && old(trace) <= trace
      ensures GraceIsOver(authority, isolation, nowMs) ==>
                && r == Some(Fence(GraceExpired)) && live == map[]
                && completed == old(completed) && OnlyNew(old(trace), trace, Stopping)
                && forall id :: id in old(live) && old(live)[id].handle ==> Happened(old(trace), trace, Kill(id))
      ensures authority.Isolated() && !GraceIsOver(authority, isolation, nowMs) ==>
                && live.Keys == old(live).Keys && completed == old(completed) && completionEvents == old(completionEvents)
                && OnlyNew(old(trace), trace, Watching)
                && (r.None? ==> AllSeen(old(live), live, old(trace), trace, nowMs))
      ensures !authority.Isolated() ==>
                && Grew(old(trace) + [Pass(Ids(desired))], trace, authority, Ids(desired))
                && old(completed) * Ids(desired) <= completed
                && EventsKept(old(completed), completed, old(completionEvents) * Ids(desired), completionEvents)
      ensures !authority.Isolated() && r.None? ==>
                && Converged(desired, old(live), old(completed), live, completed, old(trace), trace, nowMs)
                && live.Keys + completed == Ids(desired) && live.Keys !! completed
                && forall id :: id in live ==> live[id].placement.fence == authority.placementFence
      ensures r.None? ==> Watched(old(trace), trace, live)
    {
      hide Consistent, Lawful, Converged, AllSeen;
      if GraceIsOver(authority, isolation, nowMs) {
        StopEverything();
        return Some(Fence(GraceExpired));
      }
      if authority.Isolated() {
        r := WatchOnly(nowMs);
        return;
      }
      r := Converge(desired, nowMs);
    }

    method SortedLive() returns (ids: seq<AttemptId>)
      ensures forall id :: id in ids <==> id in live
      ensures forall i, j :: 0 <= i < j < |ids| ==> ids[i] != ids[j]
    {
      NatOrder();
      ids := Sort(live.Keys, NatLess);
    }

    method StopEverything()
      requires Valid()
      modifies this`live, this`trace
      ensures Valid() && live == map[] && OnlyNew(old(trace), trace, Stopping)
      ensures forall id :: id in old(live) && old(live)[id].handle ==> Happened(old(trace), trace, Kill(id))
    {
      hide Consistent, OnlyNew, Happened, Tables;
      var ids := SortedLive();
      NothingNew(trace, Stopping);
      for i := 0 to |ids|
        invariant Valid() && OnlyNew(old(trace), trace, Stopping)
        invariant forall id :: id in live ==> id in old(live) && live[id] == old(live)[id]
        invariant forall j :: 0 <= j < i ==> ids[j] !in live
        invariant forall j :: i <= j < |ids| ==> ids[j] in live
        invariant forall j :: 0 <= j < i && old(live)[ids[j]].handle ==> Happened(old(trace), trace, Kill(ids[j]))
      {
        ghost var before := trace;
        var ignored := ForceStopCleanup(ids[i]);
        AlsoHappened(old(trace), before, trace, ids, i, old(live));
        OnlyNewOn(old(trace), before, trace, Stopping);
      }
      assert forall id :: id in live ==> id in ids;
    }

    static lemma {:induction false} AlsoHappened(a: Trace, b: Trace, c: Trace, ids: seq<AttemptId>, i: nat, live: Live)
      requires i < |ids| && (forall id :: id in ids ==> id in live)
      requires OnlyNew(a, b, Stopping) && OnlyNew(b, c, Stopping)
      requires forall j :: 0 <= j < i && live[ids[j]].handle ==> Happened(a, b, Kill(ids[j]))
      requires live[ids[i]].handle ==> Happened(b, c, Kill(ids[i]))
      ensures forall j :: 0 <= j <= i && live[ids[j]].handle ==> Happened(a, c, Kill(ids[j]))
    {
      hide Happened;
      forall j | 0 <= j <= i && live[ids[j]].handle ensures Happened(a, c, Kill(ids[j])) {
        if j < i {
          StillHappened(a, b, c, Kill(ids[j]));
        } else {
          HappenedLater(a, b, c, Kill(ids[j]));
        }
      }
    }

    method WatchOnly(nowMs: u64) returns (r: Option<AgentError>)
      requires Valid() && authority.Isolated()
      modifies this`live, this`completed, this`completionEvents, this`trace
      ensures Valid() && OnlyNew(old(trace), trace, Watching)
      ensures live.Keys == old(live).Keys && completed == old(completed) && completionEvents == old(completionEvents)
      ensures r.None? ==> Watched(old(trace), trace, live)
      ensures r.None? ==> AllSeen(old(live), live, old(trace), trace, nowMs)
    {
      hide Consistent, Grew, OnlyNew, About, Happened, Tables, WatchedUpto, SeenUpto, AllSeen, Exited;
      var ids := SortedLive();
      NothingNew(trace, Watching);
      NoneSeen(ids, live, trace, nowMs);
      r := None;
      for i := 0 to |ids|
        invariant Valid() && OnlyNew(old(trace), trace, Watching)
        invariant live.Keys == old(live).Keys && completed == old(completed) && completionEvents == old(completionEvents)
        invariant WatchedUpto(ids, i, old(trace), trace, live)
        invariant SeenUpto(ids, i, old(live), live, old(trace), trace, nowMs)
      {
        assert ids[i] in ids;
        ghost var before, liveBefore := trace, live;
        r := ObserveOne(ids[i], nowMs);
        OnlyNewOn(old(trace), before, trace, Watching);
        if r.Some? {
          return;
        }
        SameUnion(liveBefore, live, completed, completed, ids[i]);
        IsPrefix(old(trace), before, Watching);
        IsPrefix(before, trace, Watching);
        WatchedNext(ids, i, old(trace), before, trace, liveBefore, live);
        SeenNext(ids, i, old(live), liveBefore, live, completed, old(trace), before, trace, nowMs);
      }
      AllWatched(ids, old(trace), trace, live);
      SeenAll(ids, old(live), live, old(trace), trace, nowMs);
      return None;
    }

    /** Isolated, a running attempt runs on untouched or was seen to exit; one that waits or has failed stays so. */
    static ghost predicate Seen(a: LiveAttempt, live: Live, id: AttemptId, before: Trace, after: Trace, nowMs: u64) {
      && id in live
      && (a.phase.AwaitingRestart? || a.phase.PermanentFailure? ==> live[id] == a)
      && (a.phase.Running? ==>
            || (Happened(before, after, Observe(id, Some(true))) && live[id] == a)
            || (Happened(before, after, Observe(id, Some(false)))
                && exists exit :: Ended(a, live[id], id, exit, true, nowMs)))
    }

    static ghost predicate AllSeen(live0: Live, live: Live, before: Trace, after: Trace, nowMs: u64) {
      forall id :: id in live0 ==> Seen(live0[id], live, id, before, after, nowMs)
    }

    static ghost predicate SeenUpto(all: seq<AttemptId>, i: nat, live0: Live, live: Live, before: Trace, after: Trace,
                                    nowMs: u64)
    {
      && (forall j :: 0 <= j < i <= |all| ==> all[j] in live0 && Seen(live0[all[j]], live, all[j], before, after, nowMs))
      && forall j :: i <= j < |all| ==> all[j] in live0 && all[j] in live && live[all[j]] == live0[all[j]]
    }

    static lemma {:induction false} NoneSeen(all: seq<AttemptId>, live: Live, trace: Trace, nowMs: u64)
      requires forall id :: id in all <==> id in live
      ensures SeenUpto(all, 0, live, live, trace, trace, nowMs) && WatchedUpto(all, 0, trace, trace, live)
    {
    }

    static lemma {:induction false} SeenAll(all: seq<AttemptId>, live0: Live, live: Live, before: Trace, after: Trace,
                                            nowMs: u64)
      requires SeenUpto(all, |all|, live0, live, before, after, nowMs) && forall id :: id in live0 ==> id in all
      ensures AllSeen(live0, live, before, after, nowMs)
    {
      hide Seen;
    }

    static lemma {:induction false} SeenNext(all: seq<AttemptId>, i: nat, live0: Live, live: Live, live': Live,
                                             done: set<AttemptId>, a: Trace, b: Trace, c: Trace, nowMs: u64)
      requires i < |all| && a <= b <= c && SeenUpto(all, i, live0, live, a, b, nowMs)
      requires About(live, live', done, done, all[i]) && all[i] in live'
      requires live[all[i]].phase.AwaitingRestart? || live[all[i]].phase.PermanentFailure? ==> live' == live
      requires live[all[i]].phase.Running? ==>
                 || (Happened(b, c, Observe(all[i], Some(true))) && live' == live)
                 || (Happened(b, c, Observe(all[i], Some(false))) && Exited(live[all[i]], live', done, all[i], true, nowMs))
      requires forall j, k :: 0 <= j < k < |all| ==> all[j] != all[k]
      ensures SeenUpto(all, i + 1, live0, live', a, c, nowMs)
    {
      hide Happened, Ended, About;
      forall j | 0 <= j < |all| && j != i
        ensures j < i ==> Seen(live0[all[j]], live', all[j], a, c, nowMs)
        ensures j > i ==> all[j] in live' && live'[all[j]] == live0[all[j]]
      {
        OtherKept(live, live', done, done, all[i], all[j]);
        if j < i {
          SeenLater(live0[all[j]], live, live', all[j], a, b, c, nowMs);
        }
      }
      forall e | Happened(b, c, e) ensures Happened(a, c, e) {
        HappenedLater(a, b, c, e);
      }
      if Exited(live[all[i]], live', done, all[i], true, nowMs) {
        var exit :| ExitedWith(live[all[i]], live', done, all[i], exit, true, nowMs);
        assert Ended(live[all[i]], live'[all[i]], all[i], exit, true, nowMs);
      }
    }

    static lemma {:induction false} SeenLater(at: LiveAttempt, live: Live, live': Live, id: AttemptId, a: Trace, b: Trace,
                                              c: Trace, nowMs: u64)
      requires Seen(at, live, id, a, b, nowMs) && b <= c && id in live' && live'[id] == live[id]
      ensures Seen(at, live', id, a, c, nowMs)
    {
      hide Happened, Ended;
      forall e | Happened(a, b, e) ensures Happened(a, c, e) {
        StillHappened(a, b, c, e);
      }
    }

    method Converge(desired: seq<Placement>, nowMs: u64) returns (r: Option<AgentError>)
      requires Valid() && !authority.Isolated()
      modifies this`live, this`completed, this`completionEvents, this`trace
      ensures Valid()
      ensures Grew(old(trace) + [Pass(Ids(desired))], trace, authority, Ids(desired))
      ensures old(completed) * Ids(desired) <= completed
      ensures EventsKept(old(completed), completed, old(completionEvents) * Ids(desired), completionEvents)
      ensures r.None? ==> live.Keys + completed == Ids(desired)
      ensures r.None? ==> forall id :: id in live ==> live[id].placement.fence == authority.placementFence
      ensures r.None? ==> Watched(old(trace), trace, live)
      ensures r.None? ==> Converged(desired, old(live), old(completed), live, completed, old(trace), trace, nowMs)
    {
      hide Consistent, Ids, Grew, Watched, Desired, Supervised, MissingStarted, Stopped, Converged, Tables, EventsKept;
      var ids := set p | p in desired :: p.attemptId;
      IdsAre(desired);
      Apart();
      BeginPass(ids);
      ghost var begun, done1 := trace, completed;
      r := StopObsolete(ids);
      GrewMore(begun, trace, authority, {}, ids);
      GrewDesired(begun, trace, authority, ids);
      if r.Some? {
        return;
      }
      ghost var stopped, live1 := trace, live;
      r := StartMissing(desired, nowMs);
      GrewOn(begun, stopped, trace, authority, ids);
      GrewDesired(begun, trace, authority, ids);
      if r.Some? {
        return;
      }
      ghost var started, live2, events1 := trace, live, completionEvents;
      Apart();
      r := SuperviseAll(nowMs);
      EventsFrom(old(completed), done1, completed, events1, completionEvents);
      GrewMore(started, trace, authority, live2.Keys, ids);
      GrewOn(begun, started, trace, authority, ids);
      if r.None? {
        GrewPrefix(begun, started, authority, ids);
        WatchedLater(old(trace), started, trace, live);
        AllInTurn(desired, ids, old(live), old(completed), live1, done1, live2, live, completed,
                  old(trace), begun, stopped, started, trace, authority, nowMs);
      }
    }

    lemma {:induction false} Apart()
      requires Tables()
      ensures live.Keys !! completed
    {
    }

    static lemma {:induction false} EventsFrom(done0: set<AttemptId>, done1: set<AttemptId>, done2: set<AttemptId>,
                                               events1: set<AttemptId>, events2: set<AttemptId>)
      requires EventsKept(done1, done2, events1, events2) && done1 <= done0
      ensures EventsKept(done0, done2, events1, events2)
    {
    }

    static lemma {:induction false} NoNewEvents(done0: set<AttemptId>, done1: set<AttemptId>, events: set<AttemptId>)
      requires done1 <= done0
      ensures EventsKept(done0, done1, events, events)
    {
    }

    /** Marks the pass; tombstones and events of attempts no longer desired go. */
    method BeginPass(ids: set<AttemptId>)
      requires Valid()
      modifies this`completed, this`completionEvents, this`trace
      ensures Valid() && trace == old(trace) + [Pass(ids)] && Desired(trace) == ids
      ensures completed == old(completed) * ids && completionEvents == old(completionEvents) * ids
      ensures EventsKept(old(completed), completed, completionEvents, completionEvents)
    {
      hide Consistent, Desired, EventsKept;
      PassKeeps(trace, live, completed, ids);
      NoNewEvents(completed, completed * ids, completionEvents * ids);
      trace := trace + [Pass(ids)];
      completed := completed * ids;
      completionEvents := completionEvents * ids;
    }

    /**
     * What a connected pass without failure has done. Every desired attempt got exactly the starts
     * it was owed; those that were live are supervised, those in no table are freshly started and
     * tended; every live attempt no longer desired was stopped.
     */
    static ghost predicate Converged(desired: seq<Placement>, live0: Live, done0: set<AttemptId>, live: Live,
                                     done: set<AttemptId>, before: Trace, after: Trace, nowMs: u64)
    {
      && (forall id :: id in Ids(desired) ==> NewStarts(before, after, id) == Owed(live0, done0, id, nowMs))
      && (forall id :: id in Ids(desired) && id in live0 ==>
            Supervised(live0[id], live, done, id, before, after, nowMs))
      && (forall id :: id in Ids(desired) && id !in live0 && id !in done0 ==>
            FreshTended(desired, live, done, id, before, after, nowMs))
      && forall id :: id in live0 && id !in Ids(desired) ==> Stopped(live0[id], id, before, after)
    }

    static ghost predicate FreshTended(desired: seq<Placement>, live: Live, done: set<AttemptId>, id: AttemptId,
                                       before: Trace, after: Trace, nowMs: u64)
    {
      exists p :: p in desired && p.attemptId == id
                  && Tended(NewEntry(p, nowMs, 1), live, done, id, before, after, nowMs)
    }

    /** The pass mark, the stops, the first starts and the supervision, one after the other. */
    static lemma {:induction false} AllInTurn(desired: seq<Placement>, ids: set<AttemptId>, live0: Live,
                                              done0: set<AttemptId>, live1: Live, done1: set<AttemptId>, live2: Live,
                                              live3: Live, done3: set<AttemptId>, t0: Trace, t1: Trace, t2: Trace,
                                              t3: Trace, t4: Trace, authority: Authority, nowMs: u64)
      requires ids == Ids(desired) && live0.Keys !! done0 && t1 == t0 + [Pass(ids)]
      requires Grew(t1, t2, authority, {}) && Grew(t2, t3, authority, ids) && Grew(t3, t4, authority, live2.Keys)
      requires live1.Keys == live0.Keys * ids && forall id :: id in live1 ==> live1[id] == live0[id]
      requires forall id :: id in live0 && id !in ids ==> Stopped(live0[id], id, t1, t2)
      requires MissingStarted(desired, live1, live2, t2, t3, nowMs)
      requires done1 == done0 * ids && ids <= live2.Keys + done1 && live2.Keys <= ids && live2.Keys !! done1
      requires forall id :: id in live2 ==> Supervised(live2[id], live3, done3, id, t3, t4, nowMs)
      ensures Converged(desired, live0, done0, live3, done3, t0, t4, nowMs)
    {
      hide Grew, Stopped, MissingStarted, Supervised, Ids, NewStarts, Owed;
      GrewPrefix(t1, t2, authority, {});
      GrewPrefix(t2, t3, authority, ids);
      GrewPrefix(t3, t4, authority, live2.Keys);
      forall id | id in live0 && id !in ids ensures Stopped(live0[id], id, t0, t4) {
        StoppedWithin(live0[id], id, t0, t1, t2, t4);
      }
      forall id | id in ids
        ensures NewStarts(t0, t4, id) == Owed(live0, done0, id, nowMs)
        ensures id in live0 ==> Supervised(live0[id], live3, done3, id, t0, t4, nowMs)
        ensures id !in live0 && id !in done0 ==> FreshTended(desired, live3, done3, id, t0, t4, nowMs)
      {
        PassStarts(t0, ids, id);
        GrewStarts(t1, t2, authority, {}, id);
        NewStartsOn(t0, t1, t2, id);
        NewStartsOn(t0, t2, t3, id);
        NewStartsOn(t0, t3, t4, id);
        MissingFacts(desired, live1, live2, t2, t3, id, nowMs);
        if id !in live2 {
          GrewStarts(t3, t4, authority, live2.Keys, id);
        }
        OneInTurn(desired, live0, done0, live1, live2, live3, done3, t0, t3, t4, id, authority, nowMs);
      }
    }

    static lemma {:induction false} MissingFacts(desired: seq<Placement>, live0: Live, live: Live, before: Trace,
                                                 after: Trace, id: AttemptId, nowMs: u64)
      requires MissingStarted(desired, live0, live, before, after, nowMs)
      ensures id in live0 ==> id in live && live[id] == live0[id]
      ensures id in live && id !in live0 ==> Fresh(desired, live, id, nowMs)
      ensures NewStarts(before, after, id) == if id in live && id !in live0 then [1] else []
    {
    }

    static lemma {:induction false} OneInTurn(desired: seq<Placement>, live0: Live, done0: set<AttemptId>, live1: Live,
                                              live2: Live, live3: Live, done3: set<AttemptId>, t0: Trace, t3: Trace,
                                              t4: Trace, id: AttemptId, authority: Authority, nowMs: u64)
      requires t0 <= t3 <= t4 && (id in live0 ==> id !in done0)
      requires (id in live1 <==> id in live0) && (id in live0 ==> live1[id] == live0[id])
      requires id in live1 ==> id in live2 && live2[id] == live1[id]
      requires id in live2 && id !in live1 ==> Fresh(desired, live2, id, nowMs)
      requires id in live2 <==> id !in done0
      requires NewStarts(t0, t3, id) == if id in live2 && id !in live1 then [1] else []
      requires NewStarts(t0, t4, id) == NewStarts(t0, t3, id) + NewStarts(t3, t4, id)
      requires id in live2 ==> Supervised(live2[id], live3, done3, id, t3, t4, nowMs)
      requires id !in live2 ==> NewStarts(t3, t4, id) == []
      ensures NewStarts(t0, t4, id) == Owed(live0, done0, id, nowMs)
      ensures id in live0 ==> Supervised(live0[id], live3, done3, id, t0, t4, nowMs)
      ensures id !in live0 && id !in done0 ==> FreshTended(desired, live3, done3, id, t0, t4, nowMs)
    {
      hide NewStarts, Tended;
      NothingStarted(t4, id);
      if id in live0 {
        SupervisedWithin(live0[id], live3, live3, done3, done3, id, t0, t3, t4, t4, nowMs);
      } else if id !in done0 {
        var p :| p in desired && p.attemptId == id && id in live2 && live2[id] == NewEntry(p, nowMs, 1);
        TendedWithin(NewEntry(p, nowMs, 1), live3, live3, done3, done3, id, t0, t3, t4, t4, nowMs);
      }
    }

    static lemma {:induction false} WatchedLater(a: Trace, b: Trace, c: Trace, live: Live)
      requires a <= b && Watched(b, c, live)
      ensures Watched(a, c, live)
    {
      hide Happened;
      forall id | id in live && live[id].handle ensures Happened(a, c, Observe(id, Some(true))) {
        HappenedLater(a, b, c, Observe(id, Some(true)));
      }
    }

    static lemma {:induction false} IdsAre(desired: seq<Placement>)
      ensures Ids(desired) == set p | p in desired :: p.attemptId
    {
    }

    /** Stops every attempt that is no longer desired and leaves the others alone. */
    method StopObsolete(ids: set<AttemptId>) returns (r: Option<AgentError>)
      requires Valid()
      modifies this`live, this`trace
      ensures Valid() && Grew(old(trace), trace, authority, {})
      ensures r.None? ==> live.Keys == old(live).Keys * ids && forall id :: id in live ==> live[id] == old(live)[id]
      ensures r.None? ==> forall id :: id in old(live) && id !in ids ==> Stopped(old(live)[id], id, old(trace), trace)
    {
      hide Consistent, Grew, Tables, Stopped;
      var all := SortedLive();
      NoGrowth(trace, authority, {});
      for i := 0 to |all|
        invariant Valid() && Grew(old(trace), trace, authority, {})
        invariant forall id :: id in live ==> id in old(live) && live[id] == old(live)[id]
        invariant forall id :: id in old(live) && id in ids ==> id in live
        invariant forall j :: 0 <= j < i && all[j] !in ids ==>
                    all[j] !in live && Stopped(old(live)[all[j]], all[j], old(trace), trace)
        invariant forall j :: i <= j < |all| ==> all[j] in live
      {
        if all[i] !in ids {
          ghost var before := trace;
          r := StopAndCleanup(all[i]);
          GrewOn(old(trace), before, trace, authority, {});
          if r.Some? {
            return;
          }
          GrewPrefix(old(trace), before, authority, {});
          GrewPrefix(before, trace, authority, {});
          AlsoStopped(all, i, ids, old(live), old(trace), before, trace);
        }
      }
      assert forall id :: id in old(live) ==> id in all;
      return None;
    }

    /** A held handle was terminated and cleaned up. */
    static ghost predicate Stopped(a: LiveAttempt, id: AttemptId, before: Trace, after: Trace) {
      a.handle ==> Happened(before, after, Terminate(id)) && Happened(before, after, Cleanup(id))
    }

    static lemma {:induction false} AlsoStopped(all: seq<AttemptId>, i: nat, ids: set<AttemptId>, live0: Live, a: Trace,
                                                b: Trace, c: Trace)
      requires i < |all| && a <= b <= c && (forall id :: id in all ==> id in live0)
      requires forall j :: 0 <= j < i && all[j] !in ids ==> Stopped(live0[all[j]], all[j], a, b)
      requires live0[all[i]].handle ==> Happened(b, c, Terminate(all[i])) && Happened(b, c, Cleanup(all[i]))
      ensures forall j :: 0 <= j <= i && all[j] !in ids ==> Stopped(live0[all[j]], all[j], a, c)
    {
      hide Happened;
      forall j | 0 <= j <= i && all[j] !in ids ensures Stopped(live0[all[j]], all[j], a, c) {
        StoppedWithin(live0[all[j]], all[j], a, if j < i then a else b, if j < i then b else c, c);
      }
    }

    static lemma {:induction false} StoppedWithin(at: LiveAttempt, id: AttemptId, first: Trace, before: Trace,
                                                  after: Trace, last: Trace)
      requires Stopped(at, id, before, after) && first <= before <= after <= last
      ensures Stopped(at, id, first, last)
    {
      hide Happened;
      if at.handle {
        HappenedLater(first, before, after, Terminate(id));
        StillHappened(first, after, last, Terminate(id));
        HappenedLater(first, before, after, Cleanup(id));
        StillHappened(first, after, last, Cleanup(id));
      }
    }

    /** The attempt was just started, for the first time, under one of these placements. */
    static ghost predicate Fresh(desired: seq<Placement>, live: Live, id: AttemptId, nowMs: u64) {
      exists p :: p in desired && p.attemptId == id && id in live && live[id] == NewEntry(p, nowMs, 1)
    }

    /** Starts every desired attempt that is neither live nor completed, once, and no other. */
    method StartMissing(desired: seq<Placement>, nowMs: u64) returns (r: Option<AgentError>)
      requires Valid() && live.Keys <= Ids(desired) && Ids(desired) <= Desired(trace)
      modifies this`live, this`trace
      ensures Valid() && Grew(old(trace), trace, authority, Ids(desired))
      ensures r.None? ==> Ids(desired) <= live.Keys + completed && live.Keys <= Ids(desired)
      ensures r.None? ==> MissingStarted(desired, old(live), live, old(trace), trace, nowMs)
    {
      hide Consistent, Starts, Budget, Desired, Grew, NewEntry, NewStarts, LaunchOf, MissingStarted;
      ghost var before, live0 := trace, live;
      NoGrowth(trace, authority, Ids(desired));
      NoneMissing(desired, live, trace, nowMs);
      for i := 0 to |desired|
        invariant Valid() && Grew(before, trace, authority, Ids(desired))
        invariant live.Keys <= Ids(desired) && Ids(desired) <= Desired(trace)
        invariant forall j :: 0 <= j < i ==> desired[j].attemptId in live || desired[j].attemptId in completed
        invariant MissingStarted(desired, live0, live, before, trace, nowMs)
      {
        var p := desired[i];
        assert p in desired && p.attemptId in Ids(desired);
        if p.attemptId in live || p.attemptId in completed {
          continue;
        }
        NeverStarted(trace, live, completed, p.attemptId);
        Loosen(trace, live, completed, p.attemptId);
        ghost var sofar, liveBefore := trace, live;
        r := StartPlacement(p, nowMs, 1);
        GrewMore(sofar, trace, authority, {p.attemptId}, Ids(desired));
        GrewPrefix(before, sofar, authority, Ids(desired));
        GrewOn(before, sofar, trace, authority, Ids(desired));
        GrewDesired(sofar, trace, authority, Ids(desired));
        if r.Some? {
          return;
        }
        MissingNext(desired, live0, liveBefore, before, sofar, p, authority, nowMs);
      }
      return None;
    }

    /** Attempts that were live are as they were and not started; new ones are fresh and started once, with index one. */
    static ghost predicate MissingStarted(desired: seq<Placement>, live0: Live, live: Live, before: Trace, after: Trace,
                                          nowMs: u64)
    {
      && (forall id :: id in live0 ==> id in live && live[id] == live0[id])
      && (forall id :: id in live && id !in live0 ==> Fresh(desired, live, id, nowMs))
      && forall id :: NewStarts(before, after, id) == if id in live && id !in live0 then [1] else []
    }

    static lemma {:induction false} NoneMissing(desired: seq<Placement>, live: Live, trace: Trace, nowMs: u64)
      ensures MissingStarted(desired, live, live, trace, trace, nowMs)
    {
      hide NewStarts;
      forall id ensures NewStarts(trace, trace, id) == [] {
        NothingStarted(trace, id);
      }
    }

    static lemma {:induction false} MissingNext(desired: seq<Placement>, live0: Live, live: Live, before: Trace,
                                                mid: Trace, p: Placement, authority: Authority, nowMs: u64)
      requires MissingStarted(desired, live0, live, before, mid, nowMs) && before <= mid
      requires p in desired && p.attemptId !in live
      ensures MissingStarted(desired, live0, live[p.attemptId := NewEntry(p, nowMs, 1)], before,
                             mid + LaunchOf(p, authority, 1), nowMs)
    {
      hide NewStarts, NewEntry, LaunchOf;
      var live', after := live[p.attemptId := NewEntry(p, nowMs, 1)], mid + LaunchOf(p, authority, 1);
      forall id ensures NewStarts(before, after, id) == if id in live' && id !in live0 then [1] else [] {
        LaunchStarts(mid, p, authority, 1, id);
        NewStartsOn(before, mid, after, id);
      }
      forall id | id in live' && id !in live0 ensures Fresh(desired, live', id, nowMs) {
        if id != p.attemptId {
          var q :| q in desired && q.attemptId == id && id in live && live[id] == NewEntry(q, nowMs, 1);
          assert live'[id] == NewEntry(q, nowMs, 1);
        }
      }
    }

    static lemma {:induction false} NeverStarted(trace: Trace, live: Live, completed: set<AttemptId>, id: AttemptId)
      requires Consistent(trace, live, completed, {}) && id !in live
      ensures Starts(trace, id) == 0
    {
    }

    /** Restart, observe and check each live attempt once. */
    method SuperviseAll(nowMs: u64) returns (r: Option<AgentError>)
      requires Valid() && live.Keys <= Desired(trace) && !authority.Isolated()
      modifies this`live, this`completed, this`completionEvents, this`trace
      ensures Valid() && Grew(old(trace), trace, authority, old(live).Keys) && old(completed) <= completed
      ensures EventsKept(old(completed), completed, old(completionEvents), completionEvents)
      ensures r.None? ==> live.Keys + completed == old(live).Keys + old(completed)
      ensures r.None? ==> forall id :: id in live ==> live[id].placement.fence == authority.placementFence
      ensures r.None? ==> Watched(old(trace), trace, live)
      ensures r.None? ==>
                forall id :: id in old(live) ==> Supervised(old(live)[id], live, completed, id, old(trace), trace, nowMs)
    {
      hide Consistent, Grew, About, Happened, Desired, Tables, Supervised, SupervisedUpto, Untouched, WatchedUpto, Halfway;
      var all := SortedLive();
      ghost var before, everyone, ids := trace, live.Keys + completed, live.Keys;
      NoGrowth(trace, authority, ids);
      NoneSupervised(all, live, completed, before, authority.placementFence, nowMs);
      for i := 0 to |all|
        invariant Valid() && Grew(before, trace, authority, ids) && old(completed) <= completed
        invariant EventsKept(old(completed), completed, old(completionEvents), completionEvents)
        invariant Desired(trace) == Desired(before)
        invariant live.Keys + completed == everyone
        invariant Halfway(all, i, live, authority.placementFence) && live.Keys <= old(live).Keys
        invariant WatchedUpto(all, i, before, trace, live)
        invariant SupervisedUpto(all, i, old(live), live, completed, before, trace, nowMs)
        invariant Untouched(all, i, old(live), live, before, trace)
      {
        ghost var sofar := trace;
        StillLive(all, i, old(live), live, before, trace);
        ghost var liveBefore, doneBefore := live, completed;
        r := Supervise(all[i], nowMs);
        GrewMore(sofar, trace, authority, {all[i]}, ids);
        GrewOn(before, sofar, trace, authority, ids);
        GrewDesired(sofar, trace, authority, ids);
        if r.Some? {
          return;
        }
        SameUnion(liveBefore, live, doneBefore, completed, all[i]);
        HalfwayNext(all, i, liveBefore, live, authority.placementFence);
        GrewPrefix(before, sofar, authority, ids);
        GrewPrefix(sofar, trace, authority, ids);
        WatchedNext(all, i, before, sofar, trace, liveBefore, live);
        SupervisedNext(all, i, old(live), liveBefore, live, doneBefore, completed, before, sofar, trace, authority, nowMs);
      }
      AllWay(all, live, authority.placementFence);
      AllWatched(all, before, trace, live);
      AllSupervised(all, old(live), live, completed, before, trace, nowMs);
      return None;
    }

    static ghost predicate SupervisedUpto(all: seq<AttemptId>, i: nat, live0: Live, live: Live, done: set<AttemptId>,
                                          before: Trace, after: Trace, nowMs: u64)
    {
      forall j :: 0 <= j < i <= |all| && all[j] in live0 ==>
        Supervised(live0[all[j]], live, done, all[j], before, after, nowMs)
    }

    /** The attempts still to come are as they were, and have not been started. */
    static ghost predicate Untouched(all: seq<AttemptId>, i: nat, live0: Live, live: Live, before: Trace, after: Trace) {
      forall j :: i <= j < |all| ==>
        all[j] in live0 && all[j] in live && live[all[j]] == live0[all[j]] && NewStarts(before, after, all[j]) == []
    }

    static lemma {:induction false} NoneSupervised(all: seq<AttemptId>, live: Live, done: set<AttemptId>, before: Trace,
                                                   fence: u64, nowMs: u64)
      requires forall id :: id in all <==> id in live
      ensures SupervisedUpto(all, 0, live, live, done, before, before, nowMs) && Untouched(all, 0, live, live, before, before)
      ensures Halfway(all, 0, live, fence) && WatchedUpto(all, 0, before, before, live)
    {
      hide Supervised;
      forall id ensures NewStarts(before, before, id) == [] {
        NothingStarted(before, id);
      }
    }

    static lemma {:induction false} StillLive(all: seq<AttemptId>, i: nat, live0: Live, live: Live, before: Trace,
                                              after: Trace)
      requires i < |all| && Untouched(all, i, live0, live, before, after)
      ensures all[i] in live0 && all[i] in live && live[all[i]] == live0[all[i]]
    {
    }

    static lemma {:induction false} AllSupervised(all: seq<AttemptId>, live0: Live, live: Live, done: set<AttemptId>,
                                                  before: Trace, after: Trace, nowMs: u64)
      requires SupervisedUpto(all, |all|, live0, live, done, before, after, nowMs)
      requires forall id :: id in live0 ==> id in all
      ensures forall id :: id in live0 ==> Supervised(live0[id], live, done, id, before, after, nowMs)
    {
      hide Supervised;
    }

    static lemma {:induction false} SupervisedNext(all: seq<AttemptId>, i: nat, live0: Live, live: Live, live': Live,
                                                   done: set<AttemptId>, done': set<AttemptId>, before: Trace,
                                                   mid: Trace, after: Trace, authority: Authority, nowMs: u64)
      requires i < |all| && before <= mid && Grew(mid, after, authority, {all[i]})
      requires SupervisedUpto(all, i, live0, live, done, before, mid, nowMs)
      requires Untouched(all, i, live0, live, before, mid) && About(live, live', done, done', all[i])
      requires Supervised(live[all[i]], live', done', all[i], mid, after, nowMs)
      requires forall j, k :: 0 <= j < k < |all| ==> all[j] != all[k]
      ensures SupervisedUpto(all, i + 1, live0, live', done', before, after, nowMs)
      ensures Untouched(all, i + 1, live0, live', before, after)
    {
      hide Supervised, NewStarts, Grew;
      GrewPrefix(mid, after, authority, {all[i]});
      forall j | 0 <= j < |all|
        ensures j < i && all[j] in live0 ==> Supervised(live0[all[j]], live', done', all[j], before, after, nowMs)
        ensures j > i ==> all[j] in live' && live'[all[j]] == live0[all[j]] && NewStarts(before, after, all[j]) == []
      {
        if j != i {
          OtherKept(live, live', done, done', all[i], all[j]);
          GrewStarts(mid, after, authority, {all[i]}, all[j]);
          NothingStarted(before, all[j]);
          NewStartsOn(before, mid, after, all[j]);
          if j < i && all[j] in live0 {
            SupervisedWithin(live0[all[j]], live, live', done, done', all[j], before, before, mid, after, nowMs);
          }
        }
      }
      NothingStarted(after, all[i]);
      SupervisedWithin(live[all[i]], live', live', done', done', all[i], before, mid, after, after, nowMs);
    }

    static lemma {:induction false} OtherKept(live: Live, live': Live, done: set<AttemptId>, done': set<AttemptId>,
                                              id: AttemptId, other: AttemptId)
      requires About(live, live', done, done', id) && other != id
      ensures (other in live' <==> other in live) && (other in live ==> live'[other] == live[other])
      ensures other in done' <==> other in done
    {
      assert other in live <==> other in live - {id};
      assert other in live' <==> other in live' - {id};
      assert other in done <==> other in done - {id};
      assert other in done' <==> other in done' - {id};
    }

    /** The attempts not yet visited are live; those visited carry the fence if they still are. */
    static ghost predicate Halfway(all: seq<AttemptId>, i: nat, live: Live, fence: u64) {
      && (forall j :: i <= j < |all| ==> all[j] in live)
      && forall j :: 0 <= j < i <= |all| && all[j] in live ==> live[all[j]].placement.fence == fence
    }

    static lemma {:induction false} HalfwayNext(all: seq<AttemptId>, i: nat, live: Live, live': Live, fence: u64)
      requires i < |all| && Halfway(all, i, live, fence) && live'.Keys <= live.Keys
      requires forall x :: x != all[i] && x in live ==> x in live' && live'[x] == live[x]
      requires all[i] in live' ==> live'[all[i]].placement.fence == fence
      requires forall j, k :: 0 <= j < k < |all| ==> all[j] != all[k]
      ensures Halfway(all, i + 1, live', fence)
    {
    }

    static lemma {:induction false} AllWay(all: seq<AttemptId>, live: Live, fence: u64)
      requires Halfway(all, |all|, live, fence) && forall id :: id in live ==> id in all
      ensures forall id :: id in live ==> live[id].placement.fence == fence
    {
    }

    /** Every attempt that holds a handle was observed to run. */
    static ghost predicate Watched(before: Trace, after: Trace, live: Live) {
      forall id :: id in live && live[id].handle ==> Happened(before, after, Observe(id, Some(true)))
    }

    static ghost predicate WatchedUpto(all: seq<AttemptId>, i: nat, before: Trace, after: Trace, live: Live) {
      forall j :: 0 <= j < i <= |all| && all[j] in live && live[all[j]].handle ==> Happened(before, after, Observe(all[j], Some(true)))
    }

    static lemma {:induction false} AllWatched(all: seq<AttemptId>, before: Trace, after: Trace, live: Live)
      requires WatchedUpto(all, |all|, before, after, live) && forall id :: id in live ==> id in all
      ensures Watched(before, after, live)
    {
      hide Happened;
    }

    static lemma {:induction false} WatchedNext(all: seq<AttemptId>, i: nat, a: Trace, b: Trace, c: Trace,
                                                live: Live, live': Live)
      requires i < |all| && WatchedUpto(all, i, a, b, live) && a <= b <= c && live'.Keys <= live.Keys
      requires forall x :: x != all[i] && x in live ==> x in live' && live'[x] == live[x]
      requires all[i] in live' && live'[all[i]].handle ==> Happened(b, c, Observe(all[i], Some(true)))
      requires forall j, k :: 0 <= j < k < |all| ==> all[j] != all[k]
      ensures WatchedUpto(all, i + 1, a, c, live')
    {
      hide Happened;
      forall j | 0 <= j <= i && all[j] in live' && live'[all[j]].handle ensures Happened(a, c, Observe(all[j], Some(true))) {
        if j < i {
          StillHappened(a, b, c, Observe(all[j], Some(true)));
        } else {
          HappenedLater(a, b, c, Observe(all[j], Some(true)));
        }
      }
    }

    static lemma {:induction false} SameUnion(live: Live, live': Live, done: set<AttemptId>, done': set<AttemptId>,
                                              id: AttemptId)
      requires About(live, live', done, done', id) && id in live
      ensures live.Keys + done == live'.Keys + done' && live'.Keys <= live.Keys
      ensures forall x :: x != id && x in live ==> x in live' && live'[x] == live[x]
    {
      forall x ensures x != id ==> (x in live <==> x in live') && (x in live ==> live'[x] == live[x]) {
        assert x != id ==> (x in live <==> x in live - {id}) && (x in live' <==> x in live' - {id});
        assert x != id && x in live ==> (live - {id})[x] == live[x] && (live' - {id})[x] == live'[x];
      }
      forall x ensures x != id ==> (x in done <==> x in done') {
        assert x != id ==> (x in done <==> x in done - {id}) && (x in done' <==> x in done' - {id});
      }
    }

    method Supervise(id: AttemptId, nowMs: u64) returns (r: Option<AgentError>)
      requires Valid() && id in live && id in Desired(trace) && !authority.Isolated()
      modifies this`live, this`completed, this`completionEvents, this`trace
      ensures Valid() && Grew(old(trace), trace, authority, {id}) && old(completed) <= completed
      ensures EventsKept(old(completed), completed, old(completionEvents), completionEvents)
      ensures r.None? ==> About(old(live), live, old(completed), completed, id)
      ensures r.None? && id in live ==> live[id].placement.fence == authority.placementFence
      ensures r.None? && id in live && live[id].handle ==> Happened(old(trace), trace, Observe(id, Some(true)))
      ensures r.None? ==> Supervised(old(live)[id], live, completed, id, old(trace), trace, nowMs)
    {
      hide Consistent, Grew, About, Happened, Desired, Supervised, Tended, Exited, Checked, Lost, NewStarts, Indices, LaunchOf,
        NewEntry, IsDue;
      ghost var live0, done0, trace0 := live, completed, trace;
      HandleMeansRunning(trace, live, completed, id);
      r := MaybeRestart(id, nowMs);
      if r.Some? {
        return;
      }
      ghost var live1, trace1 := live, trace;
      HandleMeansRunning(trace, live, completed, id);
      r := ObserveOne(id, nowMs);
      GrewMore(trace1, trace, authority, {}, {id});
      GrewOn(trace0, trace1, trace, authority, {id});
      if r.Some? {
        return;
      }
      ghost var live2, done2, trace2 := live, completed, trace;
      SamePlacement(live0, live1, live2, done0, done0, done2, id);
      AboutBoth(live0, live1, live2, done0, done0, done2, id);
      r := TickChecks(id, nowMs);
      GrewMore(trace2, trace, authority, {}, {id});
      GrewOn(trace0, trace2, trace, authority, {id});
      GrewPrefix(trace0, trace1, authority, {id});
      GrewPrefix(trace1, trace2, authority, {});
      GrewPrefix(trace2, trace, authority, {});
      if id in live2 && live2[id].handle {
        HappenedLater(trace0, trace1, trace2, Observe(id, Some(true)));
        StillHappened(trace0, trace2, trace, Observe(id, Some(true)));
      }
      SamePlacement(live1, live2, live, done0, done2, completed, id);
      AboutBoth(live0, live2, live, done0, done2, completed, id);
      if r.None? {
        StartsInTurn(live0[id], id, trace0, trace1, trace2, trace, authority, nowMs);
        BegunIs(live0[id], live1[id], nowMs);
        InTurn(live1[id], live1, live2, live, done0, done2, completed, id, trace0, trace1, trace2, trace, nowMs);
        assert Supervised(live0[id], live, completed, id, trace0, trace, nowMs) by {
          SupervisedIs(live0[id], live, completed, id, trace0, trace, nowMs);
        }
      }
    }

    static lemma {:induction false} SupervisedIs(a: LiveAttempt, live: Live, done: set<AttemptId>, id: AttemptId,
                                                 before: Trace, after: Trace, nowMs: u64)
      requires NewStarts(before, after, id) == (if IsDue(a, nowMs) then [a.attemptIndex] else [])
      requires Tended(Begun(a, nowMs), live, done, id, before, after, nowMs)
      ensures Supervised(a, live, done, id, before, after, nowMs)
    {
      hide Tended, NewStarts;
    }

    static lemma {:induction false} BegunIs(a: LiveAttempt, b: LiveAttempt, nowMs: u64)
      requires b == if IsDue(a, nowMs) then NewEntry(a.placement, nowMs, a.attemptIndex) else a
      ensures b == Begun(a, nowMs)
    {
    }

    /** Restart, observation and checks: only the first starts anything. */
    static lemma {:induction false} StartsInTurn(a: LiveAttempt, id: AttemptId, t0: Trace, t1: Trace, t2: Trace,
                                                 t3: Trace, authority: Authority, nowMs: u64)
      requires a.placement.attemptId == id && t0 <= t1
      requires t1 == if IsDue(a, nowMs) then t0 + LaunchOf(a.placement, authority, a.attemptIndex) else t0
      requires Grew(t1, t2, authority, {}) && Grew(t2, t3, authority, {})
      ensures NewStarts(t0, t3, id) == if IsDue(a, nowMs) then [a.attemptIndex] else []
    {
      hide NewStarts, IsDue, LaunchOf;
      LaunchStarts(t0, a.placement, authority, a.attemptIndex, id);
      NothingStarted(t0, id);
      GrewStarts(t1, t2, authority, {}, id);
      GrewStarts(t2, t3, authority, {}, id);
      NewStartsOn(t0, t1, t2, id);
      NewStartsOn(t0, t2, t3, id);
    }

    /** Observed and then checked. */
    static lemma {:induction false} InTurn(a: LiveAttempt, live1: Live, live2: Live, live3: Live, done1: set<AttemptId>,
                                           done2: set<AttemptId>, done3: set<AttemptId>, id: AttemptId, t0: Trace,
                                           t1: Trace, t2: Trace, t3: Trace, nowMs: u64)
      requires id in live1 && live1[id] == a && t0 <= t1 <= t2 <= t3 && (a.handle <==> a.phase.Running?)
      requires a.phase.AwaitingRestart? || a.phase.PermanentFailure? ==> live2 == live1
      requires SucceededUnseen(a) ==> id in done2
      requires a.phase.Running? ==>
                 || (Happened(t1, t2, Observe(id, Some(true))) && live2 == live1)
                 || (Happened(t1, t2, Observe(id, Some(false))) && Exited(a, live2, done2, id, false, nowMs))
      requires id !in live2 ==> live3 == live2 && done3 == done2
      requires id in live2 && !live2[id].phase.Running? ==> live3 == live2 && done3 == done2
      requires id in live2 && live2[id].phase.Running? ==>
                 && id in live3 && done3 == done2
                 && (Checked(live2[id], live3[id], nowMs)
                     || (Lost(live2[id], live3[id], id, false, nowMs)
                         && (live2[id].handle ==> Happened(t2, t3, Kill(id)))))
      ensures Tended(a, live3, done3, id, t0, t3, nowMs)
    {
      hide Happened, Checked, Lost, Ended;
      forall e | Happened(t1, t2, e) ensures Happened(t0, t3, e) {
        HappenedLater(t0, t1, t2, e);
        StillHappened(t0, t2, t3, e);
      }
      forall e | Happened(t2, t3, e) ensures Happened(t0, t3, e) {
        HappenedLater(t0, t2, t3, e);
      }
      if a.phase.Running? && Exited(a, live2, done2, id, false, nowMs) {
        var exit :| ExitedWith(a, live2, done2, id, exit, false, nowMs);
        if id in live2 {
          EndedIsOver(a, live2[id], id, exit, false, nowMs);
        }
      }
    }

    static lemma {:induction false} EndedIsOver(a: LiveAttempt, b: LiveAttempt, id: AttemptId, exit: Option<int>,
                                                isolated: bool, nowMs: u64)
      requires Ended(a, b, id, exit, isolated, nowMs)
      ensures !b.phase.Running?
    {
      hide RetryPolicy.BackoffMs;
    }

    static lemma {:induction false} SamePlacement(live0: Live, live1: Live, live2: Live, done0: set<AttemptId>,
                                                  done1: set<AttemptId>, done2: set<AttemptId>, id: AttemptId)
      requires About(live0, live1, done0, done1, id) && About(live1, live2, done1, done2, id)
      requires id in live0 && (id in live1 || live2 == live1)
      ensures id in live1 || id in done1
      ensures id in live1 ==> live1[id].placement == live0[id].placement
      ensures id in live2 ==> live2[id].placement == live0[id].placement
      ensures done0 <= done1 <= done2
    {
    }
  }
}
