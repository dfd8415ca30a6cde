/** Retry policy and health counters (crates/gump-agent/src/lifecycle.rs). */
module Lifecycle {
  import opened Machine

  // ---- Retry --------------------------------------------------------------

  datatype RetryPolicy = RetryPolicy(maxAttempts: u32, initialBackoffMs: u64, maxBackoffMs: u64, jitterPct: u32) {
    predicate Enabled() {
      maxAttempts > 0
    }

    /** The exponential part, doubled at most sixteen times and capped. */
    function Base(attemptIndex: u32): (base: u64)
      requires attemptIndex > 0
      ensures base <= maxBackoffMs
    {
      var doublings := Min(attemptIndex - 1, 16);
      Min(Min(Doubled(initialBackoffMs, doublings), U64_MAX), maxBackoffMs)
    }

    function Span(base: u64): u64 {
      Min(base * jitterPct, U64_MAX) / 100
    }

    function BackoffMs(attemptIndex: u32, seed: u64): u64 {
      if attemptIndex == 0 then 0
      else
        var base := Base(attemptIndex);
        if jitterPct == 0 then base
        else
          var span := Span(base);
          var jitter := if span == 0 then 0 else seed % SatAdd(span, 1, U64_MAX);
          SatAdd(SatSub(base, span / 2), jitter, U64_MAX)
    }
  }

  function Doubled(x: nat, times: nat): nat {
    if times == 0 then x else 2 * Doubled(x, times - 1)
  }

  lemma {:induction false} DoubledMonotone(x: nat, a: nat, b: nat)
    requires a <= b
    ensures Doubled(x, a) <= Doubled(x, b)
  {
    if a < b {
      DoubledMonotone(x, a, b - 1);
    }
  }

  /** Later retries never have a smaller exponential part. */
  lemma {:induction false} BaseMonotone(policy: RetryPolicy, i: u32, j: u32)
    requires 0 < i <= j
    ensures policy.Base(i) <= policy.Base(j)
  {
    DoubledMonotone(policy.initialBackoffMs, Min(i - 1, 16), Min(j - 1, 16));
  }

  /** Jitter moves the wait by at most half its span down and, rounding included, half up. */
  lemma {:induction false} BackoffNearBase(policy: RetryPolicy, i: u32, seed: u64)
    requires i > 0
    ensures var base := policy.Base(i);
            var span := policy.Span(base);
            SatSub(base, span / 2) <= policy.BackoffMs(i, seed) <= SatAdd(SatSub(base, span / 2), span, U64_MAX)
    ensures policy.jitterPct == 0 ==> policy.BackoffMs(i, seed) == policy.Base(i)
    ensures var span := policy.Span(policy.Base(i));
            policy.jitterPct > 0 && span < U64_MAX ==>
              policy.BackoffMs(i, seed) == Min(SatSub(policy.Base(i), span / 2) + seed % (span + 1), U64_MAX)
  {
    hide RetryPolicy.Base, RetryPolicy.Span;
  }

  /** The exponential part starts at the initial wait, doubles with each try up to the seventeenth, and is capped. */
  lemma {:induction false} BaseDoubles(policy: RetryPolicy, i: u32)
    requires 0 < i < U32_MAX
    ensures policy.Base(1) == Min(policy.initialBackoffMs, policy.maxBackoffMs)
    ensures policy.Base(i + 1) == if i <= 16 then Min(2 * policy.Base(i), policy.maxBackoffMs) else policy.Base(i)
  {
  }

  /** The span is the given percentage of the exponential part, rounded down, unless the product saturates. */
  lemma {:induction false} SpanIsPercentage(policy: RetryPolicy, base: u64)
    requires base * policy.jitterPct <= U64_MAX
    ensures 100 * policy.Span(base) <= base * policy.jitterPct < 100 * policy.Span(base) + 100
  {
  }

  // ---- Health counters ----------------------------------------------------

  datatype CheckSpec = CheckSpec(intervalMs: u64, initialDelayMs: u64, successThreshold: u32, failureThreshold: u32) {
    function Needed(): (n: u32)
      ensures n > 0
    {
      Max(successThreshold, 1)
    }

    function Tolerated(): (n: u32)
      ensures n > 0
    {
      Max(failureThreshold, 1)
    }
  }

  datatype CheckRuntime = CheckRuntime(consecutiveSuccess: u32, consecutiveFailure: u32, lastRunMs: u64, passed: bool) {
    function Record(ok: bool, spec: CheckSpec): CheckRuntime {
      if ok then
        var n := SatAdd(consecutiveSuccess, 1, U32_MAX);
        CheckRuntime(n, 0, lastRunMs, passed || n >= spec.Needed())
      else
        var n := SatAdd(consecutiveFailure, 1, U32_MAX);
        CheckRuntime(0, n, lastRunMs, passed && n < spec.Tolerated())
    }

    predicate Due(nowMs: u64, startedMs: u64, spec: CheckSpec) {
      SatSub(nowMs, startedMs) >= spec.initialDelayMs && SatSub(nowMs, lastRunMs) >= spec.intervalMs
    }
  }

  /** The wait has passed; no wait at all always has. */
  ghost predicate Waited(nowMs: nat, since: nat, wait: nat) {
    wait == 0 || since + wait <= nowMs
  }

  /** A check runs once its delay after the start and its interval after the last run have passed. */
  lemma {:induction false} DueIff(check: CheckRuntime, nowMs: u64, startedMs: u64, spec: CheckSpec)
    ensures check.Due(nowMs, startedMs, spec)
            <==> Waited(nowMs, startedMs, spec.initialDelayMs) && Waited(nowMs, check.lastRunMs, spec.intervalMs)
  {
  }

  const FRESH: CheckRuntime := CheckRuntime(0, 0, 0, false)

  function After(outcomes: seq<bool>, spec: CheckSpec): CheckRuntime {
    if outcomes == [] then FRESH
    else After(outcomes[..|outcomes| - 1], spec).Record(outcomes[|outcomes| - 1], spec)
  }

  /** How many outcomes at the end are all `b`. */
  ghost function TrailingRun(outcomes: seq<bool>, b: bool): nat {
    if outcomes == [] || outcomes[|outcomes| - 1] != b then 0 else TrailingRun(outcomes[..|outcomes| - 1], b) + 1
  }

  /** After `i` outcomes a success run is long enough, and no failure run is after that. */
  ghost predicate PassedSince(outcomes: seq<bool>, spec: CheckSpec, i: nat) {
    && i <= |outcomes|
    && TrailingRun(outcomes[..i], true) >= spec.Needed()
    && forall j :: i < j <= |outcomes| ==> TrailingRun(outcomes[..j], false) < spec.Tolerated()
  }

  lemma {:induction false} CountersAreRuns(outcomes: seq<bool>, spec: CheckSpec)
    ensures After(outcomes, spec).consecutiveSuccess == Min(TrailingRun(outcomes, true), U32_MAX)
    ensures After(outcomes, spec).consecutiveFailure == Min(TrailingRun(outcomes, false), U32_MAX)
  {
    if outcomes != [] {
      CountersAreRuns(outcomes[..|outcomes| - 1], spec);
    }
  }

  /** The incremental flag says exactly this about the whole history, saturation or not. */
  lemma {:induction false} PassedIffHistory(outcomes: seq<bool>, spec: CheckSpec)
    ensures After(outcomes, spec).passed <==> exists i :: PassedSince(outcomes, spec, i)
  {
    hide PassedSince, TrailingRun;
    var n := |outcomes|;
    assert outcomes[..n] == outcomes;
    if n == 0 {
      forall i: nat ensures !PassedSince(outcomes, spec, i) {
        NeverAtStart(outcomes, spec, i);
      }
    } else {
      var front, last := outcomes[..n - 1], outcomes[n - 1];
      PassedIffHistory(front, spec);
      CountersAreRuns(outcomes, spec);
      forall i: nat
        ensures PassedSince(outcomes, spec, i)
                <==> if i == n then last && TrailingRun(outcomes, true) >= spec.Needed()
                     else PassedSince(front, spec, i) && (last || TrailingRun(outcomes, false) < spec.Tolerated())
      {
        PassedSinceNext(outcomes, spec, i);
      }
      if last && TrailingRun(outcomes, true) >= spec.Needed() {
        assert PassedSince(outcomes, spec, n);
      }
      if After(front, spec).passed {
        var i :| PassedSince(front, spec, i);
        WithinBounds(front, spec, i);
        assert PassedSince(outcomes, spec, i)
               <==> last || TrailingRun(outcomes, false) < spec.Tolerated();
      }
    }
  }

  lemma {:induction false} NeverAtStart(outcomes: seq<bool>, spec: CheckSpec, i: nat)
    requires outcomes == []
    ensures !PassedSince(outcomes, spec, i)
  {
  }

  lemma {:induction false} WithinBounds(outcomes: seq<bool>, spec: CheckSpec, i: nat)
    requires PassedSince(outcomes, spec, i)
    ensures i <= |outcomes|
  {
  }

  lemma {:induction false} PassedSinceNext(outcomes: seq<bool>, spec: CheckSpec, i: nat)
    requires outcomes != []
    ensures var n := |outcomes|;
            PassedSince(outcomes, spec, i)
            <==> if i == n then outcomes[n - 1] && TrailingRun(outcomes, true) >= spec.Needed()
                 else PassedSince(outcomes[..n - 1], spec, i)
                      && (outcomes[n - 1] || TrailingRun(outcomes, false) < spec.Tolerated())
  {
    var n := |outcomes|;
    var front := outcomes[..n - 1];
    assert outcomes[..n] == outcomes;
    assert forall j :: 0 <= j < n ==> front[..j] == outcomes[..j];
  }
}
