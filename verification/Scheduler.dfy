/** Resource vectors, hard filters and scores (crates/gump-scheduler/src/{capability,filter,score}.rs). */
module Resources {
  import opened Machine

  /** 128-bit identifiers; their hyphenated text orders as the numbers do. */
  type NodeId = nat
  type UnitId = nat

  datatype NodeResources = NodeResources(millicores: u32, memoryBytes: u64, gpuDevices: u32, ports: u32) {
    function SaturatingSub(used: NodeResources): NodeResources {
      NodeResources(SatSub(millicores, used.millicores), SatSub(memoryBytes, used.memoryBytes),
                    SatSub(gpuDevices, used.gpuDevices), SatSub(ports, used.ports))
    }

    function SaturatingAdd(other: NodeResources): NodeResources {
      NodeResources(SatAdd(millicores, other.millicores, U32_MAX), SatAdd(memoryBytes, other.memoryBytes, U64_MAX),
                    SatAdd(gpuDevices, other.gpuDevices, U32_MAX), SatAdd(ports, other.ports, U32_MAX))
    }

    predicate Within(limit: NodeResources) {
      && millicores <= limit.millicores
      && memoryBytes <= limit.memoryBytes
      && gpuDevices <= limit.gpuDevices
      && ports <= limit.ports
    }
  }

  const NONE: NodeResources := NodeResources(0, 0, 0, 0)

  /** A fifth on top, rounded up, and at least one for a non-zero request. */
  function Headroom(x: nat): nat {
    Max((x + 4) / 5, if x > 0 then 1 else 0)
  }

  function WithHeadroom(request: NodeResources): NodeResources {
    NodeResources(SatAdd(request.millicores, Headroom(request.millicores), U32_MAX),
                  SatAdd(request.memoryBytes, Headroom(request.memoryBytes), U64_MAX),
                  request.gpuDevices, request.ports)
  }

  /**
   * `need` is six fifths of the request, the fifth rounded up, or as much of that as the type
   * holds. No other number is.
   */
  ghost predicate SixFifths(request: nat, need: nat, max: nat) {
    && request <= need <= max
    && 5 * (need - request) < request + 5
    && (need < max ==> 5 * (need - request) >= request && (request > 0 ==> need > request))
  }

  ghost predicate Padded(request: NodeResources, need: NodeResources) {
    && SixFifths(request.millicores, need.millicores, U32_MAX)
    && SixFifths(request.memoryBytes, need.memoryBytes, U64_MAX)
    && need.gpuDevices == request.gpuDevices && need.ports == request.ports
  }

  lemma {:induction false} SixFifthsUnique(request: nat, a: nat, b: nat, max: nat)
    requires SixFifths(request, a, max) && SixFifths(request, b, max)
    ensures a == b
  {
  }

  lemma {:induction false} FifthOnTop(request: nat, max: nat)
    requires request <= max
    ensures SixFifths(request, SatAdd(request, Headroom(request), max), max)
  {
    var fifth := (request + 4) / 5;
    assert 5 * fifth <= request + 4 < 5 * fifth + 5;
  }

  /** What is asked of a node is the request and a fifth on top of millicores and memory, exactly. */
  lemma {:induction false} HeadroomIsAFifth(request: NodeResources, need: NodeResources)
    ensures WithHeadroom(request) == need <==> Padded(request, need)
  {
    hide Headroom, SixFifths;
    var padded := WithHeadroom(request);
    FifthOnTop(request.millicores, U32_MAX);
    FifthOnTop(request.memoryBytes, U64_MAX);
    if Padded(request, need) {
      SixFifthsUnique(request.millicores, need.millicores, padded.millicores, U32_MAX);
      SixFifthsUnique(request.memoryBytes, need.memoryBytes, padded.memoryBytes, U64_MAX);
    }
  }

  datatype ProtectionLevel = Enforced | Observed | Unavailable

  datatype CapabilityReport = CapabilityReport(
    nodeId: NodeId, revision: u64, placementFence: u64, arch: string, drivers: seq<string>,
    capabilities: map<string, ProtectionLevel>, allocatable: NodeResources, drained: bool)

  datatype Requirements = Requirements(
    unitId: UnitId, arch: string, driver: string, requiredEnforced: seq<string>, request: NodeResources,
    requiresPort: bool)

  /** Machine-readable explanations. */
  datatype Reason =
    | NodeDrained
    | ArchMismatch
    | DriverMissing
    | CapabilityMissing(name: string)
    | CapabilityNotEnforced(name: string, level: ProtectionLevel)
    | Millicores(free: nat)
    | Memory(free: nat)
    | Gpu(free: nat)
    | PortRequired(free: nat)
    | NoCandidate
    | UnitAlreadyReserved
    | ReservationCeiling(max: nat)
    | NodeCeiling(max: nat)
    | CapacityChanged(free: nat)

  // ---- Hard filter --------------------------------------------------------

  predicate EnforcedOn(report: CapabilityReport, name: string) {
    name in report.capabilities && report.capabilities[name] == Enforced
  }

  /** Every hard requirement is met. */
  predicate Feasible(req: Requirements, report: CapabilityReport, free: NodeResources) {
    var need := WithHeadroom(req.request);
    && !report.drained
    && report.arch == req.arch
    && req.driver in report.drivers
    && (forall name :: name in req.requiredEnforced ==> EnforcedOn(report, name))
    && need.millicores <= free.millicores
    && need.memoryBytes <= free.memoryBytes
    && need.gpuDevices <= free.gpuDevices
    && (req.requiresPort ==> free.ports >= 1)
  }

  function When(failed: bool, reason: Reason): seq<Reason> {
    if failed then [reason] else []
  }

  function CapabilityFailure(report: CapabilityReport, name: string): seq<Reason> {
    if name !in report.capabilities then [CapabilityMissing(name)]
    else if report.capabilities[name] != Enforced then [CapabilityNotEnforced(name, report.capabilities[name])]
    else []
  }

  function CapabilityFailures(report: CapabilityReport, names: seq<string>): seq<Reason> {
    if names == [] then []
    else CapabilityFailures(report, names[..|names| - 1]) + CapabilityFailure(report, names[|names| - 1])
  }

  function IdentityFailures(req: Requirements, report: CapabilityReport): seq<Reason> {
    When(report.drained, NodeDrained)
    + When(report.arch != req.arch, ArchMismatch)
    + When(req.driver !in report.drivers, DriverMissing)
  }

  function CapacityFailures(req: Requirements, free: NodeResources): seq<Reason> {
    var need := WithHeadroom(req.request);
    When(free.millicores < need.millicores, Millicores(free.millicores))
    + When(free.memoryBytes < need.memoryBytes, Memory(free.memoryBytes))
    + When(free.gpuDevices < need.gpuDevices, Gpu(free.gpuDevices))
    + When(req.requiresPort && free.ports < 1, PortRequired(free.ports))
  }

  /** Every failed requirement, in the order they are examined. */
  function Failures(req: Requirements, report: CapabilityReport, free: NodeResources): seq<Reason> {
    IdentityFailures(req, report) + CapabilityFailures(report, req.requiredEnforced) + CapacityFailures(req, free)
  }

  method HardFilter(req: Requirements, report: CapabilityReport, free: NodeResources) returns (reasons: seq<Reason>)
    ensures reasons == Failures(req, report, free)
  {
    reasons := CheckIdentity(req, report);
    ghost var identity := reasons;
    for i := 0 to |req.requiredEnforced|
      invariant reasons == identity + CapabilityFailures(report, req.requiredEnforced[..i])
    {
      hide CapabilityFailures;
      var name := req.requiredEnforced[i];
      CapabilityNext(report, req.requiredEnforced, i);
      if name !in report.capabilities {
        reasons := reasons + [CapabilityMissing(name)];
      } else if report.capabilities[name] != Enforced {
        reasons := reasons + [CapabilityNotEnforced(name, report.capabilities[name])];
      }
    }
    assert req.requiredEnforced[..|req.requiredEnforced|] == req.requiredEnforced;
    reasons := CheckCapacity(req, free, reasons);
  }

  method CheckIdentity(req: Requirements, report: CapabilityReport) returns (reasons: seq<Reason>)
    ensures reasons == IdentityFailures(req, report)
  {
    reasons := [];
    if report.drained {
      reasons := reasons + [NodeDrained];
    }
    if report.arch != req.arch {
      reasons := reasons + [ArchMismatch];
    }
    if req.driver !in report.drivers {
      reasons := reasons + [DriverMissing];
    }
  }

  method CheckCapacity(req: Requirements, free: NodeResources, prior: seq<Reason>) returns (reasons: seq<Reason>)
    ensures reasons == prior + CapacityFailures(req, free)
  {
    hide WithHeadroom;
    reasons := prior;
    var need := WithHeadroom(req.request);
    if free.millicores < need.millicores {
      reasons := reasons + [Millicores(free.millicores)];
    }
    if free.memoryBytes < need.memoryBytes {
      reasons := reasons + [Memory(free.memoryBytes)];
    }
    if free.gpuDevices < need.gpuDevices {
      reasons := reasons + [Gpu(free.gpuDevices)];
    }
    if req.requiresPort && free.ports < 1 {
      reasons := reasons + [PortRequired(free.ports)];
    }
  }

  lemma {:induction false} CapabilityNext(report: CapabilityReport, names: seq<string>, i: nat)
    requires i < |names|
    ensures CapabilityFailures(report, names[..i + 1])
         == CapabilityFailures(report, names[..i]) + CapabilityFailure(report, names[i])
  {
    assert names[..i + 1][..i] == names[..i];
  }

  /** A capability reason is listed exactly for the required names that are absent or not enforced. */
  lemma {:induction false} CapabilityFailuresComplete(report: CapabilityReport, names: seq<string>, r: Reason)
    ensures r in CapabilityFailures(report, names)
            <==> (r.CapabilityMissing? || r.CapabilityNotEnforced?) && r.name in names
                 && r in CapabilityFailure(report, r.name)
  {
    if names != [] {
      var front, last := names[..|names| - 1], names[|names| - 1];
      CapabilityFailuresComplete(report, front, r);
      assert names == front + [last];
    }
  }

  lemma {:induction false} NoCapabilityFailures(report: CapabilityReport, names: seq<string>)
    ensures CapabilityFailures(report, names) == [] <==> forall name :: name in names ==> EnforcedOn(report, name)
  {
    if names != [] {
      var front, last := names[..|names| - 1], names[|names| - 1];
      NoCapabilityFailures(report, front);
      assert names == front + [last];
      assert last in names;
      assert forall name :: name in names <==> name in front || name == last;
    }
  }

  /** The list is empty exactly when the node is feasible. */
  lemma {:induction false} FailuresIffInfeasible(req: Requirements, report: CapabilityReport, free: NodeResources)
    ensures Failures(req, report, free) == [] <==> Feasible(req, report, free)
  {
    hide WithHeadroom;
    NoCapabilityFailures(report, req.requiredEnforced);
  }

  /** A node with exactly the bare request free is refused, and told which resource is short. */
  lemma {:induction false} BareRequestRefused(req: Requirements, report: CapabilityReport, free: NodeResources)
    ensures 0 < free.millicores == req.request.millicores < U32_MAX ==>
              !Feasible(req, report, free) && Millicores(free.millicores) in Failures(req, report, free)
    ensures 0 < free.memoryBytes == req.request.memoryBytes < U64_MAX ==>
              !Feasible(req, report, free) && Memory(free.memoryBytes) in Failures(req, report, free)
  {
    hide WithHeadroom, IdentityFailures, CapabilityFailures;
    HeadroomIsAFifth(req.request, WithHeadroom(req.request));
    CapacityComplete(req, free, Millicores(free.millicores));
    CapacityComplete(req, free, Memory(free.memoryBytes));
  }

  /** Six fifths of what is asked are free on every feasible node, unless the type holds no more. */
  lemma {:induction false} FeasibleHasHeadroom(req: Requirements, report: CapabilityReport, free: NodeResources)
    requires Feasible(req, report, free)
    ensures 5 * free.millicores >= 6 * req.request.millicores || free.millicores == U32_MAX
    ensures 5 * free.memoryBytes >= 6 * req.request.memoryBytes || free.memoryBytes == U64_MAX
    ensures free.gpuDevices >= req.request.gpuDevices
  {
    hide WithHeadroom, EnforcedOn;
    HeadroomIsAFifth(req.request, WithHeadroom(req.request));
  }

  /** What a single reason claims about the node. */
  ghost predicate Justified(req: Requirements, report: CapabilityReport, free: NodeResources, r: Reason) {
    var need := WithHeadroom(req.request);
    match r
    case NodeDrained => report.drained
    case ArchMismatch => report.arch != req.arch
    case DriverMissing => req.driver !in report.drivers
    case CapabilityMissing(name) => name in req.requiredEnforced && name !in report.capabilities
    case CapabilityNotEnforced(name, level) =>
      name in req.requiredEnforced && name in report.capabilities && report.capabilities[name] == level != Enforced
    case Millicores(n) => n == free.millicores < need.millicores
    case Memory(n) => n == free.memoryBytes < need.memoryBytes
    case Gpu(n) => n == free.gpuDevices < need.gpuDevices
    case PortRequired(n) => req.requiresPort && n == free.ports < 1
    case _ => false
  }

  /** Exactly the justified reasons are listed: nothing is left out and nothing is invented. */
  lemma {:induction false} FailuresComplete(req: Requirements, report: CapabilityReport, free: NodeResources, r: Reason)
    ensures r in Failures(req, report, free) <==> Justified(req, report, free, r)
  {
    hide WithHeadroom, CapabilityFailures, IdentityFailures, CapacityFailures;
    IdentityComplete(req, report, r);
    CapacityComplete(req, free, r);
    CapabilityFailuresComplete(report, req.requiredEnforced, r);
  }

  lemma {:induction false} IdentityComplete(req: Requirements, report: CapabilityReport, r: Reason)
    ensures r in IdentityFailures(req, report)
            <==> (r.NodeDrained? && report.drained) || (r.ArchMismatch? && report.arch != req.arch)
                 || (r.DriverMissing? && req.driver !in report.drivers)
  {
  }

  lemma {:induction false} CapacityComplete(req: Requirements, free: NodeResources, r: Reason)
    ensures var need := WithHeadroom(req.request);
            r in CapacityFailures(req, free)
            <==> (r == Millicores(free.millicores) && free.millicores < need.millicores)
                 || (r == Memory(free.memoryBytes) && free.memoryBytes < need.memoryBytes)
                 || (r == Gpu(free.gpuDevices) && free.gpuDevices < need.gpuDevices)
                 || (r == PortRequired(free.ports) && req.requiresPort && free.ports < 1)
  {
    hide WithHeadroom;
  }

  // ---- Score --------------------------------------------------------------

  const I64_MAX: nat := 0x7FFF_FFFF_FFFF_FFFF

  /** Residual headroom packed into one number: millicores, MiB of memory, a thousand per GPU. */
  function Score(free: NodeResources, request: NodeResources): nat {
    var left := free.SaturatingSub(WithHeadroom(request));
    SatAdd(SatAdd(left.millicores, left.memoryBytes / 0x10_0000, I64_MAX), left.gpuDevices * 1000, I64_MAX)
  }

  /** For a feasible node no saturation fires: the score is what is left, exactly. */
  lemma {:induction false} ScoreExact(req: Requirements, report: CapabilityReport, free: NodeResources)
    requires Feasible(req, report, free)
    ensures var need := WithHeadroom(req.request);
            Score(free, req.request)
            == free.millicores - need.millicores + (free.memoryBytes - need.memoryBytes) / 0x10_0000
               + (free.gpuDevices - need.gpuDevices) * 1000
  {
    hide WithHeadroom;
    var need := WithHeadroom(req.request);
    assert (free.memoryBytes - need.memoryBytes) / 0x10_0000 <= U64_MAX / 0x10_0000;
  }
}
