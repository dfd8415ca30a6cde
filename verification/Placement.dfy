/** Filter, score, reserve (crates/gump-scheduler/src/place.rs). */
module Placement {
  import opened Machine
  import opened Ordered
  import opened Resources
  import opened LedgerSpec
  import opened Ledger

  datatype Row = Row(nodeId: NodeId, feasible: bool, reasons: seq<Reason>, score: Option<nat>)

  datatype Outcome =
    | Scheduled(reservation: Reservation, score: nat, matrix: seq<Row>)
    | Unschedulable(matrix: seq<Row>, summary: Reason)

  type Reports = map<NodeId, CapabilityReport>

  /** A workload that needs a port asks for one even if it did not say how many. */
  function Normalized(req: Requirements): Requirements {
    if req.requiresPort && req.request.ports == 0 then req.(request := req.request.(ports := 1)) else req
  }

  // ---- What the choice should be ------------------------------------------

  type Free = map<NodeId, NodeResources>

  /** The nodes that pass every hard filter. */
  ghost function Candidates(reports: Reports, free: Free, req: Requirements): set<NodeId>
    requires reports.Keys <= free.Keys
  {
    set n | n in reports && Feasible(req, reports[n], free[n])
  }

  /** Better score first, then smaller id. */
  ghost predicate Preferred(free: Free, req: Requirements, a: NodeId, b: NodeId)
    requires a in free && b in free
  {
    Score(free[a], req.request) > Score(free[b], req.request)
    || (Score(free[a], req.request) == Score(free[b], req.request) && a <= b)
  }

  /** A candidate no other candidate beats. Nothing here depends on an order of examination. */
  ghost predicate IsBest(reports: Reports, free: Free, req: Requirements, n: NodeId)
    requires reports.Keys <= free.Keys
  {
    n in Candidates(reports, free, req)
    && forall m :: m in Candidates(reports, free, req) ==> Preferred(free, req, n, m)
  }

  lemma {:induction false} BestUnique(reports: Reports, free: Free, req: Requirements, a: NodeId, b: NodeId)
    requires reports.Keys <= free.Keys
    requires IsBest(reports, free, req, a) && IsBest(reports, free, req, b)
    ensures a == b
  {
    hide Score, Feasible;
    assert Preferred(free, req, a, b) && Preferred(free, req, b, a);
  }

  function RowOf(n: NodeId, report: CapabilityReport, free: NodeResources, req: Requirements): Row {
    var reasons := Failures(req, report, free);
    Row(n, reasons == [], reasons, if reasons == [] then Some(Score(free, req.request)) else None)
  }

  /** The reported nodes by ascending id. */
  ghost function NodeOrder(reports: Reports): (ids: seq<NodeId>)
    ensures forall n :: n in ids <==> n in reports
  {
    NatOrder();
    InOrder(reports.Keys, NatLess)
  }

  /** One row for each reported node, by ascending id. */
  ghost predicate IsMatrix(matrix: seq<Row>, reports: Reports, free: Free, req: Requirements)
    requires reports.Keys <= free.Keys
  {
    AreRows(matrix, reports, free, req, NodeOrder(reports))
  }

  ghost predicate AreRows(rows: seq<Row>, reports: Reports, free: Free, req: Requirements, ids: seq<NodeId>)
    requires reports.Keys <= free.Keys
  {
    |rows| == |ids|
    && forall i :: 0 <= i < |ids| ==>
         ids[i] in reports && rows[i] == RowOf(ids[i], reports[ids[i]], free[ids[i]], req)
  }

  lemma {:induction false} RowNext(rows: seq<Row>, reports: Reports, free: Free, req: Requirements, ids: seq<NodeId>,
                                   i: nat)
    requires reports.Keys <= free.Keys && i < |ids| && ids[i] in reports
    requires AreRows(rows, reports, free, req, ids[..i])
    ensures AreRows(rows + [RowOf(ids[i], reports[ids[i]], free[ids[i]], req)], reports, free, req, ids[..i + 1])
  {
    hide RowOf;
  }

  lemma {:induction false} NoRows(reports: Reports, free: Free, req: Requirements)
    requires reports.Keys <= free.Keys
    ensures AreRows([], reports, free, req, []) && BestOf(reports, free, req, [], None)
  {
  }

  /** The chosen node's row after a reservation that failed: infeasible, with the reason added. */
  function Struck(row: Row, n: NodeId, reason: Reason): Row {
    if row.nodeId == n then Row(n, false, row.reasons + [reason], None) else row
  }

  function StruckAll(matrix: seq<Row>, n: NodeId, reason: Reason): seq<Row> {
    seq(|matrix|, i requires 0 <= i < |matrix| => Struck(matrix[i], n, reason))
  }

  /** The best of the nodes seen so far, with its score. */
  ghost predicate BestOf(reports: Reports, free: Free, req: Requirements, seen: seq<NodeId>, best: Option<(NodeId,
                         nat)>)
    requires reports.Keys <= free.Keys
  {
    match best
    case None => forall n :: n in seen ==> n !in Candidates(reports, free, req)
    case Some((b, score)) =>
      && b in Candidates(reports, free, req)
      && score == Score(free[b], req.request)
      && forall n :: n in seen && n in Candidates(reports, free, req) ==> Preferred(free, req, b, n)
  }

  /** The comparison made for one more candidate. */
  predicate Takes(best: Option<(NodeId, nat)>, n: NodeId, score: nat) {
    best.None? || score > best.value.1 || (score == best.value.1 && n < best.value.0)
  }

  lemma {:induction false} BestNext(reports: Reports, free: Free, req: Requirements, ids: seq<NodeId>, i: nat,
                                    best: Option<(NodeId, nat)>)
    requires reports.Keys <= free.Keys && i < |ids| && ids[i] in reports
    requires BestOf(reports, free, req, ids[..i], best)
    ensures var score := Score(free[ids[i]], req.request);
            BestOf(reports, free, req, ids[..i + 1],
                   if Feasible(req, reports[ids[i]], free[ids[i]]) && Takes(best, ids[i], score) then Some((ids[i], score))
                   else best)
  {
    hide Score, Feasible;
    assert ids[..i + 1] == ids[..i] + [ids[i]];
  }

  lemma {:induction false} BestOfAll(reports: Reports, free: Free, req: Requirements, ids: seq<NodeId>,
                                     best: Option<(NodeId, nat)>)
    requires reports.Keys <= free.Keys && (forall n :: n in reports ==> n in ids)
    requires BestOf(reports, free, req, ids, best)
    ensures best.None? ==> Candidates(reports, free, req) == {}
    ensures best.Some? ==> IsBest(reports, free, req, best.value.0) && best.value.1 == Score(free[best.value.0], req.request)
  {
    hide Score, Feasible;
  }

  /** The ledger would take a reservation for this unit on this node. */
  ghost predicate Grants(limits: Limits, held: Held, free: Free, req: Requirements, n: NodeId) {
    && req.unitId !in held
    && |held| < limits.maxReservations
    && (n in NodesOf(held) || |NodesOf(held)| < limits.maxNodes)
    && n in free && (req.request.ports > 0 ==> req.request.ports <= free[n].ports)
  }

  /** A node is chosen and the ledger takes it. */
  ghost predicate Placeable(limits: Limits, held: Held, reports: Reports, free: Free, req: Requirements)
    requires reports.Keys <= free.Keys
  {
    exists n :: IsBest(reports, free, req, n) && Grants(limits, held, free, req, n)
  }

  lemma {:induction false} PlaceableIff(limits: Limits, held: Held, reports: Reports, free: Free, req: Requirements,
                                        n: NodeId)
    requires reports.Keys <= free.Keys && IsBest(reports, free, req, n)
    ensures Placeable(limits, held, reports, free, req) <==> Grants(limits, held, free, req, n)
  {
    hide IsBest, Grants;
    forall m | IsBest(reports, free, req, m) ensures m == n {
      BestUnique(reports, free, req, m, n);
    }
  }

  lemma {:induction false} NotPlaceable(limits: Limits, held: Held, reports: Reports, free: Free, req: Requirements)
    requires reports.Keys <= free.Keys && Candidates(reports, free, req) == {}
    ensures !Placeable(limits, held, reports, free, req)
  {
    hide Candidates, Grants;
  }

  /** What a reservation on the best node looks like. */
  ghost predicate IsPlan(reports: Reports, free: Free, req: Requirements, outcome: Outcome)
    requires reports.Keys <= free.Keys && outcome.Scheduled?
  {
    var n := outcome.reservation.nodeId;
    && IsBest(reports, free, req, n) && n in reports
    && outcome.score == Score(free[n], req.request)
    && outcome.reservation
       == Reservation(req.unitId, n, WithHeadroom(req.request), reports[n].revision, reports[n].placementFence)
    && IsMatrix(outcome.matrix, reports, free, req)
  }

  /** Either nothing was feasible, or the ledger refused the best node and its row says so. */
  ghost predicate IsRefusal(reports: Reports, free: Free, req: Requirements, outcome: Outcome)
    requires reports.Keys <= free.Keys && outcome.Unschedulable?
  {
    || (Candidates(reports, free, req) == {} && outcome.summary == NoCandidate
        && IsMatrix(outcome.matrix, reports, free, req))
    || exists n :: IsBest(reports, free, req, n) && RefusedAt(outcome.matrix, reports, free, req, n, outcome.summary)
  }

  /** One row for each report by ascending id; the chosen node's says it is infeasible for this one reason. */
  ghost predicate RefusedAt(matrix: seq<Row>, reports: Reports, free: Free, req: Requirements, n: NodeId, reason: Reason)
    requires reports.Keys <= free.Keys
  {
    var ids := NodeOrder(reports);
    |matrix| == |ids|
    && forall i :: 0 <= i < |ids| ==>
         matrix[i] == if ids[i] == n then Row(n, false, [reason], None) else RowOf(ids[i], reports[ids[i]], free[ids[i]], req)
  }

  lemma {:induction false} StruckIsRefused(matrix: seq<Row>, reports: Reports, free: Free, req: Requirements, n: NodeId,
                                           reason: Reason)
    requires reports.Keys <= free.Keys && IsMatrix(matrix, reports, free, req) && IsBest(reports, free, req, n)
    ensures RefusedAt(StruckAll(matrix, n, reason), reports, free, req, n, reason)
  {
    hide Feasible, Score, Failures, NodeOrder;
    FailuresIffInfeasible(req, reports[n], free[n]);
    var struck, ids := StruckAll(matrix, n, reason), NodeOrder(reports);
    forall i | 0 <= i < |ids|
      ensures struck[i]
           == if ids[i] == n then Row(n, false, [reason], None) else RowOf(ids[i], reports[ids[i]], free[ids[i]], req)
    {
      assert matrix[i] == RowOf(ids[i], reports[ids[i]], free[ids[i]], req);
    }
  }

  /** For a feasible node the ledger's own capacity check comes down to ports. */
  lemma {:induction false} RoomIsPorts(reserved: NodeResources, req: Requirements, report: CapabilityReport,
                                       free: NodeResources)
    requires free == report.allocatable.SaturatingSub(reserved) && Feasible(req, report, free)
    ensures Room(reserved, WithHeadroom(req.request), report.allocatable)
            <==> (req.request.ports > 0 ==> req.request.ports <= free.ports)
  {
  }

  lemma {:induction false} BestIsReported(reports: Reports, free: Free, req: Requirements, n: NodeId)
    requires reports.Keys <= free.Keys && IsBest(reports, free, req, n)
    ensures n in reports && n in free && Feasible(req, reports[n], free[n])
  {
  }

  class PlacementController {
    var reports: Reports
    const ledger: ResourceLedger
    const maxReports: nat

    ghost predicate Valid()
      reads this, ledger
    {
      ledger.Valid() && |reports| <= maxReports && forall n :: n in reports ==> reports[n].nodeId == n
    }

    constructor (limits: Limits, maxReports: nat)
      ensures Valid() && reports == map[] && ledger.held == map[] && fresh(ledger)
      ensures ledger.limits == limits && this.maxReports == maxReports
    {
      reports := map[];
      ledger := new ResourceLedger(limits);
      this.maxReports := maxReports;
    }

    static ghost predicate Smallest(n: NodeId, reports: Reports) {
      n in reports && forall m :: m in reports ==> n <= m
    }

    /** At the ceiling the report with the smallest node id makes way; a controller without room refuses. */
    method UpsertReport(report: CapabilityReport) returns (ok: bool)
      requires Valid()
      modifies this`reports
      ensures Valid()
      ensures ok <==> maxReports > 0
      ensures !ok ==> reports == old(reports)
      ensures ok && (report.nodeId in old(reports) || |old(reports)| < maxReports) ==>
                reports == old(reports)[report.nodeId := report]
      ensures ok && report.nodeId !in old(reports) && |old(reports)| == maxReports ==>
                exists first: NodeId ::
                  Smallest(first, old(reports)) && reports == (old(reports) - {first})[report.nodeId := report]
    {
      hide Ledger.ResourceLedger.Valid;
      if report.nodeId !in reports && |reports| >= maxReports {
        if reports != map[] {
          var oldest := FirstKey(reports);
          reports := reports - {oldest};
        }
      }
      if report.nodeId !in reports && |reports| >= maxReports {
        return false;
      }
      assert reports[report.nodeId := report].Keys == reports.Keys + {report.nodeId};
      reports := reports[report.nodeId := report];
      return true;
    }

    static method FirstKey(reports: Reports) returns (first: NodeId)
      requires reports != map[]
      ensures Smallest(first, reports) && |reports - {first}| == |reports| - 1
    {
      NatOrder();
      assert reports.Keys != {};
      first := Least(reports.Keys, NatLess);
      assert reports.Keys == (reports - {first}).Keys + {first};
    }

    /** What every reported node has left. */
    function FreeMap(): (free: Free)
      reads this, ledger
      ensures free.Keys == reports.Keys
      ensures forall n :: n in free ==> free[n] == ledger.FreeOn(n, reports[n].allocatable)
    {
      map n | n in reports :: ledger.FreeOn(n, reports[n].allocatable)
    }

    /**
     * Picks the best hard-feasible node and reserves on it. It schedules exactly when there is
     * a candidate, the unit is new, the ledger's ceilings leave room and the chosen node has the
     * ports asked for; otherwise the ledger is untouched.
     */
    method Place(request: Requirements) returns (outcome: Outcome)
      requires Valid()
      modifies ledger
      ensures Valid() && reports == old(reports)
      ensures outcome.Scheduled?
              <==> Placeable(ledger.limits, old(ledger.held), reports, old(FreeMap()), Normalized(request))
      ensures outcome.Scheduled? ==>
                && Padded(Normalized(request).request, outcome.reservation.resources)
                && (request.requiresPort ==> outcome.reservation.resources.ports >= 1)
                && IsPlan(reports, old(FreeMap()), Normalized(request), outcome)
                && ledger.held == old(ledger.held)[request.unitId := outcome.reservation]
      ensures outcome.Unschedulable? ==>
                && IsRefusal(reports, old(FreeMap()), Normalized(request), outcome)
                && ledger.held == old(ledger.held) && ledger.nodes == old(ledger.nodes)
                && ledger.unitIndex == old(ledger.unitIndex)
    {
      hide Feasible, Score, WithHeadroom, IsBest, Room, IsMatrix, Placeable, FreeMap, Candidates, StruckAll, NodesOf,
        SixFifths, RefusedAt;
      var req := Normalized(request);
      ghost var free := FreeMap();
      ghost var held := ledger.held;
      var matrix, best := Examine(reports, FreeMap(), req);
      if best.None? {
        NotPlaceable(ledger.limits, held, reports, free, req);
        return Unschedulable(matrix, NoCandidate);
      }
      var (n, score) := best.value;
      BestIsReported(reports, free, req, n);
      var report := reports[n];
      RoomIsPorts(ledger.ReservedOn(n), req, report, free[n]);
      PlaceableIff(ledger.limits, held, reports, free, req, n);
      var r := ledger.Reserve(req.unitId, n, req.request, report.allocatable, report.revision, report.placementFence);
      match r {
        case Granted(reservation) =>
          return Scheduled(reservation, score, matrix);
        case Denied(reason) =>
          StruckIsRefused(matrix, reports, free, req, n, reason);
          return Unschedulable(StruckAll(matrix, n, reason), reason);
      }
    }

    /** One pass over the reports in id order, keeping the best so far. */
    static method Examine(reports: Reports, free: Free, req: Requirements)
      returns (matrix: seq<Row>, best: Option<(NodeId, nat)>)
      requires reports.Keys <= free.Keys && forall n :: n in reports ==> reports[n].nodeId == n
      ensures IsMatrix(matrix, reports, free, req)
      ensures best.None? ==> Candidates(reports, free, req) == {}
      ensures best.Some? ==> IsBest(reports, free, req, best.value.0)
                             && best.value.1 == Score(free[best.value.0], req.request)
    {
      hide Feasible, Score, BestOf, RowOf, AreRows, NodeOrder, Takes, Candidates, IsBest;
      var ids := SortedIds(reports);
      matrix := [];
      best := None;
      NoRows(reports, free, req);
      assert ids[..0] == [];
      for i := 0 to |ids|
        invariant AreRows(matrix, reports, free, req, ids[..i])
        invariant BestOf(reports, free, req, ids[..i], best)
      {
        assert ids[i] in ids;
        BestNext(reports, free, req, ids, i, best);
        RowNext(matrix, reports, free, req, ids, i);
        var row := ExamineNode(reports[ids[i]], free[ids[i]], req);
        matrix := matrix + [row];
        if row.feasible && Takes(best, ids[i], row.score.value) {
          best := Some((ids[i], row.score.value));
        }
      }
      assert ids[..|ids|] == ids;
      BestOfAll(reports, free, req, ids, best);
    }

    static method SortedIds(reports: Reports) returns (ids: seq<NodeId>)
      ensures ids == NodeOrder(reports)
    {
      NatOrder();
      ids := Sort(reports.Keys, NatLess);
    }

    static method ExamineNode(report: CapabilityReport, free: NodeResources, req: Requirements) returns (row: Row)
      ensures row == RowOf(report.nodeId, report, free, req)
      ensures row.feasible <==> Feasible(req, report, free)
      ensures row.feasible ==> row.score == Some(Score(free, req.request))
    {
      hide Feasible, Score, Failures;
      var reasons := HardFilter(req, report, free);
      FailuresIffInfeasible(req, report, free);
      if reasons == [] {
        row := Row(report.nodeId, true, [], Some(Score(free, req.request)));
      } else {
        row := Row(report.nodeId, false, reasons, None);
      }
    }
  }

  // ---- When the filter decides --------------------------------------------

  /** A request that asks for at most one port, and only if it requires one. */
  predicate OnePort(req: Requirements) {
    req.request.ports <= 1 && (req.request.ports > 0 ==> req.requiresPort)
  }

  /** For such requests the filter already checks what the reservation will. */
  lemma {:induction false} OnePortFilterSuffices(request: Requirements, report: CapabilityReport, free: NodeResources)
    requires OnePort(request) && Feasible(Normalized(request), report, free)
    ensures var ports := Normalized(request).request.ports;
            ports > 0 ==> ports <= free.ports
  {
  }

  lemma {:induction false} Willing(req: Requirements, report: CapabilityReport, free: NodeResources)
    requires !report.drained && report.arch == req.arch && report.drivers == [req.driver]
    requires forall name :: name in req.requiredEnforced ==> EnforcedOn(report, name)
    requires var need := WithHeadroom(req.request);
             need.millicores <= free.millicores && need.memoryBytes <= free.memoryBytes
             && need.gpuDevices <= free.gpuDevices
    requires req.requiresPort ==> free.ports >= 1
    ensures Feasible(req, report, free)
  {
  }

  lemma {:induction false} BestExists(reports: Reports, free: Free, req: Requirements,
                                      todo: set<NodeId>) returns (best: NodeId)
    requires reports.Keys <= free.Keys && todo != {} && todo <= reports.Keys
    ensures best in todo && forall m :: m in todo ==> Preferred(free, req, best, m)
    decreases todo
  {
    hide Score;
    var n :| n in todo;
    if todo == {n} {
      best := n;
    } else {
      var rest := todo - {n};
      best := BestExists(reports, free, req, rest);
      assert todo == rest + {n};
      if Preferred(free, req, n, best) {
        best := n;
      }
    }
  }

  /**
   * With at most one port, a new unit and room in the ledger, a unit is placed if and only if
   * some node passes the hard filter.
   */
  lemma {:induction false} OnePortPlaceable(limits: Limits, held: Held, reports: Reports, free: Free,
                                            request: Requirements)
    requires reports.Keys <= free.Keys && OnePort(request) && request.unitId !in held
    requires |held| < limits.maxReservations && |NodesOf(held)| < limits.maxNodes
    ensures Placeable(limits, held, reports, free, Normalized(request))
            <==> exists n :: n in reports && Feasible(Normalized(request), reports[n], free[n])
  {
    hide Feasible, Score, NodesOf, Preferred;
    var req := Normalized(request);
    var candidates := Candidates(reports, free, req);
    if candidates != {} {
      var best := BestExists(reports, free, req, candidates);
      assert IsBest(reports, free, req, best);
      OnePortFilterSuffices(request, reports[best], free[best]);
      assert Grants(limits, held, free, req, best);
    } else {
      NotPlaceable(limits, held, reports, free, req);
      forall n | n in reports ensures !Feasible(req, reports[n], free[n]) {
        assert n !in candidates;
      }
    }
  }

  /** `free` is what the held reservations leave of each reported node. */
  ghost predicate IsFree(held: Held, reports: Reports, free: Free) {
    && free.Keys == reports.Keys
    && forall n :: n in reports ==> LeftOver(held, n, reports[n].allocatable, free[n])
  }

  ghost predicate LeftOver(held: Held, n: NodeId, allocatable: NodeResources, left: NodeResources) {
    exists total :: IsTotal(total, OnNode(held, n)) && left == allocatable.SaturatingSub(total)
  }

  /** What a controller's ledger computes for its reported nodes is what is free on them. */
  lemma {:induction false} FreeMapIsFree(ctl: PlacementController)
    requires ctl.Valid()
    ensures IsFree(ctl.ledger.held, ctl.reports, ctl.FreeMap())
  {
    hide IsTotal, OnNode;
    forall n | n in ctl.reports
      ensures LeftOver(ctl.ledger.held, n, ctl.reports[n].allocatable, ctl.FreeMap()[n])
    {
      ctl.ledger.ReservedIsTotal(n);
    }
  }

  /** The filter decides: with room for a new unit, it is placed if and only if some node is feasible. */
  ghost predicate FilterDecides(limits: Limits, held: Held, reports: Reports, free: Free, request: Requirements) {
    IsFree(held, reports, free) && request.unitId !in held
    && |held| < limits.maxReservations && |NodesOf(held)| < limits.maxNodes ==>
      (Placeable(limits, held, reports, free, Normalized(request))
       <==> Candidates(reports, free, Normalized(request)) != {})
  }

  /** A single node that passes the filter and has at most one port. */
  function ShortReport(request: Requirements): CapabilityReport {
    var req := Normalized(request);
    var caps := map name | name in req.requiredEnforced :: Enforced;
    CapabilityReport(0, 0, 0, req.arch, [req.driver], caps,
                     WithHeadroom(req.request).(ports := if req.requiresPort then 1 else 0), false)
  }

  /** On an empty ledger that node is the best candidate, and the ledger refuses it for its ports. */
  lemma {:induction false} RefusedForPorts(request: Requirements, limits: Limits)
    requires !OnePort(request)
    ensures var report := ShortReport(request);
            var reports: Reports, free: Free := map[0 := report], map[0 := report.allocatable];
            && IsFree(map[], reports, free)
            && Candidates(reports, free, Normalized(request)) == {0}
            && !Placeable(limits, map[], reports, free, Normalized(request))
  {
    hide WithHeadroom, Feasible, Score, IsTotal;
    var req, report := Normalized(request), ShortReport(request);
    var reports: Reports, free: Free := map[0 := report], map[0 := report.allocatable];
    EmptyTotal();
    assert OnNode(map[], 0) == map[] && report.allocatable.SaturatingSub(NONE) == report.allocatable;
    assert LeftOver(map[], 0, report.allocatable, free[0]);
    Willing(req, report, report.allocatable);
    assert Candidates(reports, free, req) == {0};
    assert IsBest(reports, free, req, 0);
    PlaceableIff(limits, map[], reports, free, req, 0);
  }

  /** So the filter decides in every case exactly for requests of at most one port, asked for only if required. */
  lemma {:induction false} FilterDecidesIff(request: Requirements)
    ensures OnePort(request)
            <==> forall limits, held, reports, free :: FilterDecides(limits, held, reports, free, request)
  {
    hide Feasible, Score, Placeable, NodesOf, Candidates, IsFree, OnePort;
    if OnePort(request) {
      forall limits, held, reports, free ensures FilterDecides(limits, held, reports, free, request) {
        if IsFree(held, reports, free) && request.unitId !in held
           && |held| < limits.maxReservations && |NodesOf(held)| < limits.maxNodes {
          FreeKeys(held, reports, free);
          OnePortPlaceable(limits, held, reports, free, request);
          CandidatesExist(reports, free, Normalized(request));
        }
      }
    } else {
      var limits := Limits(1, 1);
      var report := ShortReport(request);
      var reports: Reports, free: Free := map[0 := report], map[0 := report.allocatable];
      RefusedForPorts(request, limits);
      NoNodes();
      assert !FilterDecides(limits, map[], reports, free, request);
    }
  }

  lemma {:induction false} FreeKeys(held: Held, reports: Reports, free: Free)
    requires IsFree(held, reports, free)
    ensures reports.Keys <= free.Keys
  {
  }

  lemma {:induction false} CandidatesExist(reports: Reports, free: Free, req: Requirements)
    requires reports.Keys <= free.Keys
    ensures Candidates(reports, free, req) != {} <==> exists n :: n in reports && Feasible(req, reports[n], free[n])
  {
    hide Feasible;
    if n :| n in reports && Feasible(req, reports[n], free[n]) {
      assert n in Candidates(reports, free, req);
    }
  }

  lemma {:induction false} NoNodes()
    ensures NodesOf(map[]) == {}
  {
  }

  /** The same on a live controller: its one report passes the filter, and the unit is unschedulable. */
  method PlaceShort(request: Requirements) returns (ctl: PlacementController, outcome: Outcome)
    requires !OnePort(request)
    ensures fresh(ctl) && ctl.Valid() && outcome.Unschedulable?
    ensures ctl.reports == map[0 := ShortReport(request)] && ctl.ledger.held == map[]
  {
    hide Feasible, Score, Placeable, Candidates, IsRefusal, IsPlan, ShortReport, OnePort, Normalized, NodesOf, IsFree,
      PlacementController.Valid, PlacementController.FreeMap;
    var report := ShortReport(request);
    ShortReportIsZero(request);
    ctl := ReportedAlone(report);
    RefusedForPorts(request, ctl.ledger.limits);
    outcome := ctl.Place(request);
  }

  method ReportedAlone(report: CapabilityReport) returns (ctl: PlacementController)
    requires report.nodeId == 0
    ensures fresh(ctl) && fresh(ctl.ledger) && ctl.Valid() && ctl.ledger.held == map[] && ctl.reports == map[0 := report]
    ensures ctl.FreeMap() == map[0 := report.allocatable]
  {
    hide PlacementController.Valid, PlacementController.FreeMap;
    ctl := new PlacementController(Limits(1, 1), 1);
    var ok := ctl.UpsertReport(report);
    AllIsFree(ctl, report);
  }

  lemma {:induction false} AllIsFree(ctl: PlacementController, report: CapabilityReport)
    requires ctl.Valid() && ctl.ledger.held == map[] && ctl.reports == map[0 := report]
    ensures ctl.FreeMap() == map[0 := report.allocatable]
  {
    NoNodes();
    assert ctl.ledger.nodes == map[];
    assert report.allocatable.SaturatingSub(NONE) == report.allocatable;
  }

  lemma {:induction false} ShortReportIsZero(request: Requirements)
    ensures ShortReport(request).nodeId == 0
  {
  }
}
