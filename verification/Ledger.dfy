/**
 * Bounded reservation ledger (crates/gump-scheduler/src/ledger.rs). The specification is the
 * plain map of reservations held; the ledger keeps per-node totals in machine arithmetic and a
 * unit index beside it.
 */
module LedgerSpec {
  import opened Machine
  import opened Resources
  import opened Sums

  const DEFAULT_MAX_NODES: nat := 4_096
  const DEFAULT_MAX_RESERVATIONS: nat := 65_536

  datatype Reservation = Reservation(
    unitId: UnitId, nodeId: NodeId, resources: NodeResources, capabilityRevision: u64, placementFence: u64)

  type Held = map<UnitId, Reservation>

  datatype Limits = Limits(maxNodes: nat, maxReservations: nat)

  function OnNode(held: Held, n: NodeId): Held {
    map u | u in held && held[u].nodeId == n :: held[u]
  }

  function NodesOf(held: Held): set<NodeId> {
    set u | u in held :: held[u].nodeId
  }

  function MillicoresOf(u: UnitId, r: Reservation): nat { r.resources.millicores }
  function MemoryOf(u: UnitId, r: Reservation): nat { r.resources.memoryBytes }
  function GpusOf(u: UnitId, r: Reservation): nat { r.resources.gpuDevices }
  function PortsOf(u: UnitId, r: Reservation): nat { r.resources.ports }

  /** `total` is the exact sum, component by component. */
  ghost predicate IsTotal(total: NodeResources, held: Held) {
    && total.millicores == Sum(held, MillicoresOf)
    && total.memoryBytes == Sum(held, MemoryOf)
    && total.gpuDevices == Sum(held, GpusOf)
    && total.ports == Sum(held, PortsOf)
  }

  /** Each component of the request is nothing or still free. */
  predicate Room(reserved: NodeResources, need: NodeResources, allocatable: NodeResources) {
    var free := allocatable.SaturatingSub(reserved);
    && need.millicores <= free.millicores
    && need.memoryBytes <= free.memoryBytes
    && need.gpuDevices <= free.gpuDevices
    && (need.ports > 0 ==> need.ports <= free.ports)
  }

  /** With room, the saturating sum is exact and stays within what was within. */
  lemma {:induction false} RoomAddsExactly(reserved: NodeResources, need: NodeResources, allocatable: NodeResources)
    requires Room(reserved, need, allocatable)
    ensures var sum := reserved.SaturatingAdd(need);
            && sum.millicores == reserved.millicores + need.millicores
            && sum.memoryBytes == reserved.memoryBytes + need.memoryBytes
            && sum.gpuDevices == reserved.gpuDevices + need.gpuDevices
            && sum.ports == reserved.ports + need.ports
            && (reserved.Within(allocatable) ==> sum.Within(allocatable))
  {
  }

  lemma {:induction false} TotalPut(total: NodeResources, held: Held, u: UnitId, r: Reservation, sum: NodeResources)
    requires IsTotal(total, held) && u !in held
    requires sum.millicores == total.millicores + r.resources.millicores
    requires sum.memoryBytes == total.memoryBytes + r.resources.memoryBytes
    requires sum.gpuDevices == total.gpuDevices + r.resources.gpuDevices
    requires sum.ports == total.ports + r.resources.ports
    ensures IsTotal(sum, held[u := r])
  {
    hide Sum;
    SumPut(held, u, r, MillicoresOf);
    SumPut(held, u, r, MemoryOf);
    SumPut(held, u, r, GpusOf);
    SumPut(held, u, r, PortsOf);
  }

  /** Taking a held reservation out never runs below zero. */
  lemma {:induction false} TotalRemove(total: NodeResources, held: Held, u: UnitId)
    requires IsTotal(total, held) && u in held
    ensures held[u].resources.Within(total)
    ensures IsTotal(total.SaturatingSub(held[u].resources), held - {u})
  {
    hide Sum;
    SumRemove(held, u, MillicoresOf);
    SumRemove(held, u, MemoryOf);
    SumRemove(held, u, GpusOf);
    SumRemove(held, u, PortsOf);
  }

  lemma {:induction false} TotalUnique(a: NodeResources, b: NodeResources, held: Held)
    requires IsTotal(a, held) && IsTotal(b, held)
    ensures a == b
  {
  }

  lemma {:induction false} EmptyTotal()
    ensures IsTotal(NONE, map[])
  {
    SumEmpty<UnitId, Reservation>(MillicoresOf);
    SumEmpty<UnitId, Reservation>(MemoryOf);
    SumEmpty<UnitId, Reservation>(GpusOf);
    SumEmpty<UnitId, Reservation>(PortsOf);
  }

  // ---- Runs against a fixed capacity --------------------------------------

  datatype Op =
    | Reserve(unit: UnitId, node: NodeId, request: NodeResources)
    | Release(unit: UnitId)

  ghost predicate Fits(held: Held, n: NodeId, allocatable: NodeResources) {
    exists total :: IsTotal(total, OnNode(held, n)) && total.Within(allocatable)
  }

  /** One operation on the map of reservations, capacities fixed. */
  ghost predicate Stepped(alloc: map<NodeId, NodeResources>, before: Held, op: Op, after: Held) {
    match op
    case Release(u) => after == before - {u}
    case Reserve(u, n, request) =>
      || after == before
      || (n in alloc && u !in before
          && (exists total :: IsTotal(total, OnNode(before, n)) && Room(total, WithHeadroom(request), alloc[n]))
          && u in after && after == before[u := after[u]]
          && after[u].nodeId == n && after[u].resources == WithHeadroom(request))
  }

  ghost predicate Run(alloc: map<NodeId, NodeResources>, states: seq<Held>, ops: seq<Op>) {
    && |states| == |ops| + 1
    && states[0] == map[]
    && forall i :: 0 <= i < |ops| ==> Stepped(alloc, states[i], ops[i], states[i + 1])
  }

  ghost predicate AllFit(alloc: map<NodeId, NodeResources>, held: Held) {
    forall n :: n in alloc ==> Fits(held, n, alloc[n])
  }

  lemma {:induction false} StepKeepsFit(alloc: map<NodeId, NodeResources>, before: Held, op: Op, after: Held, n: NodeId)
    requires Stepped(alloc, before, op, after) && n in alloc && Fits(before, n, alloc[n])
    ensures Fits(after, n, alloc[n])
  {
    hide WithHeadroom, IsTotal, Room;
    var total :| IsTotal(total, OnNode(before, n)) && total.Within(alloc[n]);
    match op {
      case Release(u) =>
        if u in before && before[u].nodeId == n {
          TotalRemove(total, OnNode(before, n), u);
          assert OnNode(after, n) == OnNode(before, n) - {u};
          assert total.SaturatingSub(before[u].resources).Within(alloc[n]);
        } else {
          assert OnNode(after, n) == OnNode(before, n);
        }
      case Reserve(u, m, request) =>
        if after == before {
        } else if m == n {
          var t :| IsTotal(t, OnNode(before, n)) && Room(t, WithHeadroom(request), alloc[n]);
          TotalUnique(total, t, OnNode(before, n));
          RoomAddsExactly(t, WithHeadroom(request), alloc[n]);
          TotalPut(t, OnNode(before, n), u, after[u], t.SaturatingAdd(WithHeadroom(request)));
          assert OnNode(after, n) == OnNode(before, n)[u := after[u]];
        } else {
          assert OnNode(after, n) == OnNode(before, n);
        }
    }
  }

  lemma {:induction false} StepKeepsAllFit(alloc: map<NodeId, NodeResources>, before: Held, op: Op, after: Held)
    requires Stepped(alloc, before, op, after)
    ensures AllFit(alloc, before) ==> AllFit(alloc, after)
  {
    hide Stepped, Fits;
    if AllFit(alloc, before) {
      forall n | n in alloc ensures Fits(after, n, alloc[n]) {
        StepKeepsFit(alloc, before, op, after, n);
      }
    }
  }

  /** However reserves and releases interleave, no node is ever promised more than it has. */
  lemma {:induction false} NeverOvercommitted(alloc: map<NodeId, NodeResources>, states: seq<Held>, ops: seq<Op>,
                                              i: nat)
    requires Run(alloc, states, ops) && i < |states|
    ensures AllFit(alloc, states[i])
  {
    hide Stepped, IsTotal;
    if i == 0 {
      EmptyTotal();
      forall n | n in alloc ensures Fits(states[0], n, alloc[n]) {
        assert OnNode(states[0], n) == map[];
        assert IsTotal(NONE, OnNode(states[0], n)) && NONE.Within(alloc[n]);
      }
    } else {
      NeverOvercommitted(alloc, states, ops, i - 1);
      assert Stepped(alloc, states[i - 1], ops[i - 1], states[i]);
      forall n | n in alloc ensures Fits(states[i], n, alloc[n]) {
        StepKeepsFit(alloc, states[i - 1], ops[i - 1], states[i], n);
      }
    }
  }
}

module Ledger {
  import opened Machine
  import opened Resources
  import opened Sums
  import opened LedgerSpec

  datatype NodeLedger = NodeLedger(reserved: NodeResources, byUnit: Held)

  datatype Reserved = Granted(reservation: Reservation) | Denied(reason: Reason)

  class ResourceLedger {
    var nodes: map<NodeId, NodeLedger>
    var unitIndex: map<UnitId, NodeId>
    const limits: Limits
    /** The reservations in force. */
    ghost var held: Held

    /**
     * The representation is determined by the reservations: a node entry exactly for nodes in
     * use, its units and their exact total, and the index as the inverse.
     */
    ghost predicate Valid()
      reads this
    {
      && (forall u :: u in held ==> held[u].unitId == u)
      && unitIndex == IndexOf(held)
      && nodes.Keys == NodesOf(held)
      && forall n :: n in nodes ==> nodes[n].byUnit == OnNode(held, n) && IsTotal(nodes[n].reserved, OnNode(held, n))
    }

    static ghost function IndexOf(held: Held): map<UnitId, NodeId> {
      map u | u in held :: held[u].nodeId
    }

    constructor (limits: Limits)
      ensures Valid() && held == map[] && this.limits == limits
    {
      nodes := map[];
      unitIndex := map[];
      this.limits := limits;
      held := map[];
    }

    function ReservedOn(n: NodeId): NodeResources
      reads this
    {
      if n in nodes then nodes[n].reserved else NONE
    }

    function FreeOn(n: NodeId, allocatable: NodeResources): NodeResources
      reads this
    {
      allocatable.SaturatingSub(ReservedOn(n))
    }

    /** The reserved figure of every node, used or not, is the exact sum of its reservations. */
    lemma {:induction false} ReservedIsTotal(n: NodeId)
      requires Valid()
      ensures IsTotal(ReservedOn(n), OnNode(held, n))
    {
      if n !in nodes {
        assert OnNode(held, n) == map[];
        EmptyTotal();
      }
    }

    method Get(unit: UnitId) returns (r: Option<Reservation>)
      requires Valid()
      ensures r == if unit in held then Some(held[unit]) else None
    {
      if unit !in unitIndex {
        return None;
      }
      var node := nodes[unitIndex[unit]];
      return Some(node.byUnit[unit]);
    }

    /** Grants exactly when the unit is new, both ceilings leave room and the node has capacity. */
    method Reserve(unitId: UnitId, nodeId: NodeId, request: NodeResources, allocatable: NodeResources,
                   capabilityRevision: u64, placementFence: u64)
      returns (r: Reserved)
      requires Valid()
      modifies this
      ensures Valid()
      ensures r.Granted? <==>
                && unitId !in old(held)
                && |old(held)| < limits.maxReservations
                && (nodeId in NodesOf(old(held)) || |NodesOf(old(held))| < limits.maxNodes)
                && Room(old(ReservedOn(nodeId)), WithHeadroom(request), allocatable)
      ensures r.Denied? ==> held == old(held) && nodes == old(nodes) && unitIndex == old(unitIndex)
      ensures r.Denied? ==>
                r.reason == if unitId in old(held) then UnitAlreadyReserved
                            else if |old(held)| >= limits.maxReservations then ReservationCeiling(limits.maxReservations)
                            else if nodeId !in NodesOf(old(held)) && |NodesOf(old(held))| >= limits.maxNodes
                            then NodeCeiling(limits.maxNodes)
                            else CapacityChanged(old(FreeOn(nodeId, allocatable)).millicores)
      ensures r.Granted? ==>
                && r.reservation == Reservation(unitId, nodeId, WithHeadroom(request), capabilityRevision, placementFence)
                && held == old(held)[unitId := r.reservation]
                && (old(ReservedOn(nodeId)).Within(allocatable) ==> ReservedOn(nodeId).Within(allocatable))
      ensures r.Granted? ==>
                && Padded(request, r.reservation.resources)
                && r.reservation.resources.Within(old(FreeOn(nodeId, allocatable)))
    {
      hide WithHeadroom, IsTotal, SixFifths;
      HeadroomIsAFifth(request, WithHeadroom(request));
      IndexSize(held);
      if unitId in unitIndex {
        return Denied(UnitAlreadyReserved);
      }
      if |unitIndex| >= limits.maxReservations {
        return Denied(ReservationCeiling(limits.maxReservations));
      }
      if nodeId !in nodes && |nodes| >= limits.maxNodes {
        return Denied(NodeCeiling(limits.maxNodes));
      }
      var need := WithHeadroom(request);
      var free := FreeOn(nodeId, allocatable);
      if free.millicores < need.millicores || free.memoryBytes < need.memoryBytes
         || free.gpuDevices < need.gpuDevices || (need.ports > 0 && free.ports < need.ports) {
        return Denied(CapacityChanged(free.millicores));
      }
      var reservation := Reservation(unitId, nodeId, need, capabilityRevision, placementFence);
      ReservedIsTotal(nodeId);
      RoomAddsExactly(ReservedOn(nodeId), need, allocatable);
      Commit(reservation);
      return Granted(reservation);
    }

    method Commit(reservation: Reservation)
      requires Valid() && reservation.unitId !in held
      requires IsTotal(ReservedOn(reservation.nodeId), OnNode(held, reservation.nodeId))
      requires var total, r, sum := ReservedOn(reservation.nodeId), reservation.resources,
                   ReservedOn(reservation.nodeId).SaturatingAdd(reservation.resources);
               && sum.millicores == total.millicores + r.millicores
               && sum.memoryBytes == total.memoryBytes + r.memoryBytes
               && sum.gpuDevices == total.gpuDevices + r.gpuDevices
               && sum.ports == total.ports + r.ports
      modifies this
      ensures Valid() && held == old(held)[reservation.unitId := reservation]
      ensures ReservedOn(reservation.nodeId) == old(ReservedOn(reservation.nodeId)).SaturatingAdd(reservation.resources)
    {
      hide IsTotal, OnNode, NodesOf, IndexOf;
      var unit, n := reservation.unitId, reservation.nodeId;
      AfterReserve(held, unit, reservation);
      TotalPut(ReservedOn(n), OnNode(held, n), unit, reservation, ReservedOn(n).SaturatingAdd(reservation.resources));
      if n !in nodes {
        UnusedNodeIsEmpty(held, n);
      }
      var entry := if n in nodes then nodes[n] else NodeLedger(NONE, map[]);
      entry := NodeLedger(entry.reserved.SaturatingAdd(reservation.resources), entry.byUnit[unit := reservation]);
      nodes := nodes[n := entry];
      unitIndex := unitIndex[unit := n];
      held := held[unit := reservation];
    }

    static lemma {:induction false} UnusedNodeIsEmpty(held: Held, n: NodeId)
      requires n !in NodesOf(held)
      ensures OnNode(held, n) == map[]
    {
    }

    /** What one more reservation changes in the derived views. */
    static lemma {:induction false} AfterReserve(before: Held, u: UnitId, r: Reservation)
      requires u !in before
      ensures var after, n := before[u := r], r.nodeId;
              && NodesOf(after) == NodesOf(before) + {n}
              && IndexOf(after) == IndexOf(before)[u := n]
              && OnNode(after, n) == OnNode(before, n)[u := r]
              && u !in OnNode(before, n)
              && forall m :: m != n ==> OnNode(after, m) == OnNode(before, m)
    {
      var after, n := before[u := r], r.nodeId;
      assert forall v :: v in before ==> after[v] == before[v];
      assert after[u].nodeId == n;
    }

    static lemma {:induction false} IndexSize(held: Held)
      ensures |IndexOf(held)| == |held|
    {
      assert IndexOf(held).Keys == held.Keys;
    }

    /** Gives back what was held; the node entry goes with its last unit. */
    method Release(unitId: UnitId) returns (r: Option<Reservation>)
      requires Valid()
      modifies this
      ensures Valid() && held == old(held) - {unitId}
      ensures r == if unitId in old(held) then Some(old(held)[unitId]) else None
    {
      hide IsTotal, OnNode, NodesOf, IndexOf;
      IndexKeys(held);
      if unitId !in unitIndex {
        assert held == held - {unitId};
        return None;
      }
      var n := unitIndex[unitId];
      AfterRelease(held, unitId);
      var node := nodes[n];
      var reservation := node.byUnit[unitId];
      TotalRemove(node.reserved, OnNode(held, n), unitId);
      unitIndex := unitIndex - {unitId};
      var byUnit := node.byUnit - {unitId};
      if byUnit == map[] {
        nodes := nodes - {n};
      } else {
        nodes := nodes[n := NodeLedger(node.reserved.SaturatingSub(reservation.resources), byUnit)];
      }
      held := held - {unitId};
      return Some(reservation);
    }

    static lemma {:induction false} IndexKeys(held: Held)
      ensures IndexOf(held).Keys == held.Keys
      ensures forall u :: u in held ==> IndexOf(held)[u] == held[u].nodeId && held[u].nodeId in NodesOf(held)
    {
    }

    /** What one reservation less changes in the derived views. */
    static lemma {:induction false} AfterRelease(before: Held, u: UnitId)
      requires u in before
      ensures var after, n := before - {u}, before[u].nodeId;
              && IndexOf(after) == IndexOf(before) - {u}
              && OnNode(after, n) == OnNode(before, n) - {u}
              && u in OnNode(before, n) && OnNode(before, n)[u] == before[u]
              && (forall m :: m != n ==> OnNode(after, m) == OnNode(before, m))
              && NodesOf(after) == if OnNode(before, n) - {u} == map[] then NodesOf(before) - {n} else NodesOf(before)
    {
      NodesAfterRelease(before, u);
      var after, n := before - {u}, before[u].nodeId;
      forall m | m != n ensures OnNode(after, m) == OnNode(before, m) {
        assert forall v :: v in after ==> after[v] == before[v];
      }
    }

    static lemma {:induction false} NodesAfterRelease(before: Held, u: UnitId)
      requires u in before
      ensures var n := before[u].nodeId;
              NodesOf(before - {u}) == if OnNode(before, n) - {u} == map[] then NodesOf(before) - {n} else NodesOf(before)
    {
      var n, after := before[u].nodeId, before - {u};
      assert forall v :: v in after ==> after[v] == before[v] && after[v].nodeId in NodesOf(before);
      forall m | m in NodesOf(before) && m != n ensures m in NodesOf(after) {
        var v :| v in before && before[v].nodeId == m;
        assert v in after && after[v].nodeId == m;
      }
      if OnNode(before, n) - {u} == map[] {
        forall v | v in after ensures after[v].nodeId != n {
          assert v in OnNode(before, n) - {u} <==> after[v].nodeId == n;
        }
      } else {
        var v :| v in OnNode(before, n) - {u};
        assert v in after && after[v].nodeId == n;
      }
    }

    /** Two ledgers with the same reservations are the same in every field. */
    twostate lemma {:induction false} SameHeldSameLedger()
      requires old(Valid()) && Valid() && held == old(held)
      ensures nodes == old(nodes) && unitIndex == old(unitIndex)
    {
      forall n | n in nodes ensures nodes[n] == old(nodes)[n] {
        TotalUnique(nodes[n].reserved, old(nodes)[n].reserved, OnNode(held, n));
      }
    }

    /** Releasing what was just reserved restores the ledger, totals and index included. */
    method ReserveThenRelease(unitId: UnitId, nodeId: NodeId, request: NodeResources, allocatable: NodeResources)
      returns (granted: bool)
      requires Valid()
      modifies this
      ensures Valid() && held == old(held) && nodes == old(nodes) && unitIndex == old(unitIndex)
    {
      var r := Reserve(unitId, nodeId, request, allocatable, 0, 0);
      granted := r.Granted?;
      if granted {
        var back := Release(unitId);
        assert back == Some(r.reservation);
        assert held == old(held);
        SameHeldSameLedger();
      }
    }

    // ---- Steps against a fixed capacity -----------------------------------

    /** A reservation against the node's fixed capacity is a step of the run relation. */
    method ReserveWithin(alloc: map<NodeId, NodeResources>, unitId: UnitId, nodeId: NodeId, request: NodeResources,
                         capabilityRevision: u64, placementFence: u64)
      returns (r: Reserved)
      requires Valid() && nodeId in alloc
      modifies this
      ensures Valid() && Stepped(alloc, old(held), Op.Reserve(unitId, nodeId, request), held)
      ensures r.Denied? ==> held == old(held)
      ensures AllFit(alloc, old(held)) ==> AllFit(alloc, held)
    {
      hide IsTotal, Room, WithHeadroom, OnNode, NodesOf;
      ReservedIsTotal(nodeId);
      ghost var total := ReservedOn(nodeId);
      r := Reserve(unitId, nodeId, request, alloc[nodeId], capabilityRevision, placementFence);
      StepKeepsAllFit(alloc, old(held), Op.Reserve(unitId, nodeId, request), held);
    }

    /** So is a release. */
    method ReleaseWithin(ghost alloc: map<NodeId, NodeResources>, unitId: UnitId) returns (r: Option<Reservation>)
      requires Valid()
      modifies this
      ensures Valid() && Stepped(alloc, old(held), Op.Release(unitId), held)
      ensures AllFit(alloc, old(held)) ==> AllFit(alloc, held)
    {
      hide IsTotal;
      r := Release(unitId);
      StepKeepsAllFit(alloc, old(held), Op.Release(unitId), held);
    }

    /** Any sequence of calls on a fresh ledger is a run, and leaves every node within its capacity. */
    method Drive(alloc: map<NodeId, NodeResources>, ops: seq<Op>) returns (ghost states: seq<Held>)
      requires Valid() && held == map[]
      requires forall i :: 0 <= i < |ops| && ops[i].Reserve? ==> ops[i].node in alloc
      modifies this
      ensures Valid() && Run(alloc, states, ops) && held == states[|ops|]
      ensures forall n :: n in alloc ==> ReservedOn(n).Within(alloc[n])
    {
      hide Stepped, IsTotal, OnNode;
      states := [held];
      for i := 0 to |ops|
        invariant Valid() && |states| == i + 1 && states[0] == map[] && states[i] == held
        invariant forall j :: 0 <= j < i ==> Stepped(alloc, states[j], ops[j], states[j + 1])
      {
        match ops[i] {
          case Reserve(u, n, request) =>
            var r := ReserveWithin(alloc, u, n, request, 0, 0);
          case Release(u) =>
            var r := ReleaseWithin(alloc, u);
        }
        states := states + [held];
      }
      NeverOvercommitted(alloc, states, ops, |ops|);
      forall n | n in alloc ensures ReservedOn(n).Within(alloc[n]) {
        ReservedIsTotal(n);
        var total :| IsTotal(total, OnNode(held, n)) && total.Within(alloc[n]);
        TotalUnique(total, ReservedOn(n), OnNode(held, n));
      }
    }
  }
}
