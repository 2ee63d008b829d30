/** Machines of equal sockets and NUMA nodes of six CPUs, three cores of two threads, with any
    numbers of free CPUs on the nodes. */
module PlainMachine {
  import opened Arith
  import opened Sorting
  import opened Topology
  import opened Spreading
  import opened BalanceSearch
  import opened Distributed

  /** The given number of nodes, w to a socket. */
  function Details(nodes: nat, w: nat): CPUDetails
    requires w > 0
  {
    map c | 0 <= c < 6 * nodes :: CPUInfo(c / 6, c / 6 / w, c / 2, 0)
  }

  function Machine(sockets: nat, w: nat): CPUTopology
    requires w > 0
  {
    CPUTopology(6 * (sockets * w), 3 * (sockets * w), 1, sockets, sockets * w, Details(sockets * w, w))
  }

  /** Of every node the first so many CPUs. */
  function Available(free: seq<nat>): set<int> {
    set c | 0 <= c < 6 * |free| && c % 6 < free[c / 6]
  }

  lemma CPUsAre(nodes: nat, w: nat)
    requires w > 0
    ensures Details(nodes, w).Keys == Range(0, 6 * nodes) && |Details(nodes, w)| == 6 * nodes
  {
    RangeSize(0, 6 * nodes);
    assert |Details(nodes, w)| == |Details(nodes, w).Keys|;
  }

  lemma CoresAre(nodes: nat, w: nat)
    requires w > 0
    ensures Units(Details(nodes, w), Core) == Range(0, 3 * nodes) && |Units(Details(nodes, w), Core)| == 3 * nodes
    ensures Uniform(Details(nodes, w), Core, 2)
  {
    var d := Details(nodes, w);
    RangeSize(0, 3 * nodes);
    forall u ensures u in Units(d, Core) <==> 0 <= u < 3 * nodes {
      if 0 <= u < 3 * nodes {
        assert UnitOf(d, Core, 2 * u) == u;
      }
    }
    forall u | u in Units(d, Core) ensures |Members(d, Core, u)| == 2 {
      CoreMembers(nodes, w, u);
    }
  }

  lemma CoreMembers(nodes: nat, w: nat, u: int)
    requires w > 0 && 0 <= u < 3 * nodes
    ensures |Members(Details(nodes, w), Core, u)| == 2
  {
    assert Members(Details(nodes, w), Core, u) == {2 * u, 2 * u + 1};
  }

  lemma NodesAre(nodes: nat, w: nat)
    requires w > 0
    ensures Units(Details(nodes, w), Numa) == Range(0, nodes) && |Units(Details(nodes, w), Numa)| == nodes
    ensures Uniform(Details(nodes, w), Numa, 6)
  {
    var d := Details(nodes, w);
    RangeSize(0, nodes);
    forall u ensures u in Units(d, Numa) <==> 0 <= u < nodes {
      if 0 <= u < nodes {
        assert UnitOf(d, Numa, 6 * u) == u;
      }
    }
    forall u | u in Units(d, Numa) ensures |Members(d, Numa, u)| == 6 {
      RangeSize(6 * u, 6 * u + 6);
      assert Members(d, Numa, u) == Range(6 * u, 6 * u + 6);
    }
  }

  lemma OneCache(nodes: nat, w: nat)
    requires w > 0 && nodes > 0
    ensures Units(Details(nodes, w), Uncore) == {0} && |Units(Details(nodes, w), Uncore)| == 1
  {
    assert UnitOf(Details(nodes, w), Uncore, 0) == 0;
  }

  /** The CPUs of socket s are those of its w nodes. */
  lemma InSocket(c: int, s: int, w: nat)
    requires w > 0 && c >= 0
    ensures c / 6 / w == s <==> 6 * (w * s) <= c < 6 * (w * s) + 6 * w
  {
    if c / 6 / w == s {
      DivBounds(c / 6, w);
    }
    if 6 * (w * s) <= c < 6 * (w * s) + 6 * w {
      DivUnique(w, s, c / 6);
    }
  }

  lemma SocketsAre(sockets: nat, w: nat)
    requires w > 0
    ensures var d := Details(sockets * w, w);
      Units(d, Socket) == Range(0, sockets) && |Units(d, Socket)| == sockets && Uniform(d, Socket, 6 * w)
  {
    var d := Details(sockets * w, w);
    RangeSize(0, sockets);
    forall s | 0 <= s < sockets ensures s in Units(d, Socket) {
      FirstOf(s, sockets, w);
      InSocket(6 * (w * s), s, w);
      assert UnitOf(d, Socket, 6 * (w * s)) == s;
    }
    forall s | s in Units(d, Socket) ensures 0 <= s < sockets && |Members(d, Socket, s)| == 6 * w {
      SocketMembers(sockets, w, s);
    }
  }

  lemma FirstOf(s: int, sockets: nat, w: nat)
    requires 0 <= s < sockets && w > 0
    ensures 0 <= w * s && w * s + w <= sockets * w
  {
    MulMonotone(w, s + 1, sockets);
    MulMonotone(w, 0, s);
    assert w * (s + 1) == w * s + w;
  }

  lemma SocketRange(sockets: nat, w: nat, s: int)
    requires w > 0 && 0 <= s < sockets
    ensures Members(Details(sockets * w, w), Socket, s) == Range(6 * (w * s), 6 * (w * s) + 6 * w)
  {
    var d, lo := Details(sockets * w, w), 6 * (w * s);
    FirstOf(s, sockets, w);
    RangeSize(lo, lo + 6 * w);
    forall x ensures x in Members(d, Socket, s) <==> x in Range(lo, lo + 6 * w) {
      if x >= 0 {
        InSocket(x, s, w);
      }
    }
  }

  lemma SocketMembers(sockets: nat, w: nat, s: int)
    requires w > 0 && s in Units(Details(sockets * w, w), Socket)
    ensures 0 <= s < sockets && |Members(Details(sockets * w, w), Socket, s)| == 6 * w
  {
    var d := Details(sockets * w, w);
    var c :| c in d && UnitOf(d, Socket, c) == s;
    InSocket(c, s, w);
    SocketBound(c, s, sockets, w);
    SocketRange(sockets, w, s);
    RangeSize(6 * (w * s), 6 * (w * s) + 6 * w);
  }

  lemma SocketBound(c: int, s: int, sockets: nat, w: nat)
    requires w > 0 && 0 <= c < 6 * (sockets * w) && 6 * (w * s) <= c < 6 * (w * s) + 6 * w
    ensures 0 <= s < sockets
  {
    if s >= sockets {
      MulMonotone(w, sockets, s);
    }
    if s < 0 {
      MulMonotone(w, s, -1);
    }
  }

  lemma SameNode(a: int, b: int)
    requires a >= 0 && b >= 0 && a / 2 == b / 2
    ensures a / 6 == b / 6
  {
    DivDiv(a, 2, 3);
    DivDiv(b, 2, 3);
  }

  lemma MachineNested(nodes: nat, w: nat)
    requires w > 0
    ensures var d := Details(nodes, w);
      && Nested(d, Core, Numa) && Nested(d, Core, Socket) && Nested(d, Core, Uncore) && Nested(d, Numa, Socket)
  {
    var d := Details(nodes, w);
    forall a, b | a in d && b in d && UnitOf(d, Core, a) == UnitOf(d, Core, b)
      ensures UnitOf(d, Numa, a) == UnitOf(d, Numa, b) && UnitOf(d, Socket, a) == UnitOf(d, Socket, b)
    {
      SameNode(a, b);
    }
  }

  lemma SocketIsNode(nodes: nat)
    ensures Nested(Details(nodes, 1), Socket, Numa)
  {
    var d := Details(nodes, 1);
    forall a, b | a in d && b in d && UnitOf(d, Socket, a) == UnitOf(d, Socket, b)
      ensures UnitOf(d, Numa, a) == UnitOf(d, Numa, b)
    {
      assert a / 6 / 1 == a / 6 && b / 6 / 1 == b / 6;
    }
  }

  lemma Sizes(sockets: nat, w: nat)
    requires sockets > 0 && w > 0
    ensures var nodes := sockets * w;
      nodes > 0 && (6 * nodes) / (3 * nodes) == 2 && (6 * nodes) / sockets == 6 * w && (sockets >= nodes ==> w == 1)
  {
    MulMonotone(w, 1, sockets);
    DivModUnique(3 * (sockets * w), 2, 0);
    assert 6 * (sockets * w) == sockets * (6 * w);
    DivModUnique(sockets, 6 * w, 0);
    if w > 1 {
      MulMonotone(sockets, 2, w);
    }
  }

  lemma MachineWellFormed(sockets: nat, w: nat)
    requires sockets > 0 && w > 0
    ensures WellFormed(Machine(sockets, w)) && Uniform(Machine(sockets, w).cpuDetails, Numa, 6)
    ensures |Machine(sockets, w).cpuDetails.Keys| == 6 * (sockets * w)
    ensures |Units(Machine(sockets, w).cpuDetails, Numa)| == sockets * w
  {
    var nodes := sockets * w;
    Sizes(sockets, w);
    CPUsAre(nodes, w);
    CoresAre(nodes, w);
    NodesAre(nodes, w);
    SocketsAre(sockets, w);
    OneCache(nodes, w);
    MachineNested(nodes, w);
    if w == 1 {
      SocketIsNode(nodes);
    }
  }

  // ---- what is free

  ghost predicate Fitting(free: seq<nat>, sockets: nat, w: nat) {
    sockets > 0 && w > 0 && |free| == sockets * w && forall u :: 0 <= u < |free| ==> free[u] <= 6
  }

  function FreeDetails(free: seq<nat>, w: nat): CPUDetails
    requires w > 0
  {
    KeepOnly(Details(|free|, w), Available(free))
  }

  lemma FreeOn(free: seq<nat>, w: nat, u: int)
    requires w > 0 && 0 <= u < |free| && free[u] <= 6
    ensures Members(FreeDetails(free, w), Numa, u) == Range(6 * u, 6 * u + free[u])
    ensures |Members(FreeDetails(free, w), Numa, u)| == free[u]
  {
    RangeSize(6 * u, 6 * u + free[u]);
    forall c ensures c in Members(FreeDetails(free, w), Numa, u) <==> c in Range(6 * u, 6 * u + free[u]) {
      if 6 * u <= c < 6 * u + 6 {
        assert c / 6 == u && c % 6 == c - 6 * u;
      }
    }
  }

  lemma FreeIds(free: seq<nat>, sockets: nat, w: nat)
    requires Fitting(free, sockets, w)
    ensures forall u :: u in Units(FreeDetails(free, w), Numa) <==> 0 <= u < |free| && free[u] > 0
  {
    var d := FreeDetails(free, w);
    forall u ensures u in Units(d, Numa) <==> 0 <= u < |free| && free[u] > 0 {
      if 0 <= u < |free| && free[u] > 0 {
        assert 6 * u in d && UnitOf(d, Numa, 6 * u) == u;
      }
    }
  }

  /** The free counts of the machine are the given ones, whatever the order of the nodes. */
  lemma FreeIs(free: seq<nat>, sockets: nat, w: nat)
    requires Fitting(free, sockets, w)
    ensures var t, available := Machine(sockets, w), Available(free);
      && NoDup(FreeNodes(t, available)) && Covers(FreeCounts(t, available), FreeNodes(t, available))
      && (forall u :: u in FreeNodes(t, available) <==> 0 <= u < |free| && free[u] > 0)
      && (forall u :: u in FreeCounts(t, available) <==> 0 <= u < |free| && free[u] > 0)
      && forall u :: u in FreeCounts(t, available) ==> FreeCounts(t, available)[u] == free[u]
  {
    var t, available := Machine(sockets, w), Available(free);
    MachineWellFormed(sockets, w);
    FreeNodesFacts(t, available);
    NodesCovered(t, available);
    FreeIds(free, sockets, w);
    forall u | 0 <= u < |free| ensures |Members(KeepOnly(t.cpuDetails, available), Numa, u)| == free[u] {
      FreeOn(free, w, u);
    }
    assert forall u :: u in FreeNodes(t, available) <==> u in Elements(FreeNodes(t, available));
  }

  lemma FreeSize(free: seq<nat>, sockets: nat, w: nat)
    requires Fitting(free, sockets, w)
    ensures var t, available := Machine(sockets, w), Available(free);
      && Covers(FreeCounts(t, available), FreeNodes(t, available))
      && |t.cpuDetails.Keys * available| == Sum(FreeCounts(t, available), FreeNodes(t, available))
  {
    var t, available := Machine(sockets, w), Available(free);
    var d, numas := KeepOnly(t.cpuDetails, available), FreeNodes(t, available);
    MachineWellFormed(sockets, w);
    NodesCovered(t, available);
    FreeNodesFacts(t, available);
    UnionSize(d, numas, numas);
    KeepMembers(t.cpuDetails, available, Cpu, 0);
    AllMembers(d, Elements(numas));
  }

  /** With two nodes to a socket, the free nodes of a socket and its free CPUs. */
  lemma TwoInSocket(free: seq<nat>, s: int)
    requires 0 <= 2 * s && 2 * s + 1 < |free| && free[2 * s] <= 6 && free[2 * s + 1] <= 6
    ensures var d := FreeDetails(free, 2);
      && |Members(d, Socket, s)| == free[2 * s] + free[2 * s + 1]
      && forall u :: u in UnitsIn(d, Numa, Socket, s) <==> (u == 2 * s || u == 2 * s + 1) && free[u] > 0
  {
    var d := FreeDetails(free, 2);
    FreeOn(free, 2, 2 * s);
    FreeOn(free, 2, 2 * s + 1);
    SocketSplit(free, s);
    forall u ensures u in UnitsIn(d, Numa, Socket, s) <==> (u == 2 * s || u == 2 * s + 1) && free[u] > 0 {
      NodeInSocket(free, s, u);
    }
  }

  lemma NodeInSocket(free: seq<nat>, s: int, u: int)
    requires 0 <= 2 * s && 2 * s + 1 < |free|
    ensures u in UnitsIn(FreeDetails(free, 2), Numa, Socket, s) <==> (u == 2 * s || u == 2 * s + 1) && free[u] > 0
  {
    var d := FreeDetails(free, 2);
    if u in UnitsIn(d, Numa, Socket, s) {
      var c :| c in d && UnitOf(d, Socket, c) == s && UnitOf(d, Numa, c) == u;
    }
    if (u == 2 * s || u == 2 * s + 1) && free[u] > 0 {
      assert 6 * u in d && UnitOf(d, Socket, 6 * u) == s && UnitOf(d, Numa, 6 * u) == u;
    }
  }

  lemma SocketSplit(free: seq<nat>, s: int)
    ensures var d := FreeDetails(free, 2);
      && Members(d, Socket, s) == Members(d, Numa, 2 * s) + Members(d, Numa, 2 * s + 1)
      && Members(d, Numa, 2 * s) !! Members(d, Numa, 2 * s + 1)
  {
  }

  lemma AllMembers(d: CPUDetails, us: set<int>)
    requires us == Units(d, Numa)
    ensures MembersOf(d, Numa, us) == d.Keys
  {
  }

  /** A well-formed machine of six-CPU nodes on which the nodes have the given free CPUs. */
  ghost predicate HasFree(t: CPUTopology, available: set<int>, free: seq<nat>) {
    && WellFormed(t) && Uniform(t.cpuDetails, Numa, 6)
    && |t.cpuDetails.Keys| == 6 * |free| && |Units(t.cpuDetails, Numa)| == |free|
    && CountsAre(FreeCounts(t, available), FreeNodes(t, available), free)
    && |t.cpuDetails.Keys * available| == Sum(FreeCounts(t, available), FreeNodes(t, available))
  }

  ghost predicate CountsAre(counts: NodeCounts, numas: seq<int>, free: seq<nat>) {
    && NoDup(numas) && Covers(counts, numas)
    && (forall u :: u in numas <==> 0 <= u < |free| && free[u] > 0)
    && (forall u :: u in counts <==> 0 <= u < |free| && free[u] > 0)
    && (forall u :: u in counts ==> counts[u] == free[u])
  }

  lemma MachineHasFree(free: seq<nat>, sockets: nat, w: nat)
    requires Fitting(free, sockets, w)
    ensures HasFree(Machine(sockets, w), Available(free), free)
  {
    MachineWellFormed(sockets, w);
    FreeIs(free, sockets, w);
    FreeSize(free, sockets, w);
  }
}
