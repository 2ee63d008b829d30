/** CPU topology: which NUMA node, socket, L3 ("uncore") cache and core every CPU is in.
    The per-level query functions of the source (CPUsInX, XsInY, Xs) differ only in the
    field they look at, so each family is written once here and indexed by a Level. */
module Topology {
  import opened Sorting

  datatype Level = Numa | Socket | Uncore | Core | Cpu

  datatype CPUInfo = CPUInfo(numaNodeID: int, socketID: int, coreID: int, uncoreCacheID: int)

  type CPUDetails = map<int, CPUInfo>

  datatype CPUTopology = CPUTopology(
    numCPUs: int, numCores: int, numUncoreCache: int, numSockets: int, numNUMANodes: int,
    cpuDetails: CPUDetails)
  {
    function CPUsPerCore(): int {
      if numCores == 0 then 0 else numCPUs / numCores
    }

    function CPUsPerSocket(): int {
      if numSockets == 0 then 0 else numCPUs / numSockets
    }

    function CPUsPerUncore(): int {
      if numUncoreCache == 0 then 0 else numCPUs / numUncoreCache
    }
  }

  function UnitOf(d: CPUDetails, l: Level, cpu: int): int
    requires cpu in d
  {
    match l
    case Numa => d[cpu].numaNodeID
    case Socket => d[cpu].socketID
    case Uncore => d[cpu].uncoreCacheID
    case Core => d[cpu].coreID
    case Cpu => cpu
  }

  /** KeepOnly: the details of the supplied CPUs only. */
  function KeepOnly(d: CPUDetails, cpus: set<int>): CPUDetails {
    map c | c in d && c in cpus :: d[c]
  }

  /** CPUsInNUMANodes, CPUsInSockets, CPUsInUncoreCaches and CPUsInCores of one id. */
  function Members(d: CPUDetails, l: Level, u: int): set<int> {
    set c | c in d && UnitOf(d, l, c) == u
  }

  /** The same queries for several ids. */
  function MembersOf(d: CPUDetails, l: Level, us: set<int>): set<int> {
    set c | c in d && UnitOf(d, l, c) in us
  }

  /** NUMANodes, Sockets, UncoreCaches, Cores and CPUs. */
  function Units(d: CPUDetails, l: Level): set<int> {
    set c | c in d :: UnitOf(d, l, c)
  }

  /** SocketsInNUMANodes, NUMANodesInSockets, CoresInSockets, CoresInNUMANodes,
      UncoreInNUMANodes and coresInUncoreCache of one id. */
  function UnitsIn(d: CPUDetails, inner: Level, outer: Level, u: int): set<int> {
    set c | c in d && UnitOf(d, outer, c) == u :: UnitOf(d, inner, c)
  }

  /** The number of CPUs in every unit: the weight the sorts compare. */
  function Counts(d: CPUDetails, l: Level): map<int, int> {
    map u | u in Units(d, l) :: |Members(d, l, u)|
  }

  /** CoresNeededInUncoreCache: the cores of one cache, cut to the first n ids. */
  function CoresNeededInUncoreCache(d: CPUDetails, n: nat, u: int): (r: set<int>)
    ensures r <= UnitsIn(d, Core, Uncore, u)
    ensures |r| == if |UnitsIn(d, Core, Uncore, u)| <= n then |UnitsIn(d, Core, Uncore, u)| else n
    ensures forall x, y :: x in r && y in UnitsIn(d, Core, Uncore, u) - r ==> x < y
  {
    var cores := UnitsIn(d, Core, Uncore, u);
    if |cores| <= n then cores
    else
      var all := List(cores);
      NoDupSize(all[..n]);
      assert forall i :: n <= i < |all| ==> all[i] !in all[..n];
      Elements(all[..n])
  }

  /** Every inner unit lies in one outer unit. */
  ghost predicate Nested(d: CPUDetails, inner: Level, outer: Level) {
    forall a, b :: a in d && b in d && UnitOf(d, inner, a) == UnitOf(d, inner, b)
      ==> UnitOf(d, outer, a) == UnitOf(d, outer, b)
  }

  ghost predicate Uniform(d: CPUDetails, l: Level, size: int) {
    forall u :: u in Units(d, l) ==> |Members(d, l, u)| == size
  }

  /** What the allocator relies on. */
  ghost predicate WellFormed(t: CPUTopology) {
    var d := t.cpuDetails;
    && t.numCPUs == |d|
    && t.numCores == |Units(d, Core)|
    && t.numSockets == |Units(d, Socket)|
    && t.numNUMANodes == |Units(d, Numa)|
    && t.numUncoreCache == |Units(d, Uncore)|
    && Uniform(d, Core, t.CPUsPerCore())
    && Uniform(d, Socket, t.CPUsPerSocket())
    && Nested(d, Core, Numa) && Nested(d, Core, Socket) && Nested(d, Core, Uncore)
    && (if t.numSockets >= t.numNUMANodes then Nested(d, Socket, Numa) else Nested(d, Numa, Socket))
  }

  ghost predicate InOneNuma(d: CPUDetails, u: int) {
    forall a, b :: a in Members(d, Uncore, u) && b in Members(d, Uncore, u)
      ==> UnitOf(d, Numa, a) == UnitOf(d, Numa, b)
  }

  ghost predicate UnionOfNumas(d: CPUDetails, u: int) {
    forall a, b :: a in Members(d, Uncore, u) && b in d && UnitOf(d, Numa, a) == UnitOf(d, Numa, b)
      ==> b in Members(d, Uncore, u)
  }

  /** No L3 cache cuts through a NUMA node it shares with another one: each cache lies in
      one NUMA node or is made of whole NUMA nodes. */
  ghost predicate CachesAligned(t: CPUTopology) {
    forall u :: u in Units(t.cpuDetails, Uncore)
      ==> InOneNuma(t.cpuDetails, u) || UnionOfNumas(t.cpuDetails, u)
  }

  /** A whole NUMA node lies in the cache. */
  ghost predicate HoldsNode(d: CPUDetails, u: int) {
    exists k :: k in Units(d, Numa) && Members(d, Numa, k) <= Members(d, Uncore, u)
  }

  /** The cache lies in several NUMA nodes without holding one of them. */
  ghost predicate CutsNodes(d: CPUDetails, u: int) {
    !InOneNuma(d, u) && !HoldsNode(d, u)
  }

  ghost predicate NoCacheCuts(t: CPUTopology) {
    forall u :: u in Units(t.cpuDetails, Uncore) ==> !CutsNodes(t.cpuDetails, u)
  }

  lemma AlignedDontCut(t: CPUTopology)
    requires CachesAligned(t)
    ensures NoCacheCuts(t)
  {
    var d := t.cpuDetails;
    forall u | u in Units(d, Uncore) ensures !CutsNodes(d, u) {
      MembersNonEmpty(d, Uncore, u);
      var c := Pick(Members(d, Uncore, u));
      var k := UnitOf(d, Numa, c);
      assert k in Units(d, Numa);
      if UnionOfNumas(d, u) {
        assert Members(d, Numa, k) <= Members(d, Uncore, u);
      }
    }
  }

  lemma KeepMembers(d: CPUDetails, s: set<int>, l: Level, u: int)
    ensures Members(KeepOnly(d, s), l, u) == Members(d, l, u) * s
    ensures KeepOnly(d, s).Keys == d.Keys * s
  {
  }

  lemma KeepNested(d: CPUDetails, s: set<int>, inner: Level, outer: Level)
    requires Nested(d, inner, outer)
    ensures Nested(KeepOnly(d, s), inner, outer)
  {
    var e := KeepOnly(d, s);
    forall a, b | a in e && b in e && UnitOf(e, inner, a) == UnitOf(e, inner, b)
      ensures UnitOf(e, outer, a) == UnitOf(e, outer, b)
    {
      assert UnitOf(d, inner, a) == UnitOf(d, inner, b);
    }
  }

  lemma MembersNonEmpty(d: CPUDetails, l: Level, u: int)
    requires u in Units(d, l)
    ensures Members(d, l, u) != {} && |Members(d, l, u)| > 0
  {
    var c :| c in d && UnitOf(d, l, c) == u;
    assert c in Members(d, l, u);
  }

  lemma {:induction false} UniformTotal(d: CPUDetails, l: Level, us: set<int>, size: int)
    requires us <= Units(d, l) && Uniform(d, l, size)
    ensures |MembersOf(d, l, us)| == |us| * size
    decreases |us|
  {
    if us == {} {
      assert MembersOf(d, l, us) == {};
    } else {
      var u := Pick(us);
      UniformTotal(d, l, us - {u}, size);
      assert MembersOf(d, l, us) == MembersOf(d, l, us - {u}) + Members(d, l, u);
      assert MembersOf(d, l, us - {u}) !! Members(d, l, u);
      assert (|us| - 1) * size + size == |us| * size;
    }
  }
}
