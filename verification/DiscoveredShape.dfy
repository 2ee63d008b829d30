/** Discovery from the settings of a known processor family gives a well-formed topology. */
module DiscoveredShape {
  import opened Arith
  import opened Sorting
  import opened Topology
  import opened NodeSettings
  import opened Discovery

  /** The layout of a machine: cores in equal runs per NUMA node, per socket and per L3 cache,
      second threads numbered after all the cores. */
  datatype Grid = Grid(cores: nat, threads: nat, perNuma: nat, nps: nat, perSocket: nat, sockets: nat, perCache: nat)

  ghost predicate Even(g: Grid) {
    && g.cores > 0 && (g.threads == 1 || g.threads == 2)
    && g.perNuma > 0 && g.nps > 0 && g.perNuma * g.nps == g.cores
    && g.perSocket > 0 && g.sockets > 0 && g.perSocket * g.sockets == g.cores
    && g.perCache > 0
  }

  function CPUsOf(g: Grid): nat {
    if g.threads == 2 then g.cores + g.cores else g.cores
  }

  /** The run of cores k*size .. k*size + size - 1 with all their threads. */
  function Run(g: Grid, size: nat, k: int): set<int> {
    Slice(k * size, size, g.cores, g.threads)
  }

  ghost predicate OnGrid(g: Grid, d: CPUDetails)
    requires g.perNuma > 0 && g.perSocket > 0 && g.perCache > 0
  {
    && (forall c :: c in d <==> 0 <= c < CPUsOf(g))
    && (forall c :: c in d ==> var k := CoreOf(c, g.cores);
          d[c] == CPUInfo(k / g.perNuma, k / g.perSocket, k, k / g.perCache))
  }

  // ---- the slices

  /** A slice takes its cores with all their threads. */
  ghost predicate InSlice(g: Grid, start: nat, size: nat, c: int) {
    0 <= c < CPUsOf(g) && start <= CoreOf(c, g.cores) < start + size
  }

  lemma SliceHolds(start: nat, size: nat, g: Grid)
    requires (g.threads == 1 || g.threads == 2) && start + size <= g.cores
    ensures forall c :: c in Slice(start, size, g.cores, g.threads) <==> InSlice(g, start, size, c)
  {
    RangeSize(start, start + size);
    RangeSize(start + g.cores, start + g.cores + size);
  }

  lemma SliceSize(start: nat, size: nat, g: Grid)
    requires (g.threads == 1 || g.threads == 2) && start + size <= g.cores
    ensures |Slice(start, size, g.cores, g.threads)| == if g.threads == 2 then size + size else size
  {
    if g.threads == 2 {
      RangesApart(start, size, g.cores);
      assert Slice(start, size, g.cores, g.threads)
          == Range(start, start + size) + Range(start + g.cores, start + g.cores + size);
    } else {
      RangeSize(start, start + size);
      assert Slice(start, size, g.cores, g.threads) == Range(start, start + size);
    }
  }

  lemma RangesApart(start: nat, size: nat, cores: nat)
    requires start + size <= cores
    ensures |Range(start, start + size) + Range(start + cores, start + cores + size)| == size + size
  {
    RangeSize(start, start + size);
    RangeSize(start + cores, start + cores + size);
    DisjointSize(Range(start, start + size), Range(start + cores, start + cores + size));
  }

  lemma DisjointSize(a: set<int>, b: set<int>)
    requires a !! b
    ensures |a + b| == |a| + |b|
  {
  }

  /** A run is where the core number divided by its size is k. */
  lemma RunHolds(g: Grid, size: nat, count: nat, k: nat)
    requires (g.threads == 1 || g.threads == 2) && size > 0 && size * count == g.cores && k < count
    ensures forall c :: c in Run(g, size, k) <==> 0 <= c < CPUsOf(g) && CoreOf(c, g.cores) / size == k
    ensures |Run(g, size, k)| == if g.threads == 2 then size + size else size
  {
    RunInside(size, count, k);
    SliceHolds(k * size, size, g);
    SliceSize(k * size, size, g);
    forall c | 0 <= c < CPUsOf(g)
      ensures k * size <= CoreOf(c, g.cores) < k * size + size <==> CoreOf(c, g.cores) / size == k
    {
      QuotientIs(CoreOf(c, g.cores), size, k);
    }
  }

  lemma RunInside(size: nat, count: nat, k: nat)
    requires k < count
    ensures 0 <= k * size && k * size + size <= size * count
  {
    MulMonotone(size, k + 1, count);
    assert size * (k + 1) == k * size + size;
  }

  lemma QuotientIs(x: nat, size: nat, k: nat)
    requires size > 0
    ensures k * size <= x < k * size + size <==> x / size == k
  {
    DivBounds(x, size);
    assert size * k == k * size;
    if k * size <= x < k * size + size {
      DivUnique(size, k, x);
    }
  }

  lemma QuotientBelow(x: nat, size: nat, count: nat)
    requires size > 0 && x < size * count
    ensures 0 <= x / size < count
  {
    DivBounds(x, size);
    if x / size >= count {
      MulMonotone(size, count, x / size);
    }
  }

  // ---- from settings to the grid

  /** The settings that describe a grid. */
  ghost predicate Describing(g: Grid, s: Settings)
    requires Even(g)
  {
    && s.numSockets == g.sockets && s.numThreads == g.threads
    && AtLeastOne(g.cores / AtLeastOne(s.numUncoreCaches)) == g.perCache
    && (forall i :: i in s.numaNodes <==> 0 <= i < g.nps)
    && (forall i :: i in s.numaNodes ==> s.numaNodes[i].cpus == Run(g, g.perNuma, i))
  }

  lemma {:induction false} EqualSum(m: map<int, Totals>, keys: set<int>, each: Totals)
    requires keys <= m.Keys && forall i :: i in keys ==> m[i].cpus == each.cpus && m[i].cores == each.cores
    ensures Sum(m, keys).cpus == |keys| * each.cpus && Sum(m, keys).cores == |keys| * each.cores
    decreases |keys|
  {
    if keys != {} {
      var i := Pick(keys);
      SumAny(m, keys, i);
      EqualSum(m, keys - {i}, each);
      OneMoreTime(|keys - {i}|, each.cpus);
      OneMoreTime(|keys - {i}|, each.cores);
    }
  }

  lemma NodeKeys(g: Grid, s: Settings)
    requires Even(g) && Describing(g, s)
    ensures |s.numaNodes.Keys| == g.nps && NodeTotals(s).Keys == s.numaNodes.Keys
  {
    RangeSize(0, g.nps);
    forall i ensures i in s.numaNodes.Keys <==> i in Range(0, g.nps) {
      assert i in s.numaNodes <==> 0 <= i < g.nps;
    }
    assert s.numaNodes.Keys == Range(0, g.nps);
  }

  lemma NodeOnGrid(g: Grid, s: Settings, i: int)
    requires Even(g) && Describing(g, s) && i in s.numaNodes
    ensures TotalsOf(s.numaNodes[i], s.numThreads).cpus == PerNode(g)
    ensures TotalsOf(s.numaNodes[i], s.numThreads).cores == g.perNuma
  {
    RunHolds(g, g.perNuma, g.nps, i);
    Halves(g.perNuma, g.threads, PerNode(g));
  }

  function PerNode(g: Grid): nat {
    if g.threads == 2 then g.perNuma + g.perNuma else g.perNuma
  }

  lemma TotalsOnGrid(g: Grid, s: Settings)
    requires Even(g) && Describing(g, s)
    ensures AllTotals(s).cpus == CPUsOf(g) && AllTotals(s).cores == g.cores
  {
    NodeKeys(g, s);
    var m := NodeTotals(s);
    forall i | i in m ensures m[i].cpus == PerNode(g) && m[i].cores == g.perNuma {
      NodeOnGrid(g, s, i);
    }
    EqualSum(m, m.Keys, Totals(PerNode(g), g.perNuma, 0));
    NodesMakeGrid(g);
  }

  lemma NodesMakeGrid(g: Grid)
    requires Even(g)
    ensures g.nps * PerNode(g) == CPUsOf(g) && g.nps * g.perNuma == g.cores
  {
    assert g.nps * (g.perNuma + g.perNuma) == g.nps * g.perNuma + g.nps * g.perNuma;
  }

  lemma Halves(size: nat, threads: nat, all: nat)
    requires (threads == 1 && all == size) || (threads == 2 && all == size + size)
    ensures all / AtLeastOne(threads) == size
  {
  }

  /** The socket number wraps around once for the second threads. */
  lemma SocketOf(g: Grid, c: nat)
    requires Even(g) && c < CPUsOf(g)
    ensures (c / g.perSocket) % g.sockets == CoreOf(c, g.cores) / g.perSocket
  {
    var k := CoreOf(c, g.cores);
    QuotientBelow(k, g.perSocket, g.sockets);
    DivBounds(k, g.perSocket);
    var q := k / g.perSocket;
    if c >= g.cores {
      assert g.perSocket * (q + g.sockets) == g.perSocket * q + g.cores;
      DivUnique(g.perSocket, q + g.sockets, c);
      DivModUnique(g.sockets, 1, q);
    } else {
      DivModUnique(g.sockets, 0, q);
    }
  }

  lemma ShapeOnGrid(g: Grid, s: Settings)
    requires Even(g) && Describing(g, s)
    ensures ShapeOf(s) == Shape(g.cores, g.sockets, g.perSocket, g.perCache)
  {
    TotalsOnGrid(g, s);
    DivModUnique(g.sockets, g.perSocket, 0);
    assert g.sockets * g.perSocket == g.cores;
  }

  lemma DescribedOnGrid(g: Grid, s: Settings, t: CPUTopology)
    requires Even(g) && Describing(g, s) && Describes(s, t)
    ensures t.numCPUs == CPUsOf(g) && t.numCores == g.cores && t.numSockets == g.sockets
    ensures OnGrid(g, t.cpuDetails)
  {
    TotalsOnGrid(g, s);
    ShapeOnGrid(g, s);
    FilledOnGrid(g, s, ShapeOf(s), t.cpuDetails);
  }

  lemma ListedBy(g: Grid, s: Settings, c: int, i: nat)
    requires Even(g) && Describing(g, s) && 0 <= c < CPUsOf(g) && i < g.nps && CoreOf(c, g.cores) / g.perNuma == i
    ensures i in s.numaNodes && c in s.numaNodes[i].cpus
  {
    RunHolds(g, g.perNuma, g.nps, i);
  }

  lemma FilledOnGrid(g: Grid, s: Settings, shape: Shape, d: CPUDetails)
    requires Even(g) && Describing(g, s) && shape == Shape(g.cores, g.sockets, g.perSocket, g.perCache)
    requires Fills(s.numaNodes, shape, d, s.numaNodes.Keys)
    ensures OnGrid(g, d)
  {
    forall c ensures c in d <==> 0 <= c < CPUsOf(g) {
      if c in d {
        RunHolds(g, g.perNuma, g.nps, d[c].numaNodeID);
      }
      if 0 <= c < CPUsOf(g) {
        QuotientBelow(CoreOf(c, g.cores), g.perNuma, g.nps);
        ListedBy(g, s, c, CoreOf(c, g.cores) / g.perNuma);
      }
    }
    forall c | c in d
      ensures var k := CoreOf(c, g.cores); d[c] == CPUInfo(k / g.perNuma, k / g.perSocket, k, k / g.perCache)
    {
      RunHolds(g, g.perNuma, g.nps, d[c].numaNodeID);
      SocketOf(g, c);
    }
  }

  // ---- the grid is well formed

  lemma CoreMembers(g: Grid, d: CPUDetails, k: nat)
    requires Even(g) && OnGrid(g, d) && k < g.cores
    ensures Members(d, Core, k) == if g.threads == 2 then {k, k + g.cores} else {k}
    ensures |Members(d, Core, k)| == g.threads
  {
    forall c | c in d ensures UnitOf(d, Core, c) == CoreOf(c, g.cores) {
    }
    var both := if g.threads == 2 then {k, k + g.cores} else {k};
    forall c ensures c in Members(d, Core, k) <==> c in both {
    }
    assert Members(d, Core, k) == both;
    assert |both| == g.threads;
  }

  /** A level whose units are runs of cores of one size has units of equal size. */
  lemma RunMembers(g: Grid, d: CPUDetails, l: Level, size: nat, count: nat, k: nat)
    requires Even(g) && OnGrid(g, d) && size > 0 && size * count == g.cores && k < count
    requires forall c :: c in d ==> UnitOf(d, l, c) == CoreOf(c, g.cores) / size
    ensures |Members(d, l, k)| == if g.threads == 2 then size + size else size
  {
    RunHolds(g, size, count, k);
    forall c ensures c in Members(d, l, k) <==> c in Run(g, size, k) {
    }
    assert Members(d, l, k) == Run(g, size, k);
  }

  lemma SocketMembers(g: Grid, d: CPUDetails, k: nat)
    requires Even(g) && OnGrid(g, d) && k < g.sockets
    ensures |Members(d, Socket, k)| == if g.threads == 2 then g.perSocket + g.perSocket else g.perSocket
  {
    RunMembers(g, d, Socket, g.perSocket, g.sockets, k);
  }

  /** Caches have one size when that size divides the cores. */
  lemma CachesEqual(g: Grid, d: CPUDetails)
    requires Even(g) && OnGrid(g, d) && g.cores % g.perCache == 0
    ensures Uniform(d, Uncore, if g.threads == 2 then g.perCache + g.perCache else g.perCache)
  {
    var count := g.cores / g.perCache;
    PositiveMultiple(g.cores, g.perCache);
    forall u | u in Units(d, Uncore)
      ensures |Members(d, Uncore, u)| == if g.threads == 2 then g.perCache + g.perCache else g.perCache
    {
      var c :| c in d && UnitOf(d, Uncore, c) == u;
      QuotientBelow(CoreOf(c, g.cores), g.perCache, count);
      RunMembers(g, d, Uncore, g.perCache, count, u);
    }
  }

  lemma FirstOfRun(g: Grid, d: CPUDetails, size: nat, count: nat, k: nat) returns (c: nat)
    requires Even(g) && OnGrid(g, d) && size > 0 && size * count == g.cores && k < count
    ensures c in d && CoreOf(c, g.cores) == c && c / size == k
  {
    RunInside(size, count, k);
    c := k * size;
    QuotientIs(c, size, k);
  }

  lemma CoreUnits(g: Grid, d: CPUDetails)
    requires Even(g) && OnGrid(g, d)
    ensures Units(d, Core) == Range(0, g.cores) && |Units(d, Core)| == g.cores
  {
    RangeSize(0, g.cores);
    forall u ensures u in Units(d, Core) <==> 0 <= u < g.cores {
      if 0 <= u < g.cores {
        assert u in d && UnitOf(d, Core, u) == u;
      }
    }
  }

  lemma SocketUnits(g: Grid, d: CPUDetails)
    requires Even(g) && OnGrid(g, d)
    ensures Units(d, Socket) == Range(0, g.sockets) && |Units(d, Socket)| == g.sockets
  {
    RangeSize(0, g.sockets);
    forall u ensures u in Units(d, Socket) <==> 0 <= u < g.sockets {
      if 0 <= u < g.sockets {
        var c := FirstOfRun(g, d, g.perSocket, g.sockets, u);
        assert UnitOf(d, Socket, c) == u;
      }
      if u in Units(d, Socket) {
        var c :| c in d && UnitOf(d, Socket, c) == u;
        QuotientBelow(CoreOf(c, g.cores), g.perSocket, g.sockets);
      }
    }
  }

  lemma NumaUnits(g: Grid, d: CPUDetails)
    requires Even(g) && OnGrid(g, d)
    ensures Units(d, Numa) == Range(0, g.nps) && |Units(d, Numa)| == g.nps
  {
    RangeSize(0, g.nps);
    forall u ensures u in Units(d, Numa) <==> 0 <= u < g.nps {
      if 0 <= u < g.nps {
        var c := FirstOfRun(g, d, g.perNuma, g.nps, u);
        assert UnitOf(d, Numa, c) == u;
      }
      if u in Units(d, Numa) {
        var c :| c in d && UnitOf(d, Numa, c) == u;
        QuotientBelow(CoreOf(c, g.cores), g.perNuma, g.nps);
      }
    }
  }

  lemma Sizes(g: Grid)
    requires Even(g)
    ensures CPUsOf(g) / g.cores == g.threads
    ensures CPUsOf(g) / g.sockets == if g.threads == 2 then g.perSocket + g.perSocket else g.perSocket
  {
    assert CPUsOf(g) == g.cores * g.threads;
    DivModUnique(g.cores, g.threads, 0);
    assert g.sockets * g.perSocket == g.cores && g.sockets * (g.perSocket + g.perSocket) == g.cores + g.cores;
    DivModUnique(g.sockets, g.perSocket, 0);
    DivModUnique(g.sockets, g.perSocket + g.perSocket, 0);
  }

  /** Runs whose size divides the size of other runs lie inside them. */
  lemma RunsNest(g: Grid, d: CPUDetails, inner: Level, outer: Level, a: nat, b: nat)
    requires a > 0 && b > 0 && a * b > 0
    requires forall c :: c in d ==> c >= 0 && CoreOf(c, g.cores) >= 0
    requires forall c :: c in d ==> UnitOf(d, inner, c) == CoreOf(c, g.cores) / a
    requires forall c :: c in d ==> UnitOf(d, outer, c) == CoreOf(c, g.cores) / (a * b)
    ensures Nested(d, inner, outer)
  {
    forall x, y | x in d && y in d && UnitOf(d, inner, x) == UnitOf(d, inner, y)
      ensures UnitOf(d, outer, x) == UnitOf(d, outer, y)
    {
      DivDiv(CoreOf(x, g.cores), a, b);
      DivDiv(CoreOf(y, g.cores), a, b);
    }
  }

  /** NUMA nodes are at least as many as sockets, and each lies in one. */
  lemma NumaInSocket(g: Grid, d: CPUDetails, per: nat)
    requires Even(g) && OnGrid(g, d) && per > 0 && g.perNuma * per == g.perSocket
    ensures Nested(d, Numa, Socket) && g.sockets <= g.nps
    ensures g.sockets == g.nps ==> Nested(d, Socket, Numa)
  {
    RunsNest(g, d, Numa, Socket, g.perNuma, per);
    assert g.perNuma * (per * g.sockets) == g.perSocket * g.sockets;
    SameFactor(g.perNuma, per * g.sockets, g.nps);
    MulMonotone(g.sockets, 1, per);
    if g.sockets == g.nps {
      SameFactor(g.sockets, g.perNuma, g.perSocket);
    }
  }

  lemma SameFactor(m: nat, a: nat, b: nat)
    requires m > 0 && m * a == m * b
    ensures a == b
  {
    MulCancel(m, a, b);
    MulCancel(m, b, a);
  }

  lemma GridWellFormed(g: Grid, per: nat, t: CPUTopology)
    requires Even(g) && OnGrid(g, t.cpuDetails) && per > 0 && g.perNuma * per == g.perSocket
    requires t.numCPUs == CPUsOf(g) && t.numCores == g.cores && t.numSockets == g.sockets
    requires t.numNUMANodes == |Units(t.cpuDetails, Numa)| && t.numUncoreCache == |Units(t.cpuDetails, Uncore)|
    ensures WellFormed(t)
  {
    var d := t.cpuDetails;
    RangeSize(0, CPUsOf(g));
    forall c ensures c in d.Keys <==> c in Range(0, CPUsOf(g)) {
      assert c in d <==> 0 <= c < CPUsOf(g);
    }
    assert d.Keys == Range(0, CPUsOf(g));
    CoreUnits(g, d);
    SocketUnits(g, d);
    NumaUnits(g, d);
    NumaInSocket(g, d, per);
    GridUniform(g, t);
    GridCores(g, d);
  }

  lemma GridUniform(g: Grid, t: CPUTopology)
    requires Even(g) && OnGrid(g, t.cpuDetails)
    requires t.numCPUs == CPUsOf(g) && t.numCores == g.cores && t.numSockets == g.sockets
    ensures Uniform(t.cpuDetails, Core, t.CPUsPerCore()) && Uniform(t.cpuDetails, Socket, t.CPUsPerSocket())
  {
    var d := t.cpuDetails;
    Sizes(g);
    CoreUnits(g, d);
    RangeSize(0, g.cores);
    forall u | u in Units(d, Core) ensures |Members(d, Core, u)| == g.threads {
      CoreMembers(g, d, u);
    }
    SocketUnits(g, d);
    RangeSize(0, g.sockets);
    forall u | u in Units(d, Socket) ensures |Members(d, Socket, u)| == t.CPUsPerSocket() {
      SocketMembers(g, d, u);
    }
  }

  lemma GridCores(g: Grid, d: CPUDetails)
    requires Even(g) && OnGrid(g, d)
    ensures Nested(d, Core, Numa) && Nested(d, Core, Socket) && Nested(d, Core, Uncore)
  {
    forall a, b | a in d && b in d && UnitOf(d, Core, a) == UnitOf(d, Core, b)
      ensures CoreOf(a, g.cores) == CoreOf(b, g.cores)
    {
    }
  }
}
