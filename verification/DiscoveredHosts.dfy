/** What discovery makes of the hosts of the known processor families. */
module DiscoveredHosts {
  import opened Arith
  import opened Sorting
  import opened Topology
  import opened PackedModel
  import opened PackedExact
  import opened NodeSettings
  import opened Discovery
  import opened SplitCache
  import opened DiscoveredShape

  /** A host of a known family whose cores split evenly over its NUMA nodes, with one or two
      threads a core. */
  ghost predicate Sound(n: Host) {
    && (n.Family().Epyc? || n.Family().Amd? || n.Family().Intel?)
    && n.sockets > 0 && n.cores > 0 && n.cores % NodeCount(n) == 0
    && (n.cpus == n.cores || n.cpus == n.cores + n.cores)
  }

  function HostGrid(n: Host): Grid
    requires n.sockets > 0 && n.cores > 0
  {
    Grid(n.cores, n.cpus / n.cores, n.cores / NodeCount(n), NodeCount(n), n.cores / n.sockets, n.sockets,
         AtLeastOne(n.cores / AtLeastOne(Caches(n))))
  }

  lemma Threads(n: Host)
    requires Sound(n)
    ensures n.cpus / n.cores == if n.cpus == n.cores then 1 else 2
    ensures n.cpus > 0
  {
    DivModUnique(n.cores, 1, 0);
    DivModUnique(n.cores, 2, 0);
  }

  lemma PerSocket(n: Host)
    requires Sound(n)
    ensures var per := NodesPerSocket(n.Family());
      && per > 0 && (n.cores / NodeCount(n)) * NodeCount(n) == n.cores && n.cores / NodeCount(n) > 0
      && n.cores / n.sockets == (n.cores / NodeCount(n)) * per
      && (n.cores / n.sockets) * n.sockets == n.cores
  {
    var per, size := NodesPerSocket(n.Family()), n.cores / NodeCount(n);
    PositiveMultiple(n.cores, NodeCount(n));
    assert NodeCount(n) == per * n.sockets;
    assert n.cores == n.sockets * (size * per);
    DivModUnique(n.sockets, size * per, 0);
  }

  lemma HostEven(n: Host)
    requires Sound(n)
    ensures Even(HostGrid(n))
  {
    Threads(n);
    PerSocket(n);
  }

  lemma HostDescribing(n: Host)
    requires Sound(n)
    ensures BuiltFor(n).Known? && Even(HostGrid(n)) && Describing(HostGrid(n), BuiltFor(n).settings)
  {
    HostEven(n);
    Threads(n);
    PerSocket(n);
  }

  lemma HostOnGrid(n: Host, t: CPUTopology)
    requires Sound(n)
    requires BuiltFor(n).Known? && Describes(BuiltFor(n).settings, t)
    ensures Even(HostGrid(n)) && OnGrid(HostGrid(n), t.cpuDetails) && CPUsOf(HostGrid(n)) == n.cpus
    ensures t.numCPUs == n.cpus && t.numCores == n.cores && t.numSockets == n.sockets
  {
    HostDescribing(n);
    DescribedOnGrid(HostGrid(n), BuiltFor(n).settings, t);
    Threads(n);
  }

  ghost predicate Alike(d: CPUDetails, a: int, b: int) {
    a in d && b in d && d[a] == d[b]
  }

  /** The second thread of every core sits where the first does. */
  ghost predicate Paired(d: CPUDetails, cores: nat) {
    forall c :: c in d && c >= cores ==> Alike(d, c, c - cores)
  }

  lemma SecondThreads(g: Grid, d: CPUDetails)
    requires Even(g) && OnGrid(g, d)
    ensures Paired(d, g.cores)
  {
    forall c | c in d && c >= g.cores ensures Alike(d, c, c - g.cores) {
      SecondThread(g, d, c);
    }
  }

  lemma SecondThread(g: Grid, d: CPUDetails, c: int)
    requires Even(g) && OnGrid(g, d) && c in d && c >= g.cores
    ensures Alike(d, c, c - g.cores)
  {
    assert c - g.cores in d;
  }

  lemma GridIds(g: Grid, d: CPUDetails)
    requires Even(g) && OnGrid(g, d)
    ensures forall c :: c in d <==> 0 <= c < CPUsOf(g)
    ensures forall c :: 0 <= c < g.cores ==> c in d && UnitOf(d, Core, c) == c
  {
  }

  /** Discovery establishes what the allocator relies on: equal cores and sockets, a core and
      its second thread together, every core in one NUMA node, every NUMA node in one socket. */
  lemma DiscoveryWellFormed(n: Host, t: CPUTopology)
    requires Sound(n)
    requires BuiltFor(n).Known? && Describes(BuiltFor(n).settings, t)
    ensures WellFormed(t)
    ensures forall c :: c in t.cpuDetails <==> 0 <= c < n.cpus
    ensures forall c :: 0 <= c < n.cores ==> UnitOf(t.cpuDetails, Core, c) == c
    ensures Paired(t.cpuDetails, n.cores)
    ensures Nested(t.cpuDetails, Numa, Socket) && t.numNUMANodes == NodeCount(n) && t.numSockets == n.sockets
  {
    HostOnGrid(n, t);
    GridIds(HostGrid(n), t.cpuDetails);
    SecondThreads(HostGrid(n), t.cpuDetails);
    HostNests(n, t);
  }

  lemma HostNests(n: Host, t: CPUTopology)
    requires Sound(n)
    requires BuiltFor(n).Known? && Describes(BuiltFor(n).settings, t)
    ensures WellFormed(t) && Nested(t.cpuDetails, Numa, Socket) && t.numNUMANodes == NodeCount(n)
  {
    HostOnGrid(n, t);
    PerSocket(n);
    GridWellFormed(HostGrid(n), NodesPerSocket(n.Family()), t);
    NumaInSocket(HostGrid(n), t.cpuDetails, NodesPerSocket(n.Family()));
    NumaUnits(HostGrid(n), t.cpuDetails);
  }

  // ---- L3 caches

  predicate CachesFit(g: Grid)
    requires g.perNuma > 0 && g.perCache > 0
  {
    g.nps == 1 || g.perCache >= g.cores || g.perNuma % g.perCache == 0 || g.perCache % g.perNuma == 0
  }

  lemma OneNumaEnough(g: Grid, d: CPUDetails, u: int)
    requires Even(g) && OnGrid(g, d) && (g.nps == 1 || g.perNuma % g.perCache == 0)
    ensures InOneNuma(d, u)
  {
    forall a, b | a in Members(d, Uncore, u) && b in Members(d, Uncore, u)
      ensures UnitOf(d, Numa, a) == UnitOf(d, Numa, b)
    {
      var x, y := CoreOf(a, g.cores), CoreOf(b, g.cores);
      if g.nps == 1 {
        QuotientBelow(x, g.perNuma, g.nps);
        QuotientBelow(y, g.perNuma, g.nps);
      } else {
        PositiveMultiple(g.perNuma, g.perCache);
        DivDiv(x, g.perCache, g.perNuma / g.perCache);
        DivDiv(y, g.perCache, g.perNuma / g.perCache);
      }
    }
  }

  lemma WholeNumasEnough(g: Grid, d: CPUDetails, u: int)
    requires Even(g) && OnGrid(g, d) && (g.perCache >= g.cores || g.perCache % g.perNuma == 0)
    ensures UnionOfNumas(d, u)
  {
    forall a, b | a in Members(d, Uncore, u) && b in d && UnitOf(d, Numa, a) == UnitOf(d, Numa, b)
      ensures UnitOf(d, Uncore, b) == UnitOf(d, Uncore, a)
    {
      var x, y := CoreOf(a, g.cores), CoreOf(b, g.cores);
      if g.perCache >= g.cores {
        QuotientIs(x, g.perCache, 0);
        QuotientIs(y, g.perCache, 0);
      } else {
        PositiveMultiple(g.perCache, g.perNuma);
        DivDiv(x, g.perNuma, g.perCache / g.perNuma);
        DivDiv(y, g.perNuma, g.perCache / g.perNuma);
      }
    }
  }

  lemma OnCore(g: Grid, d: CPUDetails, c: nat)
    requires Even(g) && OnGrid(g, d) && c < g.cores
    ensures c in d && UnitOf(d, Numa, c) == c / g.perNuma && UnitOf(d, Uncore, c) == c / g.perCache
  {
  }

  /** Caches smaller than a NUMA node that do not divide it: one straddles its end. */
  lemma StraddlingCache(g: Grid, d: CPUDetails) returns (u: int)
    requires Even(g) && OnGrid(g, d) && g.nps > 1 && g.perCache < g.perNuma && g.perNuma % g.perCache != 0
    ensures u in Units(d, Uncore) && !InOneNuma(d, u) && !UnionOfNumas(d, u)
  {
    MulMonotone(g.perNuma, 2, g.nps);
    var a, b := g.perNuma - 1, g.perNuma;
    u := b / g.perCache;
    DivBounds(b, g.perCache);
    assert b == g.perCache * u + b % g.perCache;
    QuotientIs(a, g.perCache, u);
    OnCore(g, d, a);
    OnCore(g, d, b);
    QuotientIs(a, g.perNuma, 0);
    QuotientIs(b, g.perNuma, 1);
    assert a in Members(d, Uncore, u) && b in Members(d, Uncore, u);
    OnCore(g, d, 0);
    DivBounds(0, g.perNuma);
    if u <= 0 {
      MulMonotone(g.perCache, u, 0);
    }
    assert 0 !in Members(d, Uncore, u) && UnitOf(d, Numa, 0) == UnitOf(d, Numa, a);
  }

  lemma CutAt(size: nat, cache: nat) returns (m: nat)
    requires 0 < size < cache && cache % size != 0
    ensures m >= 1 && cache / size == m && (cache - 1) / size == m
    ensures (cache - 1) / cache == 0 && cache / cache == 1 && 0 / cache == 0 && 0 / size == 0
  {
    DivBounds(cache, size);
    m := cache / size;
    assert cache == size * m + cache % size;
    DivUnique(size, m, cache - 1);
    DivUnique(cache, 0, cache - 1);
    DivUnique(cache, 1, cache);
    DivUnique(cache, 0, 0);
    DivUnique(size, 0, 0);
    if m <= 0 {
      MulMonotone(size, m, 0);
    }
  }

  /** Caches larger than a NUMA node that are not made of whole ones: the first one ends
      inside a NUMA node. */
  lemma CuttingCache(g: Grid, d: CPUDetails)
    requires Even(g) && OnGrid(g, d) && g.perNuma < g.perCache < g.cores && g.perCache % g.perNuma != 0
    ensures 0 in Units(d, Uncore) && !InOneNuma(d, 0) && !UnionOfNumas(d, 0)
  {
    var a, b := g.perCache - 1, g.perCache;
    var m := CutAt(g.perNuma, g.perCache);
    OnCore(g, d, 0);
    OnCore(g, d, a);
    OnCore(g, d, b);
    assert 0 in Members(d, Uncore, 0) && a in Members(d, Uncore, 0) && b !in Members(d, Uncore, 0);
  }

  /** The caches of a discovered machine are aligned exactly when it has one NUMA node or one
      cache, or the smaller of the two sizes divides the other. */
  lemma CachesAlignedIff(g: Grid, t: CPUTopology)
    requires Even(g) && OnGrid(g, t.cpuDetails)
    ensures CachesAligned(t) <==> CachesFit(g)
  {
    var d := t.cpuDetails;
    if CachesFit(g) {
      forall u | u in Units(d, Uncore) ensures InOneNuma(d, u) || UnionOfNumas(d, u) {
        if g.nps == 1 || g.perNuma % g.perCache == 0 {
          OneNumaEnough(g, d, u);
        } else {
          WholeNumasEnough(g, d, u);
        }
      }
    } else if g.perCache < g.perNuma {
      var u := StraddlingCache(g, d);
    } else {
      NotEqual(g);
      CuttingCache(g, d);
    }
  }

  lemma NotEqual(g: Grid)
    requires g.perNuma > 0 && g.perCache >= g.perNuma && g.perCache % g.perNuma != 0
    ensures g.perCache > g.perNuma
  {
    DivModUnique(g.perNuma, 1, 0);
  }

  /** The same for a host, from the numbers of its settings alone. */
  lemma HostCachesAligned(n: Host, t: CPUTopology)
    requires Sound(n)
    requires BuiltFor(n).Known? && Describes(BuiltFor(n).settings, t)
    ensures HostGrid(n).perNuma > 0 && (CachesAligned(t) <==> CachesFit(HostGrid(n)))
  {
    HostOnGrid(n, t);
    CachesAlignedIff(HostGrid(n), t);
  }

  lemma PlainCachesFit(n: Host)
    requires Sound(n) && !n.Family().Epyc?
    ensures HostGrid(n).perNuma > 0 && CachesFit(HostGrid(n))
  {
    HostEven(n);
    var g := HostGrid(n);
    if n.Family().Intel? {
      assert g.perCache == g.perNuma;
      DivModUnique(g.perNuma, 1, 0);
    } else {
      assert g.perCache == g.cores;
    }
  }

  lemma PlainHost(n: Host, t: CPUTopology)
    requires Sound(n) && !n.Family().Epyc?
    requires BuiltFor(n).Known? && Describes(BuiltFor(n).settings, t)
    ensures WellFormed(t) && CachesAligned(t)
  {
    HostNests(n, t);
    HostCachesAligned(n, t);
    PlainCachesFit(n);
  }

  /** Packed allocation is exact, for any free set, request and strategy, aligned or not. */
  ghost predicate PacksExactly(t: CPUTopology) {
    WellFormed(t)
    && forall available, k, strategy, align :: var r := Packed(t, available, k, strategy, align);
         if k > |t.cpuDetails.Keys * available| then r == NotEnough
         else r.Ok? && r.cpus <= t.cpuDetails.Keys * available && |r.cpus| == if k < 1 then 0 else k
  }

  lemma UncutPacksExactly(t: CPUTopology)
    requires WellFormed(t) && NoCacheCuts(t)
    ensures PacksExactly(t)
  {
    forall available, k, strategy, align
      ensures var r := Packed(t, available, k, strategy, align);
        if k > |t.cpuDetails.Keys * available| then r == NotEnough
        else r.Ok? && r.cpus <= t.cpuDetails.Keys * available && |r.cpus| == if k < 1 then 0 else k
    {
      PackedCorrect(t, available, k, strategy, align);
    }
  }

  /** Packed allocation is exact on every discovered Intel or plain AMD host. */
  lemma DiscoveredHostsPackExactly(n: Host, t: CPUTopology)
    requires Sound(n) && !n.Family().Epyc?
    requires BuiltFor(n).Known? && Describes(BuiltFor(n).settings, t)
    ensures PacksExactly(t)
  {
    PlainHost(n, t);
    AlignedDontCut(t);
    UncutPacksExactly(t);
  }

  /** On a discovered host whose cache size divides its cores a call is exact precisely when the
      first free caches on the list, as many as fit into the need, are pairwise different. */
  lemma HostPacksIff(n: Host, t: CPUTopology, available: set<int>, k: int, strategy: string, align: bool)
    requires Sound(n) && n.cores % HostGrid(n).perCache == 0 && 1 <= k <= |t.cpuDetails.Keys * available|
    requires BuiltFor(n).Known? && Describes(BuiltFor(n).settings, t)
    ensures WellFormed(t)
    ensures var a, size := AtCaches(t, available, k), HostGrid(n).perCache * (n.cpus / n.cores);
      Packed(t, available, k, strategy, align).Ok?
      && (|Packed(t, available, k, strategy, align).cpus| == k
          <==> !align || Satisfied(a) || FirstDiffer(FreeUnits(t, Uncore, a.details), a.needed, size))
  {
    HostNests(n, t);
    HostOnGrid(n, t);
    Threads(n);
    CachesEqual(HostGrid(n), t.cpuDetails);
    EqualCachesIff(t, available, k, strategy, align, HostGrid(n).perCache * (n.cpus / n.cores));
  }

  /** The EPYC builder writes down the caches of one socket where discovery reads those of the
      machine, and rounds down when the cores of a socket do not fill whole caches. The size
      comes out right if and only if there is one socket and fewer cores are left over than it
      has whole caches; a socket smaller than a cache makes the whole machine one cache. */
  lemma EpycCacheSize(n: Host)
    requires Sound(n) && n.Family().Epyc?
    ensures var ccx, per, size := CoresPerCCX(n.Family().second), n.cores / n.sockets, HostGrid(n).perCache;
      if 0 < ccx <= per then
        && per / ccx > 0 && size == n.sockets * ccx + n.sockets * (per % ccx) / (per / ccx)
        && (size == ccx <==> n.sockets == 1 && per % ccx < per / ccx)
      else size == n.cores
  {
    var ccx, per := CoresPerCCX(n.Family().second), n.cores / n.sockets;
    PerSocket(n);
    if 0 < ccx <= per {
      DivMonotone(ccx, per, ccx);
      DivModUnique(ccx, 1, 0);
      CacheShare(n.sockets, ccx, per);
      RightSize(n.sockets, ccx, n.sockets * (per % ccx), per / ccx, per % ccx);
    } else if ccx > 0 {
      DivUnique(ccx, 0, per);
    }
  }

  lemma RightSize(sockets: nat, ccx: nat, rest: nat, m: nat, left: nat)
    requires sockets > 0 && ccx > 0 && m > 0 && rest == sockets * left
    ensures sockets * ccx + rest / m == ccx <==> sockets == 1 && left < m
  {
    DivBounds(rest, m);
    if sockets > 1 {
      MulMonotone(ccx, 2, sockets);
      DivMonotone(0, rest, m);
    } else if left < m {
      DivUnique(m, 0, left);
    } else {
      DivMonotone(m, left, m);
      DivModUnique(m, 1, 0);
    }
  }

  lemma CacheShare(sockets: nat, ccx: nat, per: nat)
    requires sockets > 0 && ccx > 0 && per / ccx > 0
    ensures AtLeastOne(per * sockets / (per / ccx)) == sockets * ccx + sockets * (per % ccx) / (per / ccx)
  {
    var m, rest := per / ccx, sockets * (per % ccx);
    assert per == ccx * m + per % ccx;
    assert per * sockets == m * (sockets * ccx) + rest by {
      assert (ccx * m) * sockets == m * (sockets * ccx);
    }
    assert rest == m * (rest / m) + rest % m;
    assert m * (sockets * ccx) + m * (rest / m) == m * (sockets * ccx + rest / m);
    DivModUnique(m, sockets * ccx + rest / m, rest % m);
    MulMonotone(sockets, 1, ccx);
  }

  /** Whatever follows the number, the name is that of an EPYC 7352. */
  lemma Name7352(rest: string)
    ensures ModelOf(EpycName("", " ", "7352", "", " " + rest)) == Epyc(3, 2)
  {
    NumberFound("", " ", "7352", "", " " + rest);
  }

  /** Two sockets with an EPYC 7352: caches of four cores are discovered as caches of eight. */
  lemma EpycDoublesCaches(n: Host)
    requires n.Family() == Epyc(3, 2) && n.cpus == 96 && n.cores == 48 && n.sockets == 2
    ensures Sound(n) && CoresPerCCX(3) == 4 && HostGrid(n).perCache == 8
  {
  }

  /** A 24-core EPYC 7352, on which caches of four cores cut NUMA nodes of six: the one of
      cores four to seven lies in two nodes and holds neither. */
  lemma EpycCutsNodes(n: Host, t: CPUTopology)
    requires n.Family() == Epyc(3, 2) && n.cpus == 48 && n.cores == 24 && n.sockets == 1
    requires BuiltFor(n).Known? && Describes(BuiltFor(n).settings, t)
    ensures WellFormed(t) && CutsNodes(t.cpuDetails, 1)
  {
    Grid7352(n);
    HostNests(n, t);
    HostOnGrid(n, t);
    CacheOneCut(t.cpuDetails);
  }

  lemma Grid7352(n: Host)
    requires n.Family() == Epyc(3, 2) && n.cpus == 48 && n.cores == 24 && n.sockets == 1
    ensures Sound(n) && HostGrid(n) == Grid(24, 2, 6, 4, 24, 1, 4)
  {
    assert NodeCount(n) == 4 && Caches(n) == 6;
  }

  /** Cores four to seven of caches of four and NUMA nodes of six. */
  lemma CacheOneCut(d: CPUDetails)
    requires OnGrid(Grid(24, 2, 6, 4, 24, 1, 4), d)
    ensures CutsNodes(d, 1)
  {
    assert 5 in d && 6 in d && UnitOf(d, Uncore, 5) == UnitOf(d, Uncore, 6) == 1;
    assert UnitOf(d, Numa, 5) == 0 && UnitOf(d, Numa, 6) == 1;
    assert 5 in Members(d, Uncore, 1) && 6 in Members(d, Uncore, 1);
    forall k | k in Units(d, Numa) ensures !(Members(d, Numa, k) <= Members(d, Uncore, 1)) {
      assert 0 <= k < 4;
      assert 6 * k in d && UnitOf(d, Numa, 6 * k) == k && 6 * k + 5 in d && UnitOf(d, Numa, 6 * k + 5) == k;
      assert 6 * k in Members(d, Numa, k) && 6 * k + 5 in Members(d, Numa, k);
    }
  }

  /** The bytes of the machine are split evenly; fewer than one byte a node is lost. */
  lemma MemorySplit(n: Host)
    requires Sound(n) && BuiltFor(n).Known?
    ensures var total := AllTotals(BuiltFor(n).settings).memory; n.memory - NodeCount(n) < total <= n.memory
  {
    var s := BuiltFor(n).settings;
    HostDescribing(n);
    NodeKeys(HostGrid(n), s);
    EqualMemory(NodeTotals(s), NodeTotals(s).Keys, n.memory / NodeCount(n));
    DivBounds(n.memory, NodeCount(n));
    assert NodeCount(n) * (n.memory / NodeCount(n)) == (n.memory / NodeCount(n)) * NodeCount(n);
  }

  lemma {:induction false} EqualMemory(m: map<int, Totals>, keys: set<int>, each: nat)
    requires keys <= m.Keys && forall i :: i in keys ==> m[i].memory == each
    ensures Sum(m, keys).memory == |keys| * each
    decreases |keys|
  {
    if keys != {} {
      var i := Pick(keys);
      SumAny(m, keys, i);
      EqualMemory(m, keys - {i}, each);
      OneMoreTime(|keys - {i}|, each);
    }
  }

  // ---- the machine of module SplitCache

  /** Settings of a single-threaded six-core machine with two NUMA nodes and three caches. */
  function SixCores(memory: nat): Settings {
    Settings(6, 1, 1, 3, map[0 := NUMAInfo(Range(0, 3), memory), 1 := NUMAInfo(Range(3, 6), memory)])
  }

  lemma SixCoresDescribing(memory: nat)
    ensures var g := Grid(6, 1, 3, 2, 6, 1, 2); Even(g) && Describing(g, SixCores(memory))
  {
    var g := Grid(6, 1, 3, 2, 6, 1, 2);
    assert Run(g, 3, 0) == Range(0, 3) && Run(g, 3, 1) == Range(3, 6);
  }

  /** Discovery turns these settings into exactly the machine on which the cache-aligned mode
      reports success with too few CPUs. */
  lemma SplitMachineDiscovered(memory: nat, t: CPUTopology)
    requires Describes(SixCores(memory), t)
    ensures t == Machine()
  {
    var g := Grid(6, 1, 3, 2, 6, 1, 2);
    SixCoresDescribing(memory);
    DescribedOnGrid(g, SixCores(memory), t);
    SixOnGrid(t.cpuDetails);
    MachineCounts();
  }

  lemma SixOnGrid(d: CPUDetails)
    requires var g := Grid(6, 1, 3, 2, 6, 1, 2); Even(g) && OnGrid(g, d)
    ensures d == Cores(0, 6)
  {
    forall c ensures c in d <==> c in Cores(0, 6) {
    }
    forall c | c in d ensures d[c] == Cores(0, 6)[c] {
      assert CoreOf(c, 6) == c && c / 6 == 0;
    }
  }
}
