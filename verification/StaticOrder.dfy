/** What the static policy's options make of packed allocation: cores are kept together, and a
    small request is kept on one L3 cache. */
module StaticOrder {
  import opened Arith
  import opened Topology
  import opened PackedModel
  import opened StageOrder
  import opened CacheOrder
  import opened CoreCuts
  import opened CoreSplit

  /** No socket, NUMA node or cache that is wholly free fits into n CPUs, and n is less than an
      average cache. */
  ghost predicate SmallRequest(t: CPUTopology, free: set<int>, n: int) {
    && n < t.CPUsPerUncore()
    && (forall k :: Whole(t, Socket, free, k) ==> |Members(t.cpuDetails, Socket, k)| > n)
    && (forall k :: Whole(t, Numa, free, k) ==> |Members(t.cpuDetails, Numa, k)| > n)
  }

  /** What is free of cache u are whole cores, enough for n CPUs. */
  ghost predicate HoldsCores(t: CPUTopology, free: set<int>, n: int, u: int) {
    && WholeCores(t, free * Members(t.cpuDetails, Uncore, u))
    && n <= |free * Members(t.cpuDetails, Uncore, u)|
    && (t.CPUsPerCore() <= 2 || n % t.CPUsPerCore() == 0)
  }

  ghost predicate WithinOneCache(t: CPUTopology, s: set<int>) {
    exists v :: s <= Members(t.cpuDetails, Uncore, v)
  }

  /** Cores stay together whatever is free; a small request stays on one cache if one has the
      cores for it; and the order of units, caches, cores and CPUs is that of packed allocation
      aligned to caches. */
  ghost predicate TakenWell(t: CPUTopology, free: set<int>, n: int, s: set<int>) {
    && AtMostOneCut(t, free, s)
    && (WholeCores(t, free) ==> AtMostOneSplit(t, s))
    && (WholeCores(t, free) && t.CPUsPerCore() > 0 && n % t.CPUsPerCore() == 0 ==> WholeCores(t, s))
    && (n >= 1 && SmallRequest(t, free, n) && (exists u :: HoldsCores(t, free, n, u)) ==> WithinOneCache(t, s))
    && (n >= 1 ==> InOrder(t, free, n, "packed", true, s))
  }

  // ---- a cache with the cores for a request fits it

  lemma CoreRank(t: CPUTopology, free: set<int>, u: int, cpus: set<int>, size: int)
    requires WellFormed(t) && size == t.CPUsPerCore() > 0 && cpus == free * Members(t.cpuDetails, Uncore, u)
    requires WholeCores(t, cpus)
    ensures CoresOn(t, free, u) <= Units(t.cpuDetails, Core)
    ensures MembersOf(t.cpuDetails, Core, CoresOn(t, free, u)) == cpus
    ensures |cpus| == |CoresOn(t, free, u)| * size
  {
    var cores := CoresOn(t, free, u);
    forall k | k in cores ensures k in Units(t.cpuDetails, Core) && Members(t.cpuDetails, Core, k) <= cpus {
      var c :| c in t.cpuDetails && c in free && UnitOf(t.cpuDetails, Uncore, c) == u && UnitOf(t.cpuDetails, Core, c) == k;
      assert c in Members(t.cpuDetails, Core, k) * cpus;
      assert !SplitsCore(t, cpus, k);
    }
    forall c ensures c in MembersOf(t.cpuDetails, Core, cores) <==> c in cpus {
      if c in MembersOf(t.cpuDetails, Core, cores) {
        assert c in Members(t.cpuDetails, Core, UnitOf(t.cpuDetails, Core, c));
      }
    }
    UniformTotal(t.cpuDetails, Core, cores, size);
  }

  lemma CeilTimes(n: int, size: int, have: int)
    requires size > 0 && n >= 1 && have * size >= n && (size <= 2 || n % size == 0)
    ensures var m := (n + size - 1) / size;
      0 <= m <= have && (m * size == n || (n % 2 != 0 && size > 1 && m * size == n + 1))
  {
    var m := (n + size - 1) / size;
    CeilRank(0, n, size);
    CeilRank(have, n, size);
    if n % size == 0 {
      assert n + size - 1 == size * (n / size) + (size - 1);
      DivModUnique(size, n / size, size - 1);
    }
  }

  lemma LowestSize(t: CPUTopology, free: set<int>, u: int, n: int, cores: set<int>, size: int)
    requires WellFormed(t) && size == t.CPUsPerCore() > 0 && cores <= CoresOn(t, free, u)
    requires WholeCores(t, free * Members(t.cpuDetails, Uncore, u))
    ensures |MembersOf(KeepOnly(t.cpuDetails, free), Core, cores)| == |cores| * size
  {
    var cpus := free * Members(t.cpuDetails, Uncore, u);
    CoreRank(t, free, u, cpus, size);
    UniformTotal(t.cpuDetails, Core, cores, size);
    forall c ensures c in MembersOf(t.cpuDetails, Core, cores) <==> c in MembersOf(KeepOnly(t.cpuDetails, free), Core, cores) {
      if c in MembersOf(t.cpuDetails, Core, cores) {
        assert c in MembersOf(t.cpuDetails, Core, CoresOn(t, free, u));
        assert c in cpus;
      }
    }
    assert MembersOf(t.cpuDetails, Core, cores) == MembersOf(KeepOnly(t.cpuDetails, free), Core, cores);
  }

  lemma CoresFit(t: CPUTopology, free: set<int>, n: int, u: int)
    requires WellFormed(t) && t.CPUsPerCore() > 0 && n >= 1 && HoldsCores(t, free, n, u)
    ensures FitsCache(t, free, u, n)
  {
    var size := t.CPUsPerCore();
    CoreRank(t, free, u, free * Members(t.cpuDetails, Uncore, u), size);
    CeilTimes(n, size, |CoresOn(t, free, u)|);
    LowestIs(t, free, n, u, (n + size - 1) / size, size);
  }

  lemma LowestIs(t: CPUTopology, free: set<int>, n: int, u: int, m: nat, size: int)
    requires WellFormed(t) && size == t.CPUsPerCore() > 0 && n >= 1 && m == (n + size - 1) / size
    requires m <= |CoresOn(t, free, u)| && WholeCores(t, free * Members(t.cpuDetails, Uncore, u))
    ensures |LowestCPUs(t, free, u, n)| == m * size
  {
    hide WholeCores, LowestCPUs, WellFormed, CoresOn;
    var d := KeepOnly(t.cpuDetails, free);
    LowestAre(t, free, d, u, n);
    SameCores(t, free, d, u);
    LowestSize(t, free, u, n, CoresNeededInUncoreCache(d, m, u), size);
  }

  // ---- a small request takes no whole unit

  lemma NoUnitTaken(t: CPUTopology, chain: seq<Level>, l: Level, free: set<int>, n: int, s: set<int>)
    requires TakenInOrder(t, chain, l, free, n, s)
    requires forall k :: Whole(t, l, free, k) ==> |Members(t.cpuDetails, l, k)| > n
    ensures TakenWhole(t, l, free, s) == {}
  {
    forall c | c in t.cpuDetails ensures c !in TakenWhole(t, l, free, s) {
      var k := UnitOf(t.cpuDetails, l, c);
      if Whole(t, l, free * s, k) {
        assert Whole(t, l, free, k);
      }
    }
  }

  lemma NothingWhole(t: CPUTopology, outer: Level, inner: Level, free: set<int>, n: int, s: set<int>)
    requires (outer == Socket && inner == Numa) || (outer == Numa && inner == Socket)
    requires SmallRequest(t, free, n) && TwoLevels(t, outer, inner, free, n, s)
    ensures LeftOfUnits(t, outer, inner, free, s) == free
  {
    NoUnitTaken(t, [outer], outer, free, n, s);
    assert free - {} == free && n - |TakenWhole(t, outer, free, s)| == n;
    NoUnitTaken(t, [outer, inner], inner, free, n, s);
  }

  lemma OneCacheFor(t: CPUTopology, outer: Level, inner: Level, free: set<int>, n: int, strategy: string, s: set<int>, u: int)
    requires (outer == Socket && inner == Numa) || (outer == Numa && inner == Socket)
    requires WellFormed(t) && t.CPUsPerCore() > 0 && n >= 1 && s <= free && SmallRequest(t, free, n)
    requires HoldsCores(t, free, n, u) && TwoLevels(t, outer, inner, free, n, s)
    requires SmallerCaches(t, outer, inner, free, n, strategy, s)
    ensures WithinOneCache(t, s)
  {
    hide *;
    NothingWhole(t, outer, inner, free, n, s);
    CoresFit(t, free, n, u);
    AllLeft(t, outer, inner, free, n, strategy, s);
    SmallOnCache(t, outer, inner, free, n, strategy, s, u);
  }

  lemma AllLeft(t: CPUTopology, outer: Level, inner: Level, free: set<int>, n: int, strategy: string, s: set<int>)
    requires SmallerCaches(t, outer, inner, free, n, strategy, s) && LeftOfUnits(t, outer, inner, free, s) == free
    ensures CachesKnown(t, outer, inner, free, n, strategy, s)
  {
    hide CachesKnown, LeftOfUnits;
  }

  lemma SmallOnCache(t: CPUTopology, outer: Level, inner: Level, free: set<int>, n: int, strategy: string, s: set<int>, u: int)
    requires CachesKnown(t, outer, inner, free, n, strategy, s) && SmallRequest(t, free, n) && n >= 1 && s <= free
    requires FitsCache(t, free, u, n)
    ensures WithinOneCache(t, s)
  {
    hide OnOneCache, CoresAndSingles, FitsCache, WithinOneCache;
    assert SomeFits(t, free, n);
    OnCache(t, CacheChain(outer), free, n, s);
  }

  lemma OnCache(t: CPUTopology, chain: seq<Level>, free: set<int>, n: int, s: set<int>)
    requires s <= free && OnOneCache(t, chain, free, free, n, s)
    ensures WithinOneCache(t, s)
  {
    var v :| FitsCache(t, free, v, n) && Trimmed(LowestCPUs(t, free, v, n), n, free * s);
    assert free * s == s;
    assert s <= Members(t.cpuDetails, Uncore, v);
  }

  lemma InOrderOnCache(t: CPUTopology, free: set<int>, n: int, s: set<int>, u: int)
    requires WellFormed(t) && t.CPUsPerCore() > 0 && n >= 1 && s <= free && SmallRequest(t, free, n)
    requires HoldsCores(t, free, n, u) && InOrder(t, free, n, "packed", true, s)
    ensures WithinOneCache(t, s)
  {
    if t.numSockets < t.numNUMANodes {
      OneCacheFor(t, Socket, Numa, free, n, "packed", s, u);
    } else {
      OneCacheFor(t, Numa, Socket, free, n, "packed", s, u);
    }
  }

  /** What packed allocation aligned to caches hands out. */
  lemma PackedTakenWell(t: CPUTopology, available: set<int>, n: int)
    requires WellFormed(t) && n <= |t.cpuDetails.Keys * available|
    ensures var r := Packed(t, available, n, PACKED, true);
      r.Ok? && TakenWell(t, t.cpuDetails.Keys * available, n, r.cpus)
  {
    var free, r := t.cpuDetails.Keys * available, Packed(t, available, n, PACKED, true);
    PackedSafe(t, available, n, PACKED, true);
    PackedCutsAtMostOneCore(t, available, n, true);
    if WholeCores(t, free) {
      PackedBreaksAtMostOneCore(t, available, n, true);
      if t.CPUsPerCore() > 0 && n % t.CPUsPerCore() == 0 {
        PackedKeepsWholeCores(t, available, n, true);
      }
    }
    if n >= 1 {
      PackedInOrder(t, available, n, PACKED, true);
      CoresNonEmpty(t);
      forall u | SmallRequest(t, free, n) && HoldsCores(t, free, n, u) ensures WithinOneCache(t, r.cpus) {
        InOrderOnCache(t, free, n, r.cpus, u);
      }
    }
  }
}
