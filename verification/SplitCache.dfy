/** A machine on which an L3 cache cuts two NUMA nodes without holding either, where the
    cache-aligned mode reports success with too few CPUs. */
module SplitCache {
  import opened Sorting
  import opened Topology
  import opened UnitOrder
  import opened PackedModel

  /** Single-threaded cores lo..hi-1 of one socket, three to a NUMA node, two to a cache. */
  function Cores(lo: int, hi: int): CPUDetails {
    map c | lo <= c < hi :: CPUInfo(c / 3, 0, c, c / 2)
  }

  function Machine(): CPUTopology {
    CPUTopology(6, 6, 3, 1, 2, Cores(0, 6))
  }

  /** The free CPUs are 1 to 4. */
  function FreeCPUs(): CPUDetails {
    Cores(1, 5)
  }

  lemma UnitsAre(d: CPUDetails, l: Level, us: set<int>)
    requires forall c :: c in d ==> UnitOf(d, l, c) in us
    requires forall u :: u in us ==> exists c :: c in d && UnitOf(d, l, c) == u
    ensures Units(d, l) == us
  {
    forall u ensures u in Units(d, l) <==> u in us {
    }
  }

  lemma MachineUnits()
    ensures var d := Cores(0, 6);
      Units(d, Socket) == {0} && Units(d, Numa) == {0, 1} && Units(d, Uncore) == {0, 1, 2}
  {
    var d := Cores(0, 6);
    assert UnitOf(d, Socket, 0) == 0 && UnitOf(d, Numa, 0) == 0 && UnitOf(d, Numa, 3) == 1;
    UnitsAre(d, Socket, {0});
    UnitsAre(d, Numa, {0, 1});
    MachineCaches();
  }

  lemma MachineCaches()
    ensures Units(Cores(0, 6), Uncore) == {0, 1, 2}
  {
    var d := Cores(0, 6);
    assert UnitOf(d, Uncore, 0) == 0 && UnitOf(d, Uncore, 2) == 1 && UnitOf(d, Uncore, 4) == 2;
    UnitsAre(d, Uncore, {0, 1, 2});
  }

  lemma MachineCores()
    ensures Units(Cores(0, 6), Core) == Cores(0, 6).Keys
  {
    var d := Cores(0, 6);
    forall u ensures u in Units(d, Core) <==> u in d.Keys {
      assert u in d ==> UnitOf(d, Core, u) == u;
    }
  }

  lemma MachineShape()
    ensures var d := Cores(0, 6);
      && d.Keys == {0, 1, 2, 3, 4, 5} && |d.Keys| == 6
      && Uniform(d, Core, 1) && Uniform(d, Socket, 6)
      && Nested(d, Core, Numa) && Nested(d, Core, Socket) && Nested(d, Core, Uncore) && Nested(d, Numa, Socket)
  {
    var d := Cores(0, 6);
    assert d.Keys == {0, 1, 2, 3, 4, 5};
    forall u | u in Units(d, Core) ensures |Members(d, Core, u)| == 1 {
      assert Members(d, Core, u) == {u};
    }
    forall u | u in Units(d, Socket) ensures |Members(d, Socket, u)| == 6 {
      assert Members(d, Socket, u) == d.Keys;
    }
  }

  lemma SmallSets()
    ensures |{0}| == 1 && |{0, 1}| == 2 && |{0, 1, 2}| == 3
  {
  }

  lemma MachineCounts()
    ensures var d := Cores(0, 6);
      |d| == 6 && |Units(d, Core)| == 6 && |Units(d, Socket)| == 1 && |Units(d, Numa)| == 2 && |Units(d, Uncore)| == 3
  {
    MachineUnits();
    MachineCores();
    MachineShape();
    SmallSets();
    assert |Cores(0, 6)| == |Cores(0, 6).Keys|;
  }

  lemma MachineWellFormed()
    ensures WellFormed(Machine())
  {
    MachineCounts();
    MachineShape();
  }

  lemma FreeMembers()
    ensures var d := FreeCPUs();
      && Members(d, Numa, 0) == {1, 2} && Members(d, Numa, 1) == {3, 4}
      && Members(d, Uncore, 0) == {1} && Members(d, Uncore, 1) == {2, 3} && Members(d, Uncore, 2) == {4}
  {
  }

  lemma FreeUnitsHere()
    ensures var d := FreeCPUs();
      Units(d, Socket) == {0} && Units(d, Numa) == {0, 1} && Units(d, Uncore) == {0, 1, 2}
  {
    var d := FreeCPUs();
    assert UnitOf(d, Socket, 1) == 0 && UnitOf(d, Numa, 1) == 0 && UnitOf(d, Numa, 3) == 1;
    assert UnitOf(d, Uncore, 1) == 0 && UnitOf(d, Uncore, 2) == 1 && UnitOf(d, Uncore, 4) == 2;
    UnitsAre(d, Socket, {0});
    UnitsAre(d, Numa, {0, 1});
    UnitsAre(d, Uncore, {0, 1, 2});
  }

  lemma FreeUnitsNested()
    ensures var d := FreeCPUs();
      && UnitsIn(d, Numa, Socket, 0) == {0, 1}
      && UnitsIn(d, Uncore, Numa, 0) == {0, 1} && UnitsIn(d, Uncore, Numa, 1) == {1, 2}
  {
    var d := FreeCPUs();
    assert UnitOf(d, Numa, 1) == 0 && UnitOf(d, Numa, 3) == 1;
    UnitsInAre(d, Numa, Socket, 0, {0, 1}, 1, 3);
    assert UnitOf(d, Uncore, 1) == 0 && UnitOf(d, Uncore, 2) == 1;
    UnitsInAre(d, Uncore, Numa, 0, {0, 1}, 1, 2);
    assert UnitOf(d, Uncore, 3) == 1 && UnitOf(d, Uncore, 4) == 2;
    UnitsInAre(d, Uncore, Numa, 1, {1, 2}, 3, 4);
  }

  lemma UnitsInAre(d: CPUDetails, inner: Level, outer: Level, p: int, us: set<int>, x: int, y: int)
    requires forall c :: c in d && UnitOf(d, outer, c) == p ==> UnitOf(d, inner, c) in us
    requires x in d && y in d && UnitOf(d, outer, x) == p && UnitOf(d, outer, y) == p
    requires us == {UnitOf(d, inner, x), UnitOf(d, inner, y)}
    ensures UnitsIn(d, inner, outer, p) == us
  {
    forall u ensures u in UnitsIn(d, inner, outer, p) <==> u in us {
    }
  }

  lemma SortTwo(w: map<int, int>, u: int, v: int)
    requires u in w && v in w && Before(w, u, v)
    ensures SortIds(w, {u, v}) == [u, v]
  {
    assert Elements([u, v]) == {u, v};
    SortUnique(w, {u, v}, [u, v]);
  }

  lemma WithinTwo(d: CPUDetails, p: int, q: int, outer: Level, inner: Level)
    ensures SortWithin(d, [p, q], outer, inner)
         == SortedIn(d, inner, outer, p) + SortedIn(d, inner, outer, q)
    ensures SortWithin(d, [p], outer, inner) == SortedIn(d, inner, outer, p)
  {
    assert [p, q][1..] == [q] && [q][1..] == [] && [p][1..] == [];
    assert SortWithin(d, [q], outer, inner) == SortedIn(d, inner, outer, q);
  }

  lemma SortedPair(l: Level, u: int, v: int, cu: int, cv: int)
    requires u in Units(FreeCPUs(), l) && v in Units(FreeCPUs(), l)
    requires |Members(FreeCPUs(), l, u)| == cu && |Members(FreeCPUs(), l, v)| == cv
    requires cu < cv || (cu == cv && u < v)
    ensures SortIds(Counts(FreeCPUs(), l), {u, v}) == [u, v]
  {
    var w := Counts(FreeCPUs(), l);
    assert w[u] == cu && w[v] == cv;
    SortTwo(w, u, v);
  }

  lemma NodesSorted()
    ensures SortAvailable(FreeCPUs(), ChainOf(Machine(), Numa)) == [0, 1]
  {
    var d := FreeCPUs();
    FreeMembers();
    FreeUnitsHere();
    FreeUnitsNested();
    assert Elements([0]) == {0};
    SortUnique(Counts(d, Socket), {0}, [0]);
    assert SortAvailable(d, [Socket]) == [0];
    SortedPair(Numa, 0, 1, 2, 2);
    WithinTwo(d, 0, 0, Socket, Numa);
    SortFromParent(Machine(), d, Numa);
  }

  lemma CachesSorted()
    ensures {0, 1} <= Counts(FreeCPUs(), Uncore).Keys && {1, 2} <= Counts(FreeCPUs(), Uncore).Keys
    ensures SortIds(Counts(FreeCPUs(), Uncore), {0, 1}) == [0, 1]
    ensures SortIds(Counts(FreeCPUs(), Uncore), {1, 2}) == [2, 1]
  {
    FreeMembers();
    FreeUnitsHere();
    SortedPair(Uncore, 0, 1, 1, 2);
    SortedPair(Uncore, 2, 1, 1, 2);
    assert {2, 1} == {1, 2};
  }

  /** The per-node concatenation lists cache 1 under both nodes. */
  lemma CacheListedTwice()
    ensures SortAvailable(FreeCPUs(), ChainOf(Machine(), Uncore)) == [0, 1, 2, 1]
  {
    var d := FreeCPUs();
    NodesSorted();
    CachesOfNodes();
    WithinTwo(d, 0, 1, Numa, Uncore);
    SortFromParent(Machine(), d, Uncore);
  }

  lemma CachesOfNodes()
    ensures SortedIn(FreeCPUs(), Uncore, Numa, 0) == [0, 1] && SortedIn(FreeCPUs(), Uncore, Numa, 1) == [2, 1]
  {
    CachesSorted();
    FreeUnitsNested();
  }

  lemma StartsSafe()
    ensures Safe(Machine(), {1, 2, 3, 4}, Acc(FreeCPUs(), 4, {}))
    ensures FreeCPUs().Keys == {1, 2, 3, 4}
    ensures KeepOnly(Machine().cpuDetails, {1, 2, 3, 4}) == FreeCPUs()
  {
    assert Acc(FreeCPUs(), 4, {}).details == KeepOnly(Machine().cpuDetails, {1, 2, 3, 4});
    assert {1, 2, 3, 4} - {} == {1, 2, 3, 4};
  }

  lemma NoWholeUnit(l: Level, u: int)
    requires l == Socket || l == Numa
    requires u in Units(Machine().cpuDetails, l)
    ensures !(Members(Machine().cpuDetails, l, u) <= FreeCPUs().Keys)
  {
    MachineUnits();
    var d := Machine().cpuDetails;
    assert u == 0 ==> 0 in Members(d, l, u);
    assert u == 1 ==> 5 in Members(d, l, u);
  }

  /** No socket or NUMA node is wholly free, so the first two levels claim nothing. */
  lemma NothingWhole(l: Level)
    requires l == Socket || l == Numa
    ensures FreeUnits(Machine(), l, FreeCPUs()) == []
  {
    var t, a := Machine(), Acc(FreeCPUs(), 4, {});
    MachineWellFormed();
    StartsSafe();
    FreeUnitsExact(t, {1, 2, 3, 4}, l, a);
    NothingListed(t, l, a.details);
  }

  lemma NothingListed(t: CPUTopology, l: Level, d: CPUDetails)
    requires t == Machine() && d == FreeCPUs() && (l == Socket || l == Numa)
    requires forall u :: u in FreeUnits(t, l, d) ==> u in Units(t.cpuDetails, l) && Members(t.cpuDetails, l, u) <= d.Keys
    ensures FreeUnits(t, l, d) == []
  {
    var r := FreeUnits(t, l, d);
    if r != [] {
      assert r[0] in r;
      NoWholeUnit(l, r[0]);
    }
  }

  lemma CacheMembers()
    ensures var d := Cores(0, 6);
      Members(d, Uncore, 0) == {0, 1} && Members(d, Uncore, 1) == {2, 3} && Members(d, Uncore, 2) == {4, 5}
  {
  }

  lemma OnlyCacheOneWhole()
    ensures IsFree(Machine(), Uncore, FreeCPUs(), 1)
    ensures !IsFree(Machine(), Uncore, FreeCPUs(), 0) && !IsFree(Machine(), Uncore, FreeCPUs(), 2)
  {
    FreeMembers();
    CacheMembers();
  }

  lemma FilterTwice(t: CPUTopology, d: CPUDetails)
    requires IsFree(t, Uncore, d, 1) && !IsFree(t, Uncore, d, 0) && !IsFree(t, Uncore, d, 2)
    ensures Filter(t, Uncore, d, [0, 1, 2, 1]) == [1, 1]
  {
    var us := [0, 1, 2, 1];
    FilterStep(t, Uncore, d, us, 0);
    FilterStep(t, Uncore, d, us, 1);
    FilterStep(t, Uncore, d, us, 2);
    FilterStep(t, Uncore, d, us, 3);
    assert us[0..] == us && us[4..] == [];
  }

  lemma OnlyCacheOneFree()
    ensures FreeUnits(Machine(), Uncore, FreeCPUs()) == [1, 1]
  {
    CacheListedTwice();
    OnlyCacheOneWhole();
    FilterTwice(Machine(), FreeCPUs());
  }

  lemma TakenTwice()
    ensures var b := TakeFull(Machine(), Uncore, Acc(FreeCPUs(), 4, {}));
      b.needed == 0 && b.result == {2, 3}
  {
    var t, d := Machine(), FreeCPUs();
    var a := Acc(d, 4, {});
    OnlyCacheOneFree();
    CacheMembers();
    assert [1, 1][1..] == [1] && [1][1..] == [];
    var once := Take(a, {2, 3});
    var b := Take(once, {2, 3});
    assert TakeUnits(t, Uncore, once, [1]) == b;
    assert TakeUnits(t, Uncore, a, [1, 1]) == b;
  }

  lemma CacheOneCuts()
    ensures CutsNodes(Machine().cpuDetails, 1) && 1 in Units(Machine().cpuDetails, Uncore)
  {
    var d := Cores(0, 6);
    MachineUnits();
    assert 2 in Members(d, Uncore, 1) && 3 in Members(d, Uncore, 1);
    assert 0 !in Members(d, Uncore, 1) && 4 !in Members(d, Uncore, 1);
    assert UnitOf(d, Numa, 2) != UnitOf(d, Numa, 3);
    assert 0 in Members(d, Numa, 0) && 4 in Members(d, Numa, 1);
    assert !InOneNuma(d, 1);
    forall k | k in Units(d, Numa) ensures !(Members(d, Numa, k) <= Members(d, Uncore, 1)) {
      assert k == 0 || k == 1;
    }
  }

  lemma MachineStages()
    ensures Machine().CPUsPerCore() == 1
    ensures Stages(Machine(), Acc(FreeCPUs(), 4, {}), PACKED, true) == Ok({2, 3})
  {
    var t, a := Machine(), Acc(FreeCPUs(), 4, {});
    NothingWhole(Socket);
    NothingWhole(Numa);
    assert TakeFull(t, FirstLevel(t), a) == a && TakeFull(t, SecondLevel(t), a) == a;
    CacheListedTwice();
    TakenTwice();
    assert TakeUncore(t, a) == TakeFull(t, Uncore, a);
  }

  /** Asked for four of four free CPUs, the cache-aligned mode claims cache 1 twice and
      reports success with CPUs 2 and 3 only. */
  lemma SplitCacheMiscounts()
    ensures var t := Machine();
      && WellFormed(t) && CutsNodes(t.cpuDetails, 1)
      && |t.cpuDetails.Keys * {1, 2, 3, 4}| == 4
      && Packed(t, {1, 2, 3, 4}, 4, PACKED, true) == Ok({2, 3})
  {
    MachineWellFormed();
    CacheOneCuts();
    MachineStages();
    StartsSafe();
    MachineFree();
    PackedFrom(Machine(), {1, 2, 3, 4}, 4);
  }

  lemma MachineFree()
    ensures Machine().cpuDetails.Keys * {1, 2, 3, 4} == {1, 2, 3, 4}
    ensures |Machine().cpuDetails.Keys * {1, 2, 3, 4}| == 4
  {
    var free := Machine().cpuDetails.Keys * {1, 2, 3, 4};
    assert free == {1, 2, 3, 4};
  }

  lemma PackedFrom(t: CPUTopology, available: set<int>, n: int)
    requires WellFormed(t) && t.CPUsPerCore() > 0
    requires 1 <= n <= |KeepOnly(t.cpuDetails, available).Keys|
    ensures Packed(t, available, n, PACKED, true)
         == Stages(t, Acc(KeepOnly(t.cpuDetails, available), n, {}), PACKED, true)
  {
  }
}
