/** The failure of the cache-aligned mode on a real host: a 24-core EPYC 7352 with two threads
    a core, discovered as four NUMA nodes of six cores under caches of four. */
module EpycHost {
  import opened Sorting
  import opened Topology
  import opened PackedModel
  import opened LoneCut
  import opened NodeSettings
  import opened Discovery
  import opened DiscoveredShape
  import opened DiscoveredHosts

  /** The five CPUs in use: one under every cache but the second. */
  function InUse(): set<int> {
    {0, 8, 12, 16, 20}
  }

  ghost predicate OnEpyc(d: CPUDetails) {
    OnGrid(Grid(24, 2, 6, 4, 24, 1, 4), d)
  }

  lemma CPUsAre(d: CPUDetails)
    requires OnEpyc(d)
    ensures d.Keys == Range(0, 48) && |d.Keys| == 48
    ensures forall c :: c in d <==> 0 <= c < 48
  {
    RangeSize(0, 48);
    assert CPUsOf(Grid(24, 2, 6, 4, 24, 1, 4)) == 48;
    forall c ensures c in d.Keys <==> c in Range(0, 48) {
    }
  }

  lemma CachesAre(d: CPUDetails)
    requires OnEpyc(d)
    ensures Units(d, Uncore) == Range(0, 6) && |Units(d, Uncore)| == 6
    ensures forall u :: u in Units(d, Uncore) ==> 0 <= u < 6
  {
    RangeSize(0, 6);
    forall u ensures u in Units(d, Uncore) <==> 0 <= u < 6 {
      if 0 <= u < 6 {
        assert 4 * u in d && UnitOf(d, Uncore, 4 * u) == u;
      }
    }
  }

  lemma SecondCache(d: CPUDetails)
    requires OnEpyc(d)
    ensures Members(d, Uncore, 1) == Range(4, 8) + Range(28, 32) && |Members(d, Uncore, 1)| == 8
    ensures Members(d, Uncore, 1) <= d.Keys - InUse() && 1 in Units(d, Uncore)
  {
    RangeSize(4, 8);
    RangeSize(28, 32);
    assert UnitOf(d, Uncore, 4) == 1;
    forall c ensures c in Members(d, Uncore, 1) <==> c in Range(4, 8) + Range(28, 32) {
    }
    assert Range(4, 8) !! Range(28, 32);
  }

  lemma NoOtherUnit(d: CPUDetails, free: set<int>)
    requires OnEpyc(d) && free == d.Keys - InUse()
    ensures forall k :: k in Units(d, Uncore) && k != 1 ==> !(Members(d, Uncore, k) <= free)
    ensures forall k :: k in Units(d, Numa) ==> !(Members(d, Numa, k) <= free)
    ensures forall k :: k in Units(d, Socket) ==> !(Members(d, Socket, k) <= free)
  {
    CachesAre(d);
    forall k | k in Units(d, Uncore) && k != 1 ensures !(Members(d, Uncore, k) <= free) {
      assert 4 * k in Members(d, Uncore, k) && 4 * k in InUse();
    }
    forall k | k in Units(d, Numa) ensures !(Members(d, Numa, k) <= free) {
      var c := if k == 0 then 0 else if k == 1 then 8 else if k == 2 then 12 else 20;
      assert c in Members(d, Numa, k) && c in InUse();
    }
    forall k | k in Units(d, Socket) ensures !(Members(d, Socket, k) <= free) {
      assert 0 in Members(d, Socket, k) && 0 in InUse();
    }
  }

  lemma SecondCacheIsLone(t: CPUTopology, free: set<int>)
    requires OnEpyc(t.cpuDetails) && free == t.cpuDetails.Keys - InUse() && CutsNodes(t.cpuDetails, 1)
    ensures Lone(t, free, 1)
  {
    SecondCache(t.cpuDetails);
    NoOtherUnit(t.cpuDetails, free);
  }

  lemma FreeCount(d: CPUDetails)
    requires OnEpyc(d)
    ensures d.Keys * (d.Keys - InUse()) == d.Keys - InUse() && |d.Keys - InUse()| == 43
  {
    CPUsAre(d);
    assert |InUse()| == 5;
    SubsetSize(InUse(), d.Keys);
  }

  /** With five of the forty-eight CPUs in use, asking the cache-aligned mode for sixteen of
      the forty-three free ones succeeds with fewer than sixteen, whatever the strategy. */
  lemma EpycMiscounts(n: Host, t: CPUTopology, strategy: string)
    requires n.Family() == Epyc(3, 2) && n.cpus == 48 && n.cores == 24 && n.sockets == 1
    requires BuiltFor(n).Known? && Describes(BuiltFor(n).settings, t)
    ensures WellFormed(t) && |t.cpuDetails.Keys * (t.cpuDetails.Keys - InUse())| == 43
    ensures var r := Packed(t, t.cpuDetails.Keys - InUse(), 16, strategy, true); r.Ok? && |r.cpus| < 16
  {
    Grid7352(n);
    EpycCutsNodes(n, t);
    HostOnGrid(n, t);
    MiscountsOn(t, strategy);
  }

  lemma MiscountsOn(t: CPUTopology, strategy: string)
    requires WellFormed(t) && OnEpyc(t.cpuDetails) && t.numCPUs == 48 && CutsNodes(t.cpuDetails, 1)
    ensures |t.cpuDetails.Keys * (t.cpuDetails.Keys - InUse())| == 43
    ensures var r := Packed(t, t.cpuDetails.Keys - InUse(), 16, strategy, true); r.Ok? && |r.cpus| < 16
  {
    var free := t.cpuDetails.Keys - InUse();
    FreeCount(t.cpuDetails);
    SecondCacheIsLone(t, free);
    SecondCache(t.cpuDetails);
    CachesAre(t.cpuDetails);
    assert t.CPUsPerUncore() == 8;
    LoneCutIff(t, free, 16, strategy, 1);
    PackedSafe(t, free, 16, strategy, true);
  }
}
