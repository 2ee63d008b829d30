/** Which CPUs packed allocation hands out when they are to be spread over cores: in every NUMA
    node the lowest-numbered free CPUs of each socket. */
module SpreadOrder {
  import opened Topology
  import opened UnitOrder
  import opened PackedModel
  import opened StageOrder

  ghost predicate SameNode(t: CPUTopology, x: int, y: int) {
    && x in t.cpuDetails && y in t.cpuDetails
    && UnitOf(t.cpuDetails, Numa, x) == UnitOf(t.cpuDetails, Numa, y)
    && UnitOf(t.cpuDetails, Socket, x) == UnitOf(t.cpuDetails, Socket, y)
  }

  /** Of the free CPUs of one node and socket the lowest are handed out. */
  ghost predicate LowestFirst(t: CPUTopology, free: set<int>, s: set<int>) {
    forall x, y :: x in free && y in free && x in s && y !in s && SameNode(t, x, y) ==> x < y
  }

  /** Several times the lowest are still the lowest. */
  lemma LowestTwice(t: CPUTopology, free: set<int>, s: set<int>, more: set<int>)
    requires LowestFirst(t, free, s) && LowestFirst(t, free - s, more)
    ensures LowestFirst(t, free, s + more)
  {
  }

  /** So they are when they are all of one node. */
  lemma LowestOnNode(t: CPUTopology, free: set<int>, node: int, more: set<int>)
    requires LowestFirst(t, free * Members(t.cpuDetails, Numa, node), more) && more <= Members(t.cpuDetails, Numa, node)
    ensures LowestFirst(t, free, more)
  {
  }

  lemma SameUnit(t: CPUTopology, l: Level, free: set<int>, s: set<int>, x: int, y: int)
    requires l == Numa || l == Socket
    requires SameNode(t, x, y) && x in TakenWhole(t, l, free, s)
    ensures y in s
  {
    assert y in Members(t.cpuDetails, l, UnitOf(t.cpuDetails, l, x));
  }

  lemma TakenIsTaken(t: CPUTopology, l: Level, free: set<int>, s: set<int>)
    ensures TakenWhole(t, l, free, s) <= s
  {
    forall c | c in TakenWhole(t, l, free, s) ensures c in s {
      assert c in Members(t.cpuDetails, l, UnitOf(t.cpuDetails, l, c));
    }
  }

  /** CPUs of one node and socket are listed by their ids. */
  lemma ByIds(t: CPUTopology, chain: seq<Level>, free: set<int>, x: int, y: int)
    requires chain == [Socket, Cpu] || chain == [Numa, Socket, Cpu]
    requires SameNode(t, x, y) && x in free && y in free && PathBefore(KeepOnly(t.cpuDetails, free), chain, x, y)
    ensures x < y
  {
    var d := KeepOnly(t.cpuDetails, free);
    var k :| 0 <= k < |chain| && DiffersAt(d, chain, k, x, y);
    assert UnitOf(d, Numa, x) == UnitOf(d, Numa, y) && UnitOf(d, Socket, x) == UnitOf(d, Socket, y);
    assert chain[k] == Cpu;
    assert Members(d, Cpu, x) == {x} && Members(d, Cpu, y) == {y};
  }

  lemma LeftIsLowest(t: CPUTopology, outer: Level, inner: Level, free: set<int>, n: int, s: set<int>)
    requires (outer == Socket && inner == Numa) || (outer == Numa && inner == Socket)
    requires SmallerLevels(t, outer, inner, free, n, "spread", s)
    ensures LowestFirst(t, free, s)
  {
    var chain, left := SinglesChain(outer, inner, "spread"), free - TakenWhole(t, outer, free, s);
    var rest := LeftOfUnits(t, outer, inner, free, s);
    NotPacked();
    TakenIsTaken(t, outer, free, s);
    TakenIsTaken(t, inner, left, s);
    forall x, y | x in free && y in free && x in s && y !in s && SameNode(t, x, y) ensures x < y {
      Untaken(t, outer, inner, free, s, x, y);
      assert PathBefore(KeepOnly(t.cpuDetails, rest), chain, x, y);
      ByIds(t, chain, rest, x, y);
    }
  }

  lemma NotPacked()
    ensures "spread" != "packed"
  {
    assert "spread"[0] != "packed"[0];
  }

  lemma Untaken(t: CPUTopology, outer: Level, inner: Level, free: set<int>, s: set<int>, x: int, y: int)
    requires (outer == Socket && inner == Numa) || (outer == Numa && inner == Socket)
    requires x in free && y in free && x in s && y !in s && SameNode(t, x, y)
    ensures x in LeftOfUnits(t, outer, inner, free, s) && y in LeftOfUnits(t, outer, inner, free, s)
  {
    var left := free - TakenWhole(t, outer, free, s);
    TakenIsTaken(t, outer, free, s);
    TakenIsTaken(t, inner, left, s);
    if x in TakenWhole(t, outer, free, s) {
      SameUnit(t, outer, free, s, x, y);
    }
    if x in TakenWhole(t, inner, left, s) {
      SameUnit(t, inner, left, s, x, y);
    }
  }

  /** With the spread strategy the lowest free CPUs are handed out, in every node and socket. */
  lemma SpreadTakesLowest(t: CPUTopology, available: set<int>, n: int)
    requires WellFormed(t) && n <= |t.cpuDetails.Keys * available|
    ensures var r := Packed(t, available, n, SPREAD, false);
      r.Ok? && LowestFirst(t, t.cpuDetails.Keys * available, r.cpus)
  {
    if n >= 1 {
      PackedTakesCores(t, available, n, SPREAD);
      StrategyNames();
      var free, s := t.cpuDetails.Keys * available, Packed(t, available, n, SPREAD, false).cpus;
      if t.numSockets < t.numNUMANodes {
        LeftIsLowest(t, Socket, Numa, free, n, s);
      } else {
        LeftIsLowest(t, Numa, Socket, free, n, s);
      }
    }
  }
}
