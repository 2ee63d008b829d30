/** The multi-level sorts of the accumulator: the units of one level are listed parent by
    parent, the parents themselves being sorted the same way. */
module UnitOrder {
  import opened Sorting
  import opened Topology

  /** The units of one level that lie in unit u of another, sorted. */
  function SortedIn(d: CPUDetails, inner: Level, outer: Level, u: int): (r: seq<int>)
    ensures |r| == |UnitsIn(d, inner, outer, u)| && forall x :: x in r <==> x in UnitsIn(d, inner, outer, u)
  {
    SortIds(Counts(d, inner), UnitsIn(d, inner, outer, u))
  }

  /** For each parent in turn, the sorted units that lie in it. */
  function SortWithin(d: CPUDetails, parents: seq<int>, outer: Level, inner: Level): seq<int> {
    if parents == [] then []
    else
      SortedIn(d, inner, outer, parents[0])
      + SortWithin(d, parents[1..], outer, inner)
  }

  lemma SortWithinStep(d: CPUDetails, parents: seq<int>, i: nat, outer: Level, inner: Level)
    requires i < |parents|
    ensures SortWithin(d, parents[i..], outer, inner)
         == SortedIn(d, inner, outer, parents[i]) + SortWithin(d, parents[i + 1..], outer, inner)
  {
    assert parents[i..][1..] == parents[i + 1..];
  }

  /** The sorted units of the last level of a chain of levels, outermost level first. */
  function SortAvailable(d: CPUDetails, chain: seq<Level>): seq<int>
    requires |chain| > 0
  {
    var k := |chain| - 1;
    if k == 0 then SortIds(Counts(d, chain[0]), Units(d, chain[0]))
    else SortWithin(d, SortAvailable(d, chain[..k]), chain[k - 1], chain[k])
  }

  /** The chain of levels behind sortAvailable*: NUMA nodes come first when there are at
      least as many sockets as NUMA nodes, sockets come first otherwise. */
  function ChainOf(t: CPUTopology, l: Level): (chain: seq<Level>)
    ensures |chain| > 0 && chain[|chain| - 1] == l
  {
    var numaFirst := t.numSockets >= t.numNUMANodes;
    match l
    case Numa => if numaFirst then [Numa] else [Socket, Numa]
    case Socket => if numaFirst then [Numa, Socket] else [Socket]
    case Uncore => if numaFirst then [Numa, Uncore] else [Socket, Numa, Uncore]
    case Core => if numaFirst then [Numa, Socket, Core] else [Socket, Numa, Core]
    case Cpu => if numaFirst then [Numa, Socket, Core, Cpu] else [Socket, Numa, Core, Cpu]
  }

  /** The chain of sortAvailableCPUsSpread, which skips the cores. */
  function SpreadChain(t: CPUTopology): (chain: seq<Level>)
    ensures |chain| > 0 && chain[|chain| - 1] == Cpu
  {
    if t.numSockets >= t.numNUMANodes then [Numa, Socket, Cpu] else [Socket, Cpu]
  }

  /** The level whose units are listed just before those of level l. */
  function ParentLevel(t: CPUTopology, l: Level): Level {
    var numaFirst := t.numSockets >= t.numNUMANodes;
    match l
    case Numa => Socket
    case Socket => Numa
    case Uncore => Numa
    case Core => if numaFirst then Socket else Numa
    case Cpu => Core
  }

  lemma ChainParent(t: CPUTopology, l: Level)
    requires |ChainOf(t, l)| > 1
    ensures var chain := ChainOf(t, l);
      chain[..|chain| - 1] == ChainOf(t, ParentLevel(t, l))
  {
  }

  lemma SpreadParent(t: CPUTopology)
    ensures var chain := SpreadChain(t);
      |chain| > 1 && chain[..|chain| - 1] == ChainOf(t, Socket)
  {
  }

  lemma SortStep(d: CPUDetails, chain: seq<Level>, outer: seq<Level>)
    requires |chain| > 1 && chain[..|chain| - 1] == outer
    ensures |outer| > 0
    ensures SortAvailable(d, chain) == SortWithin(d, SortAvailable(d, outer), outer[|outer| - 1], chain[|chain| - 1])
  {
    assert outer[|outer| - 1] == chain[|chain| - 2];
  }

  /** sortAvailable* in terms of the sort of the parent level. */
  lemma SortFromParent(t: CPUTopology, d: CPUDetails, l: Level)
    requires |ChainOf(t, l)| > 1
    ensures var p := ParentLevel(t, l);
      SortAvailable(d, ChainOf(t, l)) == SortWithin(d, SortAvailable(d, ChainOf(t, p)), p, l)
  {
    ChainParent(t, l);
    SortStep(d, ChainOf(t, l), ChainOf(t, ParentLevel(t, l)));
  }

  lemma SpreadFromSockets(t: CPUTopology, d: CPUDetails)
    ensures SortAvailable(d, SpreadChain(t)) == SortWithin(d, SortAvailable(d, ChainOf(t, Socket)), Socket, Cpu)
  {
    SpreadParent(t);
    SortStep(d, SpreadChain(t), ChainOf(t, Socket));
  }

  // ---- the lists hold every unit, once when the levels nest

  lemma {:induction false} WithinElements(d: CPUDetails, parents: seq<int>, outer: Level, inner: Level)
    ensures forall u :: (u in SortWithin(d, parents, outer, inner)
                         <==> exists c :: c in d && UnitOf(d, outer, c) in parents && UnitOf(d, inner, c) == u)
  {
    if parents == [] {
    } else {
      WithinElements(d, parents[1..], outer, inner);
      assert parents == [parents[0]] + parents[1..];
    }
  }

  lemma {:induction false} AvailableElements(d: CPUDetails, chain: seq<Level>)
    requires |chain| > 0
    ensures forall u :: u in SortAvailable(d, chain) <==> u in Units(d, chain[|chain| - 1])
    decreases |chain|
  {
    var k := |chain| - 1;
    if k == 0 {
    } else {
      AvailableElements(d, chain[..k]);
      WithinAll(d, SortAvailable(d, chain[..k]), chain[k - 1], chain[k]);
    }
  }

  lemma WithinAll(d: CPUDetails, parents: seq<int>, outer: Level, inner: Level)
    requires forall u :: u in parents <==> u in Units(d, outer)
    ensures forall u :: u in SortWithin(d, parents, outer, inner) <==> u in Units(d, inner)
  {
    WithinElements(d, parents, outer, inner);
    forall u | u in Units(d, inner) ensures u in SortWithin(d, parents, outer, inner) {
      var c :| c in d && UnitOf(d, inner, c) == u;
      assert UnitOf(d, outer, c) in Units(d, outer);
    }
  }

  /** Every level of the chain nests in the one before it. */
  ghost predicate NestedChain(d: CPUDetails, chain: seq<Level>) {
    forall k :: 1 <= k < |chain| ==> Nested(d, chain[k], chain[k - 1])
  }

  /** The CPUs share their units at the first k levels of the chain. */
  ghost predicate SamePath(d: CPUDetails, chain: seq<Level>, k: nat, a: int, b: int)
    requires a in d && b in d && k <= |chain|
  {
    forall j :: 0 <= j < k ==> UnitOf(d, chain[j], a) == UnitOf(d, chain[j], b)
  }

  ghost predicate DiffersAt(d: CPUDetails, chain: seq<Level>, k: nat, a: int, b: int)
    requires a in d && b in d && k < |chain|
  {
    && SamePath(d, chain, k, a, b)
    && Before(Counts(d, chain[k]), UnitOf(d, chain[k], a), UnitOf(d, chain[k], b))
  }

  /** CPUs compared lexicographically along a chain of levels: at the first level where
      their units differ, the unit with fewer CPUs, then the smaller id, comes first. */
  ghost predicate PathBefore(d: CPUDetails, chain: seq<Level>, a: int, b: int)
    requires a in d && b in d
  {
    exists k :: 0 <= k < |chain| && DiffersAt(d, chain, k, a, b)
  }

  lemma {:induction false} NestedPath(d: CPUDetails, chain: seq<Level>, k: nat, a: int, b: int)
    requires a in d && b in d && k < |chain| && NestedChain(d, chain)
    requires UnitOf(d, chain[k], a) == UnitOf(d, chain[k], b)
    ensures SamePath(d, chain, k + 1, a, b)
  {
    if k > 0 {
      assert Nested(d, chain[k], chain[k - 1]);
      NestedPath(d, chain, k - 1, a, b);
    }
  }

  lemma PathExtend(d: CPUDetails, chain: seq<Level>, l: Level, a: int, b: int)
    requires a in d && b in d
    requires PathBefore(d, chain, a, b)
      || (SamePath(d, chain, |chain|, a, b) && Before(Counts(d, l), UnitOf(d, l, a), UnitOf(d, l, b)))
    ensures PathBefore(d, chain + [l], a, b)
  {
    var full := chain + [l];
    assert full[|chain|] == l;
    if PathBefore(d, chain, a, b) {
      var k :| 0 <= k < |chain| && DiffersAt(d, chain, k, a, b);
      assert full[k] == chain[k];
      assert DiffersAt(d, full, k, a, b);
    } else {
      assert DiffersAt(d, full, |chain|, a, b);
    }
  }

  /** Any CPU of unit u precedes any CPU of unit v. */
  ghost predicate UnitBefore(d: CPUDetails, chain: seq<Level>, l: Level, u: int, v: int) {
    forall a, b :: a in Members(d, l, u) && b in Members(d, l, v) ==> PathBefore(d, chain, a, b)
  }

  ghost predicate ListOrdered(d: CPUDetails, chain: seq<Level>, l: Level, us: seq<int>) {
    forall i, j :: 0 <= i < j < |us| ==> UnitBefore(d, chain, l, us[i], us[j])
  }

  lemma ConcatOrdered(d: CPUDetails, chain: seq<Level>, l: Level, head: seq<int>, tail: seq<int>)
    requires ListOrdered(d, chain, l, head) && ListOrdered(d, chain, l, tail)
    requires forall u, v :: u in head && v in tail ==> UnitBefore(d, chain, l, u, v)
    ensures ListOrdered(d, chain, l, head + tail)
  {
    var us := head + tail;
    forall i, j | 0 <= i < j < |us| ensures UnitBefore(d, chain, l, us[i], us[j]) {
      if j < |head| {
        assert us[i] == head[i] && us[j] == head[j];
      } else if i < |head| {
        assert us[i] == head[i] && us[j] == tail[j - |head|];
        assert us[i] in head && us[j] in tail;
      } else {
        assert us[i] == tail[i - |head|] && us[j] == tail[j - |head|];
      }
    }
  }

  /** Two units of one parent, the first of which the sort puts first. */
  lemma SiblingsOrdered(d: CPUDetails, chain: seq<Level>, inner: Level, u: int, v: int)
    requires |chain| > 0 && NestedChain(d, chain) && Nested(d, inner, chain[|chain| - 1])
    requires u in Units(d, inner) && v in Units(d, inner) && Before(Counts(d, inner), u, v)
    requires forall a, b :: (a in Members(d, inner, u) && b in Members(d, inner, v)
                             ==> UnitOf(d, chain[|chain| - 1], a) == UnitOf(d, chain[|chain| - 1], b))
    ensures UnitBefore(d, chain + [inner], inner, u, v)
  {
    forall a, b | a in Members(d, inner, u) && b in Members(d, inner, v)
      ensures PathBefore(d, chain + [inner], a, b)
    {
      NestedPath(d, chain, |chain| - 1, a, b);
      PathExtend(d, chain, inner, a, b);
    }
  }

  /** Units of two parents, the first of which comes first. */
  lemma CousinsOrdered(d: CPUDetails, chain: seq<Level>, inner: Level, p: int, q: int, u: int, v: int)
    requires |chain| > 0 && Nested(d, inner, chain[|chain| - 1])
    requires u in UnitsIn(d, inner, chain[|chain| - 1], p) && v in UnitsIn(d, inner, chain[|chain| - 1], q)
    requires UnitBefore(d, chain, chain[|chain| - 1], p, q)
    ensures UnitBefore(d, chain + [inner], inner, u, v)
  {
    var outer := chain[|chain| - 1];
    forall a, b | a in Members(d, inner, u) && b in Members(d, inner, v)
      ensures PathBefore(d, chain + [inner], a, b)
    {
      assert a in Members(d, outer, p) && b in Members(d, outer, q);
      PathExtend(d, chain, inner, a, b);
    }
  }

  lemma {:induction false} WithinOrdered(d: CPUDetails, chain: seq<Level>, parents: seq<int>, inner: Level)
    requires |chain| > 0 && NestedChain(d, chain) && Nested(d, inner, chain[|chain| - 1])
    requires ListOrdered(d, chain, chain[|chain| - 1], parents)
    ensures ListOrdered(d, chain + [inner], inner, SortWithin(d, parents, chain[|chain| - 1], inner))
    decreases |parents|
  {
    if parents == [] {
    } else {
      var outer := chain[|chain| - 1];
      var head := SortedIn(d, inner, outer, parents[0]);
      var tail := SortWithin(d, parents[1..], outer, inner);
      forall i, j | 0 <= i < j < |head| ensures UnitBefore(d, chain + [inner], inner, head[i], head[j]) {
        assert head[i] in head && head[j] in head;
        SiblingsOrdered(d, chain, inner, head[i], head[j]);
      }
      WithinOrdered(d, chain, parents[1..], inner);
      WithinElements(d, parents[1..], outer, inner);
      forall u, v | u in head && v in tail ensures UnitBefore(d, chain + [inner], inner, u, v) {
        var c :| c in d && UnitOf(d, outer, c) in parents[1..] && UnitOf(d, inner, c) == v;
        var p :| 0 <= p < |parents| - 1 && parents[1..][p] == UnitOf(d, outer, c);
        assert parents[1..][p] == parents[p + 1];
        CousinsOrdered(d, chain, inner, parents[0], parents[p + 1], u, v);
      }
      ConcatOrdered(d, chain + [inner], inner, head, tail);
    }
  }

  lemma {:induction false} AvailableOrdered(d: CPUDetails, chain: seq<Level>)
    requires |chain| > 0 && NestedChain(d, chain)
    ensures ListOrdered(d, chain, chain[|chain| - 1], SortAvailable(d, chain))
    decreases |chain|
  {
    var k := |chain| - 1;
    var us := SortAvailable(d, chain);
    if k == 0 {
      forall i, j, a, b | 0 <= i < j < |us| && a in Members(d, chain[0], us[i]) && b in Members(d, chain[0], us[j])
        ensures PathBefore(d, chain, a, b)
      {
        assert Before(Counts(d, chain[0]), us[i], us[j]);
        assert DiffersAt(d, chain, 0, a, b);
      }
    } else {
      var outerChain := chain[..k];
      assert chain == outerChain + [chain[k]];
      assert Nested(d, chain[k], chain[k - 1]);
      AvailableOrdered(d, outerChain);
      WithinOrdered(d, outerChain, SortAvailable(d, outerChain), chain[k]);
    }
  }

  lemma PathIrreflexive(d: CPUDetails, chain: seq<Level>, a: int)
    requires a in d
    ensures !PathBefore(d, chain, a, a)
  {
  }

  /** The order is strict, so a list ordered this way names no unit twice. */
  lemma AvailableNoDup(d: CPUDetails, chain: seq<Level>)
    requires |chain| > 0 && NestedChain(d, chain)
    ensures NoDup(SortAvailable(d, chain))
  {
    var us, l := SortAvailable(d, chain), chain[|chain| - 1];
    AvailableElements(d, chain);
    AvailableOrdered(d, chain);
    forall i, j | 0 <= i < j < |us| ensures us[i] != us[j] {
      assert us[i] in us;
      MembersNonEmpty(d, l, us[i]);
      var a := Pick(Members(d, l, us[i]));
      PathIrreflexive(d, chain, a);
      assert UnitBefore(d, chain, l, us[i], us[j]);
    }
  }

  // ---- which chains nest on a well-formed topology

  lemma ChainNested(t: CPUTopology, l: Level, s: set<int>)
    requires WellFormed(t)
    requires l == Uncore ==> Nested(t.cpuDetails, Uncore, Numa)
    ensures NestedChain(KeepOnly(t.cpuDetails, s), ChainOf(t, l))
    ensures NestedChain(KeepOnly(t.cpuDetails, s), SpreadChain(t))
  {
    var d := KeepOnly(t.cpuDetails, s);
    forall a, b | Nested(t.cpuDetails, a, b) ensures Nested(d, a, b) {
      KeepNested(t.cpuDetails, s, a, b);
    }
    assert Nested(d, Cpu, Core) && Nested(d, Cpu, Socket);
  }

  lemma CpuUnits(d: CPUDetails)
    ensures Units(d, Cpu) == d.Keys
  {
    forall c ensures c in Units(d, Cpu) <==> c in d.Keys {
      if c in d {
        assert UnitOf(d, Cpu, c) == c;
      }
    }
  }

  /** A list of CPUs sorted along a nested chain is a permutation of the free CPUs, in the
      strict lexicographic order of the chain. */
  lemma CpuListIsLexicographic(d: CPUDetails, chain: seq<Level>)
    requires |chain| > 0 && chain[|chain| - 1] == Cpu && NestedChain(d, chain)
    ensures var r := SortAvailable(d, chain);
      && NoDup(r) && Elements(r) == d.Keys
      && forall i, j :: 0 <= i < j < |r| ==> r[i] in d && r[j] in d && PathBefore(d, chain, r[i], r[j])
  {
    var r := SortAvailable(d, chain);
    AvailableElements(d, chain);
    AvailableOrdered(d, chain);
    AvailableNoDup(d, chain);
    CpuUnits(d);
    forall x ensures x in Elements(r) <==> x in d.Keys {
      assert x in r <==> x in Units(d, Cpu);
    }
    forall i, j | 0 <= i < j < |r| ensures r[i] in d && r[j] in d && PathBefore(d, chain, r[i], r[j]) {
      assert r[i] in r && r[j] in r;
      assert r[i] in Members(d, Cpu, r[i]) && r[j] in Members(d, Cpu, r[j]);
      assert UnitBefore(d, chain, Cpu, r[i], r[j]);
    }
  }

  /** sortAvailableCPUsPacked lists exactly the free CPUs, each once, in lexicographic order of
      (free in outer unit, outer id, free in inner unit, inner id, free in core, core id, id),
      where NUMA node and socket are outer and inner or the other way round; the spread sort
      does the same socket by socket, ignoring the cores. */
  lemma CpuSortsAreLexicographic(t: CPUTopology, s: set<int>, chain: seq<Level>)
    requires WellFormed(t)
    requires chain == ChainOf(t, Cpu) || chain == SpreadChain(t)
    ensures var d := KeepOnly(t.cpuDetails, s);
      var r := SortAvailable(d, chain);
      && NoDup(r) && Elements(r) == t.cpuDetails.Keys * s
      && forall i, j :: 0 <= i < j < |r| ==> r[i] in d && r[j] in d && PathBefore(d, chain, r[i], r[j])
  {
    ChainNested(t, Cpu, s);
    CpuListIsLexicographic(KeepOnly(t.cpuDetails, s), chain);
    KeepMembers(t.cpuDetails, s, Cpu, 0);
  }
}
