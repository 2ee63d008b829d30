/** The CPU topology discovered from node settings. */
module Discovery {
  import opened Sorting
  import opened Topology
  import opened NodeSettings

  function AtLeastOne(n: int): (r: int)
    ensures r >= 1 && r >= n && (r == n || r == 1)
  {
    if n > 1 then n else 1
  }

  /** CPUs, cores and bytes of memory. */
  datatype Totals = Totals(cpus: nat, cores: nat, memory: nat)

  function TotalsOf(info: NUMAInfo, threads: int): Totals {
    Totals(|info.cpus|, |info.cpus| / AtLeastOne(threads), info.memSize)
  }

  function Plus(a: Totals, b: Totals): Totals {
    Totals(a.cpus + b.cpus, a.cores + b.cores, a.memory + b.memory)
  }

  function Sum(m: map<int, Totals>, keys: set<int>): Totals
    requires keys <= m.Keys
    decreases |keys|
  {
    if keys == {} then Totals(0, 0, 0)
    else
      var i := First(map k | k in keys :: 0, keys);
      Plus(m[i], Sum(m, keys - {i}))
  }

  /** The order in which the nodes are visited does not matter. */
  lemma {:induction false} SumAny(m: map<int, Totals>, keys: set<int>, i: int)
    requires keys <= m.Keys && i in keys
    ensures Sum(m, keys) == Plus(m[i], Sum(m, keys - {i}))
    decreases |keys|
  {
    var j := First(map k | k in keys :: 0, keys);
    if i != j {
      SumAny(m, keys - {j}, i);
      SumAny(m, keys - {i}, j);
      assert keys - {i} - {j} == keys - {j} - {i};
    }
  }

  function NodeTotals(s: Settings): map<int, Totals> {
    map i | i in s.numaNodes :: TotalsOf(s.numaNodes[i], s.numThreads)
  }

  function Memories(s: Settings): map<int, nat> {
    map i | i in s.numaNodes :: s.numaNodes[i].memSize
  }

  function AllTotals(s: Settings): Totals {
    Sum(NodeTotals(s), NodeTotals(s).Keys)
  }

  /** The numbers that turn a CPU's id into its socket, core and cache. */
  datatype Shape = Shape(cores: nat, sockets: Positive, perSocket: Positive, perCache: Positive)

  type Positive = n: int | n > 0 witness 1

  function ShapeOf(s: Settings): Shape {
    Shape(AllTotals(s).cores, AtLeastOne(s.numSockets), AtLeastOne(AllTotals(s).cores / AtLeastOne(s.numSockets)),
          AtLeastOne(AllTotals(s).cores / AtLeastOne(s.numUncoreCaches)))
  }

  function CoreOf(cpu: int, cores: int): int {
    if cpu >= cores then cpu - cores else cpu
  }

  function InfoFor(shape: Shape, node: int, cpu: int): CPUInfo {
    CPUInfo(node, (cpu / shape.perSocket) % shape.sockets, CoreOf(cpu, shape.cores),
            CoreOf(cpu, shape.cores) / shape.perCache)
  }

  /** Every CPU of every node is described, as a CPU of a node that lists it. */
  ghost predicate Fills(nodes: map<int, NUMAInfo>, shape: Shape, d: CPUDetails, done: set<int>) {
    && (forall i, c :: i in done && i in nodes && c in nodes[i].cpus ==> c in d)
    && (forall c :: c in d ==>
          var i := d[c].numaNodeID;
          i in done && i in nodes && c in nodes[i].cpus && d[c] == InfoFor(shape, i, c))
  }

  /** What discovery makes of settings. Only when two nodes list the same CPU is there a
      choice, which Go's map order makes. */
  ghost predicate Describes(s: Settings, t: CPUTopology) {
    && t.numCPUs == AllTotals(s).cpus
    && t.numCores == AllTotals(s).cores
    && t.numSockets == AtLeastOne(s.numSockets)
    && t.numNUMANodes == |Units(t.cpuDetails, Numa)|
    && t.numUncoreCache == |Units(t.cpuDetails, Uncore)|
    && Fills(s.numaNodes, ShapeOf(s), t.cpuDetails, s.numaNodes.Keys)
  }

  /** A CPU as it is discovered: the ids from the number of cores on are second threads; cores
      fill the caches one after the other, and ids fill the sockets, beginning again after the
      last. */
  lemma CPUDescribed(s: Settings, t: CPUTopology, c: int)
    requires Describes(s, t) && c in t.cpuDetails
    ensures var info, perSocket := t.cpuDetails[c], t.numCores / t.numSockets;
      var perCache := if s.numUncoreCaches > 1 then t.numCores / s.numUncoreCaches else t.numCores;
      && info.numaNodeID in s.numaNodes && c in s.numaNodes[info.numaNodeID].cpus
      && t.numSockets == (if s.numSockets > 1 then s.numSockets else 1)
      && info.coreID == (if c < t.numCores then c else c - t.numCores)
      && info.socketID == (if perSocket > 1 then c / perSocket else c) % t.numSockets
      && info.uncoreCacheID == if perCache > 1 then info.coreID / perCache else info.coreID
  {
    assert t.numCores / 1 == t.numCores && c / 1 == c;
  }

  /** When the nodes list different CPUs the outcome does not depend on the map order. */
  lemma DescribesOne(s: Settings, a: CPUTopology, b: CPUTopology)
    requires Describes(s, a) && Describes(s, b)
    requires forall i, j :: i in s.numaNodes && j in s.numaNodes && i != j ==> s.numaNodes[i].cpus !! s.numaNodes[j].cpus
    ensures a == b
  {
    forall c | c in a.cpuDetails ensures c in b.cpuDetails && a.cpuDetails[c] == b.cpuDetails[c] {
      assert c in s.numaNodes[a.cpuDetails[c].numaNodeID].cpus;
      assert c in s.numaNodes[b.cpuDetails[c].numaNodeID].cpus;
    }
    forall c | c in b.cpuDetails ensures c in a.cpuDetails {
      assert c in s.numaNodes[b.cpuDetails[c].numaNodeID].cpus;
    }
    assert a.cpuDetails == b.cpuDetails;
  }

  datatype Found = Found(topo: CPUTopology, nodeMemory: map<int, nat>, totalMemory: nat) | Incomplete

  method DiscoverFromSettings(s: Settings) returns (r: Found)
    ensures r.Incomplete? <==> s.numaNodes == map[]
    ensures r.Found? ==> Describes(s, r.topo)
    ensures r.Found? ==> r.nodeMemory == Memories(s)
    ensures r.Found? ==> r.totalMemory == AllTotals(s).memory
  {
    if s.numaNodes.Keys == {} {
      assert s.numaNodes == map[];
      return Incomplete;
    }
    var nCPUs, nCores, memTotal, memNUMA := CountNodes(s);
    var shape := Shape(nCores, AtLeastOne(s.numSockets), AtLeastOne(nCores / AtLeastOne(s.numSockets)),
                       AtLeastOne(nCores / AtLeastOne(s.numUncoreCaches)));
    var details := Fill(s.numaNodes, shape);
    return Found(CPUTopology(nCPUs, nCores, |Units(details, Uncore)|, AtLeastOne(s.numSockets), |Units(details, Numa)|,
                             details),
                 memNUMA, memTotal);
  }

  method Fill(nodes: map<int, NUMAInfo>, shape: Shape) returns (details: CPUDetails)
    ensures Fills(nodes, shape, details, nodes.Keys)
  {
    details := map[];
    var todo := nodes.Keys;
    while todo != {}
      invariant todo <= nodes.Keys && Fills(nodes, shape, details, nodes.Keys - todo)
      decreases |todo|
    {
      var i := AnyOf(todo);
      ghost var before := details;
      details := PutNode(shape, details, i, nodes[i].cpus);
      FillOneMore(nodes, shape, before, details, nodes.Keys - todo, i);
      assert nodes.Keys - (todo - {i}) == nodes.Keys - todo + {i};
      todo := todo - {i};
    }
    assert nodes.Keys - {} == nodes.Keys;
  }

  /** The map with the CPUs of one node put in. */
  ghost predicate Put(shape: Shape, before: CPUDetails, after: CPUDetails, i: int, cpus: set<int>) {
    && after.Keys == before.Keys + cpus
    && (forall c :: c in after ==> after[c] == if c in cpus then InfoFor(shape, i, c) else before[c])
  }

  lemma FillOneMore(nodes: map<int, NUMAInfo>, shape: Shape, before: CPUDetails, after: CPUDetails, done: set<int>, i: int)
    requires Fills(nodes, shape, before, done) && i in nodes && Put(shape, before, after, i, nodes[i].cpus)
    ensures Fills(nodes, shape, after, done + {i})
  {
  }

  lemma PutOneMore(shape: Shape, before: CPUDetails, after: CPUDetails, i: int, cpus: set<int>, c: int)
    requires Put(shape, before, after, i, cpus)
    ensures Put(shape, before, after[c := InfoFor(shape, i, c)], i, cpus + {c})
  {
  }

  method PutNode(shape: Shape, before: CPUDetails, i: int, cpus: set<int>) returns (details: CPUDetails)
    ensures Put(shape, before, details, i, cpus)
  {
    details := PutAll(shape, before, i, List(cpus));
    assert Elements(List(cpus)) == cpus;
  }

  method PutAll(shape: Shape, before: CPUDetails, i: int, list: seq<int>) returns (details: CPUDetails)
    ensures Put(shape, before, details, i, Elements(list))
  {
    details := before;
    PrefixElements(list);
    for k := 0 to |list|
      invariant Put(shape, before, details, i, Elements(list[..k]))
    {
      PutOneMore(shape, before, details, i, Elements(list[..k]), list[k]);
      details := PutCPU(shape, details, i, list[k]);
    }
    assert list[..|list|] == list;
  }

  lemma PrefixElements(list: seq<int>)
    ensures Elements(list[..0]) == {}
    ensures forall k :: 0 <= k < |list| ==> Elements(list[..k + 1]) == Elements(list[..k]) + {list[k]}
  {
    forall k | 0 <= k < |list| ensures Elements(list[..k + 1]) == Elements(list[..k]) + {list[k]} {
      assert list[..k + 1] == list[..k] + [list[k]];
    }
  }

  /** One CPU: its socket, core and cache follow from its id. */
  method PutCPU(shape: Shape, before: CPUDetails, node: int, cpu: int) returns (details: CPUDetails)
    ensures details == before[cpu := InfoFor(shape, node, cpu)]
  {
    var socketID := (cpu / shape.perSocket) % shape.sockets;
    var coreID := cpu;
    if coreID >= shape.cores {
      coreID := cpu - shape.cores;
    }
    var cacheID := coreID / shape.perCache;
    details := before[cpu := CPUInfo(node, socketID, coreID, cacheID)];
  }

  method CountNodes(s: Settings) returns (nCPUs: nat, nCores: nat, memTotal: nat, memNUMA: map<int, nat>)
    ensures Totals(nCPUs, nCores, memTotal) == AllTotals(s)
    ensures memNUMA == Memories(s)
  {
    nCPUs, nCores, memTotal, memNUMA := 0, 0, 0, map[];
    ghost var totals, memories := NodeTotals(s), Memories(s);
    MemoryKnown(s);
    var todo := s.numaNodes.Keys;
    while todo != {}
      invariant todo <= s.numaNodes.Keys && totals.Keys == s.numaNodes.Keys
      invariant Totals(nCPUs, nCores, memTotal) == Sum(totals, totals.Keys - todo)
      invariant memNUMA == memories - todo
      decreases |todo|
    {
      var i := AnyOf(todo);
      var more := CountNode(s, i);
      Visited(totals, todo, i);
      nCPUs := nCPUs + more.cpus;
      nCores := nCores + more.cores;
      memTotal := memTotal + more.memory;
      memNUMA := memNUMA[i := s.numaNodes[i].memSize];
      DropOneLess(memories, todo, i);
      todo := todo - {i};
    }
    assert totals.Keys - {} == totals.Keys;
  }

  lemma MemoryKnown(s: Settings)
    ensures Memories(s).Keys == s.numaNodes.Keys
    ensures forall i :: i in s.numaNodes ==> Memories(s)[i] == s.numaNodes[i].memSize
    ensures Memories(s) - s.numaNodes.Keys == map[] && Memories(s) - {} == Memories(s)
  {
  }

  lemma DropOneLess(m: map<int, nat>, todo: set<int>, i: int)
    requires i in todo && i in m
    ensures m - (todo - {i}) == (m - todo)[i := m[i]]
  {
  }

  lemma Visited(m: map<int, Totals>, todo: set<int>, i: int)
    requires todo <= m.Keys && i in todo
    ensures Sum(m, m.Keys - (todo - {i})) == Plus(m[i], Sum(m, m.Keys - todo))
  {
    SumAny(m, m.Keys - (todo - {i}), i);
    assert m.Keys - (todo - {i}) - {i} == m.Keys - todo;
  }

  method CountNode(s: Settings, i: int) returns (more: Totals)
    requires i in s.numaNodes
    ensures more == NodeTotals(s)[i]
  {
    more := Totals(|s.numaNodes[i].cpus|, |s.numaNodes[i].cpus| / AtLeastOne(s.numThreads), s.numaNodes[i].memSize);
  }
}
