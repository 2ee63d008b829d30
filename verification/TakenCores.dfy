/** Packed allocation on one NUMA node after another: what it does to cores and to the order of
    CPUs adds up. */
module TakenCores {
  import opened Sorting
  import opened Arith
  import opened Topology
  import opened PackedModel
  import opened CacheOrder
  import opened CoreCuts
  import opened CoreSplit
  import opened SpreadOrder

  /** The cores of which some but not all free CPUs are taken. */
  ghost function CutCores(t: CPUTopology, free: set<int>, s: set<int>): set<int> {
    set k | k in Units(t.cpuDetails, Core) && CutsCore(t, free, s, k)
  }

  /** The CPUs packed allocation takes from what is free of one node. */
  ghost function NodeCPUs(t: CPUTopology, a: Acc, node: int, m: int, strategy: string): set<int>
    requires WellFormed(t)
  {
    var r := Packed(t, Members(a.details, Numa, node), m, strategy, false);
    if r.Ok? then r.cpus else {}
  }

  /** Whole cores are free, and g is a number of them. */
  ghost predicate InWholeCores(t: CPUTopology, free: set<int>, g: int) {
    WholeCores(t, free) && t.CPUsPerCore() > 0 && g % t.CPUsPerCore() == 0
  }

  /** One take: a node and the number of CPUs asked of it. */
  datatype Step = Step(node: int, count: int)

  /** A node with so many CPUs left gives them in the order of packed allocation on it, not
      aligned to caches; a node with fewer gives none. */
  ghost predicate Stepped(t: CPUTopology, free: set<int>, strategy: string, step: Step, before: set<int>, after: set<int>) {
    var onNode := (free - before) * Members(t.cpuDetails, Numa, step.node);
    if 1 <= step.count <= |onNode| then
      before <= after && after - before <= onNode && InOrder(t, onNode, step.count, strategy, false, after - before)
    else after == before
  }

  /** These takes, one after the other, lead from one set of CPUs handed out to the other. */
  ghost predicate InSteps(t: CPUTopology, free: set<int>, strategy: string, first: set<int>, last: set<int>, steps: seq<Step>)
    decreases |steps|
  {
    if steps == [] then last == first
    else
      var k := |steps| - 1;
      exists mid :: InSteps(t, free, strategy, first, mid, steps[..k]) && Stepped(t, free, strategy, steps[k], mid, last)
  }

  lemma StepAdded(t: CPUTopology, free: set<int>, strategy: string, first: set<int>, mid: set<int>, last: set<int>,
                  all: seq<Step>)
    requires all != [] && InSteps(t, free, strategy, first, mid, all[..|all| - 1])
    requires Stepped(t, free, strategy, all[|all| - 1], mid, last)
    ensures InSteps(t, free, strategy, first, last, all)
  {
    hide Stepped;
  }

  lemma {:induction false} StepsBoth(t: CPUTopology, free: set<int>, strategy: string, first: set<int>, middle: set<int>,
                                     last: set<int>, p: seq<Step>, q: seq<Step>)
    requires InSteps(t, free, strategy, first, middle, p) && InSteps(t, free, strategy, middle, last, q)
    ensures InSteps(t, free, strategy, first, last, p + q)
    decreases |q|
  {
    hide Stepped;
    if q == [] {
      assert p + q == p;
    } else {
      var k := |q| - 1;
      var mid :| InSteps(t, free, strategy, middle, mid, q[..k]) && Stepped(t, free, strategy, q[k], mid, last);
      StepsBoth(t, free, strategy, first, middle, mid, p, q[..k]);
      var all := p + q;
      assert all[..|all| - 1] == p + q[..k] && all[|all| - 1] == q[k];
      StepAdded(t, free, strategy, first, mid, last, all);
    }
  }

  lemma OneStep(t: CPUTopology, free: set<int>, strategy: string, step: Step, before: set<int>, after: set<int>)
    requires Stepped(t, free, strategy, step, before, after)
    ensures InSteps(t, free, strategy, before, after, [step])
  {
    hide Stepped;
    assert [step][..0] == [];
    assert InSteps(t, free, strategy, before, before, [step][..0]);
    StepAdded(t, free, strategy, before, before, after, [step]);
  }

  /** From a to b by these takes, in multiples of g: at most as many more cores are cut, none
      when g is whole cores, and of each node and socket the lowest CPUs are taken when they are
      to be spread. */
  ghost predicate Kept(t: CPUTopology, free: set<int>, strategy: string, g: int, a: Acc, b: Acc, steps: seq<Step>) {
    && InSteps(t, free, strategy, a.result, b.result, steps)
    && (strategy == "packed" ==> |CutCores(t, free, b.result)| <= |CutCores(t, free, a.result)| + |steps|)
    && (strategy == "packed" && InWholeCores(t, free, g) && WholeCores(t, a.result) ==> WholeCores(t, b.result))
    && (strategy == "spread" && LowestFirst(t, free, a.result) ==> LowestFirst(t, free, b.result))
  }

  /** The same of what was handed out in the end. */
  ghost predicate KeptCores(t: CPUTopology, free: set<int>, strategy: string, g: int, s: set<int>, takes: int) {
    && (strategy == "packed" ==> |CutCores(t, free, s)| <= takes)
    && (strategy == "packed" && InWholeCores(t, free, g) ==> WholeCores(t, s))
    && (strategy == "spread" ==> LowestFirst(t, free, s))
  }

  lemma KeptFromStart(t: CPUTopology, free: set<int>, strategy: string, g: int, a: Acc, b: Acc, steps: seq<Step>)
    requires Kept(t, free, strategy, g, a, b, steps) && a.result == {}
    ensures KeptCores(t, free, strategy, g, b.result, |steps|) && InSteps(t, free, strategy, {}, b.result, steps)
  {
    assert CutCores(t, free, {}) == {};
  }

  /** So it is of a single packed allocation on the whole machine. */
  lemma PackedKept(t: CPUTopology, available: set<int>, n: int, strategy: string, g: int)
    requires WellFormed(t) && 1 <= n <= |t.cpuDetails.Keys * available| && g > 0 && n % g == 0
    ensures var r := Packed(t, available, n, strategy, false);
      r.Ok? && KeptCores(t, t.cpuDetails.Keys * available, strategy, g, r.cpus, 1)
  {
    var free, r := t.cpuDetails.Keys * available, Packed(t, available, n, strategy, false);
    PackedSafe(t, available, n, strategy, false);
    if strategy == "packed" {
      PackedCutsAtMostOneCore(t, available, n, false);
      FewCuts(t, free, r.cpus);
      if InWholeCores(t, free, g) {
        MultipleOfMultiple(n, g, t.CPUsPerCore());
        PackedKeepsWholeCores(t, available, n, false);
      }
    } else if strategy == "spread" {
      SpreadTakesLowest(t, available, n);
    }
  }

  lemma FewCuts(t: CPUTopology, free: set<int>, s: set<int>)
    requires AtMostOneCut(t, free, s)
    ensures |CutCores(t, free, s)| <= 1
  {
    var cut := CutCores(t, free, s);
    if cut != {} {
      var k := Pick(cut);
      assert forall j :: j in cut ==> CutsCore(t, free, s, j) && CutsCore(t, free, s, k);
      SubsetSize(cut, {k});
    }
  }

  lemma KeptBoth(t: CPUTopology, free: set<int>, strategy: string, g: int, a: Acc, b: Acc, c: Acc, p: seq<Step>,
                q: seq<Step>)
    requires Kept(t, free, strategy, g, a, b, p) && Kept(t, free, strategy, g, b, c, q)
    ensures Kept(t, free, strategy, g, a, c, p + q)
  {
    StepsBoth(t, free, strategy, a.result, b.result, c.result, p, q);
  }

  lemma KeptNothing(t: CPUTopology, free: set<int>, strategy: string, g: int, a: Acc)
    ensures Kept(t, free, strategy, g, a, a, [])
  {
  }

  // ---- one take

  ghost predicate OnNode(t: CPUTopology, free: set<int>, a: Acc, node: int, cpus: set<int>) {
    Safe(t, free, a) && cpus <= Members(a.details, Numa, node)
  }

  lemma NodeIs(t: CPUTopology, free: set<int>, a: Acc, node: int)
    requires Safe(t, free, a)
    ensures Members(a.details, Numa, node) == Members(t.cpuDetails, Numa, node) * (free - a.result)
    ensures t.cpuDetails.Keys * Members(a.details, Numa, node) == Members(a.details, Numa, node)
  {
    KeepMembers(t.cpuDetails, free - a.result, Numa, node);
  }

  lemma NotWithin(a: set<int>, b: set<int>)
    requires !(a <= b)
    ensures a - b != {}
  {
    assert a == a * b + (a - b);
  }

  /** A core that is cut afterwards was cut before or is the one this take cuts. */
  lemma NewCut(t: CPUTopology, free: set<int>, a: Acc, node: int, cpus: set<int>, k: int)
    requires WellFormed(t) && OnNode(t, free, a, node, cpus) && CutsCore(t, free, a.result + cpus, k)
    ensures CutsCore(t, free, a.result, k) || CutsCore(t, Members(a.details, Numa, node), cpus, k)
  {
    var m, onNode := Members(t.cpuDetails, Core, k), Members(a.details, Numa, node);
    NodeIs(t, free, a, node);
    assert m * (a.result + cpus) == m * a.result + m * cpus;
    if m * a.result == {} {
      NotWithin(m * free, a.result + cpus);
      var c := Pick(m * cpus);
      var x := Pick(m * free - (a.result + cpus));
      assert UnitOf(t.cpuDetails, Numa, x) == UnitOf(t.cpuDetails, Numa, c);
      assert x in m * onNode;
    }
  }

  lemma OneMoreCut(t: CPUTopology, free: set<int>, a: Acc, node: int, cpus: set<int>)
    requires WellFormed(t) && OnNode(t, free, a, node, cpus)
    requires AtMostOneCut(t, Members(a.details, Numa, node), cpus)
    ensures |CutCores(t, free, a.result + cpus)| <= |CutCores(t, free, a.result)| + 1
  {
    var before, after := CutCores(t, free, a.result), CutCores(t, free, a.result + cpus);
    forall k | k in after ensures k in before || CutsCore(t, Members(a.details, Numa, node), cpus, k) {
      NewCut(t, free, a, node, cpus, k);
    }
    if after - before != {} {
      var k := Pick(after - before);
      assert forall j :: j in after ==> j in before + {k};
      SubsetSize(after, before + {k});
    } else {
      assert after == after * before + (after - before);
      SubsetSize(after, before);
    }
  }

  lemma NodeIsWhole(t: CPUTopology, free: set<int>, a: Acc, node: int)
    requires WellFormed(t) && Safe(t, free, a) && WholeCores(t, free) && WholeCores(t, a.result)
    ensures WholeCores(t, Members(a.details, Numa, node))
  {
    NodeIs(t, free, a, node);
    UnitIsWhole(t, Numa, node);
    WholeUnion(t, free, a.result);
    WholeMeet(t, Members(t.cpuDetails, Numa, node), free - a.result);
  }

  lemma WholeTake(t: CPUTopology, free: set<int>, a: Acc, node: int, m: int)
    requires WellFormed(t) && Safe(t, free, a) && WholeCores(t, free) && WholeCores(t, a.result)
    requires t.CPUsPerCore() > 0 && m % t.CPUsPerCore() == 0 && m <= |Members(a.details, Numa, node)|
    ensures WholeCores(t, a.result + NodeCPUs(t, a, node, m, PACKED))
  {
    NodeIsWhole(t, free, a, node);
    NodeIs(t, free, a, node);
    PackedKeepsWholeCores(t, Members(a.details, Numa, node), m, false);
    WholeUnion(t, a.result, NodeCPUs(t, a, node, m, PACKED));
  }

  lemma LowestTake(t: CPUTopology, free: set<int>, a: Acc, node: int, m: int)
    requires WellFormed(t) && Safe(t, free, a) && LowestFirst(t, free, a.result)
    requires m <= |Members(a.details, Numa, node)| && NodeCPUs(t, a, node, m, SPREAD) <= Members(a.details, Numa, node)
    ensures LowestFirst(t, free, a.result + NodeCPUs(t, a, node, m, SPREAD))
  {
    var onNode, cpus := Members(a.details, Numa, node), NodeCPUs(t, a, node, m, SPREAD);
    NodeIs(t, free, a, node);
    SpreadTakesLowest(t, onNode, m);
    assert onNode == (free - a.result) * Members(t.cpuDetails, Numa, node);
    LowestOnNode(t, free - a.result, node, cpus);
    LowestTwice(t, free, a.result, cpus);
  }

  /** A node that is asked for more than it has gives nothing. */
  lemma TooFew(t: CPUTopology, free: set<int>, a: Acc, node: int, m: int, strategy: string)
    requires WellFormed(t) && Safe(t, free, a)
    ensures var onNode, cpus := Members(a.details, Numa, node), NodeCPUs(t, a, node, m, strategy);
      && cpus <= onNode && (m > |onNode| ==> cpus == {})
      && (m <= |onNode| ==> Packed(t, onNode, m, strategy, false) == Ok(cpus))
  {
    NodeIs(t, free, a, node);
    PackedSafe(t, Members(a.details, Numa, node), m, strategy, false);
  }

  lemma MultipleOfMultiple(m: int, g: int, size: int)
    requires g > 0 && size > 0 && m % g == 0 && g % size == 0
    ensures m % size == 0
  {
    var q, p := m / g, g / size;
    assert m == g * q && g == size * p;
    assert (size * p) * q == size * (p * q);
    DivModUnique(size, p * q, 0);
  }

  /** One take of a multiple of g from one node. */
  lemma TakeKept(t: CPUTopology, free: set<int>, strategy: string, g: int, a: Acc, node: int, m: int)
    requires WellFormed(t) && Safe(t, free, a) && g > 0 && m % g == 0
    ensures Kept(t, free, strategy, g, a, Take(a, NodeCPUs(t, a, node, m, strategy)), [Step(node, m)])
  {
    hide *;
    var cpus := NodeCPUs(t, a, node, m, strategy);
    TakeStepped(t, free, strategy, a, node, m);
    FewMoreCuts(t, free, strategy, g, a, node, m, cpus);
    StaysLowest(t, free, strategy, a, node, m, cpus);
    KeptWith(t, free, strategy, g, a, cpus, Step(node, m));
  }

  lemma FewMoreCuts(t: CPUTopology, free: set<int>, strategy: string, g: int, a: Acc, node: int, m: int, cpus: set<int>)
    requires WellFormed(t) && Safe(t, free, a) && g > 0 && m % g == 0 && cpus == NodeCPUs(t, a, node, m, strategy)
    ensures strategy == "packed" ==> |CutCores(t, free, a.result + cpus)| <= |CutCores(t, free, a.result)| + 1
    ensures strategy == "packed" && InWholeCores(t, free, g) && WholeCores(t, a.result) ==> WholeCores(t, a.result + cpus)
  {
    hide WholeCores, CutCores, NodeCPUs, InWholeCores, WellFormed;
    if strategy == "packed" {
      TooFew(t, free, a, node, m, strategy);
      if m > |Members(a.details, Numa, node)| {
        assert a.result + cpus == a.result;
      } else {
        PackedTake(t, free, g, a, node, m);
      }
    }
  }

  lemma StaysLowest(t: CPUTopology, free: set<int>, strategy: string, a: Acc, node: int, m: int, cpus: set<int>)
    requires WellFormed(t) && Safe(t, free, a) && cpus == NodeCPUs(t, a, node, m, strategy)
    ensures strategy == "spread" && LowestFirst(t, free, a.result) ==> LowestFirst(t, free, a.result + cpus)
  {
    hide LowestFirst, NodeCPUs, WellFormed;
    if strategy == "spread" && LowestFirst(t, free, a.result) {
      TooFew(t, free, a, node, m, strategy);
      if m > |Members(a.details, Numa, node)| {
        assert a.result + cpus == a.result;
      } else {
        LowestTake(t, free, a, node, m);
      }
    }
  }

  lemma SteppedIs(t: CPUTopology, free: set<int>, strategy: string, step: Step, before: set<int>, cpus: set<int>,
                  onNode: set<int>)
    requires onNode == Members(t.cpuDetails, Numa, step.node) * (free - before) && cpus <= onNode
    ensures 1 <= step.count <= |onNode| && InOrder(t, onNode, step.count, strategy, false, cpus) ==>
      Stepped(t, free, strategy, step, before, before + cpus)
    ensures !(1 <= step.count <= |onNode|) && cpus == {} ==> Stepped(t, free, strategy, step, before, before + cpus)
  {
    hide InOrder;
    assert onNode == (free - before) * Members(t.cpuDetails, Numa, step.node);
    assert before + cpus - before == cpus;
    assert before + {} == before;
  }

  lemma TakeStepped(t: CPUTopology, free: set<int>, strategy: string, a: Acc, node: int, m: int)
    requires WellFormed(t) && Safe(t, free, a)
    ensures Stepped(t, free, strategy, Step(node, m), a.result, a.result + NodeCPUs(t, a, node, m, strategy))
  {
    hide *;
    var onNode, cpus := Members(a.details, Numa, node), NodeCPUs(t, a, node, m, strategy);
    TooFew(t, free, a, node, m, strategy);
    NodeIs(t, free, a, node);
    SteppedIs(t, free, strategy, Step(node, m), a.result, cpus, onNode);
    if 1 <= m <= |onNode| {
      PackedInOrder(t, onNode, m, strategy, false);
    } else if m <= |onNode| {
      PackedSafe(t, onNode, m, strategy, false);
    }
  }

  lemma KeptWith(t: CPUTopology, free: set<int>, strategy: string, g: int, a: Acc, cpus: set<int>, step: Step)
    requires Stepped(t, free, strategy, step, a.result, a.result + cpus)
    requires strategy == "packed" ==> |CutCores(t, free, a.result + cpus)| <= |CutCores(t, free, a.result)| + 1
    requires strategy == "packed" && InWholeCores(t, free, g) && WholeCores(t, a.result) ==> WholeCores(t, a.result + cpus)
    requires strategy == "spread" && LowestFirst(t, free, a.result) ==> LowestFirst(t, free, a.result + cpus)
    ensures Kept(t, free, strategy, g, a, Take(a, cpus), [step])
  {
    hide Stepped;
    OneStep(t, free, strategy, step, a.result, a.result + cpus);
  }

  lemma PackedTake(t: CPUTopology, free: set<int>, g: int, a: Acc, node: int, m: int)
    requires WellFormed(t) && Safe(t, free, a) && g > 0 && m % g == 0 && m <= |Members(a.details, Numa, node)|
    ensures var s := a.result + NodeCPUs(t, a, node, m, "packed");
      && |CutCores(t, free, s)| <= |CutCores(t, free, a.result)| + 1
      && (InWholeCores(t, free, g) && WholeCores(t, a.result) ==> WholeCores(t, s))
  {
    TooFew(t, free, a, node, m, PACKED);
    NodeIs(t, free, a, node);
    PackedCutsAtMostOneCore(t, Members(a.details, Numa, node), m, false);
    OneMoreCut(t, free, a, node, NodeCPUs(t, a, node, m, PACKED));
    if InWholeCores(t, free, g) && WholeCores(t, a.result) {
      MultipleOfMultiple(m, g, t.CPUsPerCore());
      WholeTake(t, free, a, node, m);
    }
  }
}
