/** takeByTopologyNUMADistributed: a request is spread evenly over the fewest NUMA nodes that
    can share it, the remainder going to the nodes that leave the machine best balanced. */
module Distributed {
  import opened Sorting
  import opened Arith
  import opened Topology
  import opened UnitOrder
  import opened PackedModel
  import opened Accumulator
  import opened Combinations
  import opened Spreading
  import opened BalanceSearch
  import opened CandidateSizes
  import opened CarryingOut
  import opened TakenCores
  import opened CacheOrder

  // ---- how many nodes can be needed

  /** The groups a node holds on average, rounded up, on a machine of the given size. */
  function GroupsPerNode(cpus: int, nodes: int, g: int): (r: int)
    requires g > 0 && cpus > 0 && nodes > 0
    ensures r > 0
  {
    CeilDivBound(cpus, g);
    CeilDivBound(CeilDiv(cpus, g), nodes);
    CeilDiv(CeilDiv(cpus, g), nodes)
  }

  /** rangeNUMANodesNeededToSatisfy. */
  function NodesNeeded(cpus: int, nodes: int, nodesAvailable: int, n: int, g: int): (int, int)
    requires g > 0 && cpus > 0 && nodes > 0
  {
    var needed := CeilDiv(n, g);
    (CeilDiv(needed, GroupsPerNode(cpus, nodes, g)), if needed < nodesAvailable then needed else nodesAvailable)
  }

  /** The range as numbers: as many nodes as are needed if each held the average of its groups,
      rounded up, to as many as there are groups or free nodes. */
  lemma RangeIs(cpus: int, nodes: int, nodesAvailable: int, n: int, g: int)
    requires g > 0 && cpus > 0 && nodes > 0 && n > 0
    ensures var (lo, hi) := NodesNeeded(cpus, nodes, nodesAvailable, n, g);
      var groups, perNode := (n + g - 1) / g, ((cpus + g - 1) / g + nodes - 1) / nodes;
      && perNode > 0 && lo == (groups + perNode - 1) / perNode
      && hi == if groups < nodesAvailable then groups else nodesAvailable
  {
    CeilDivIs(n, g);
    CeilDivIs(cpus, g);
    CeilDivIs(CeilDiv(cpus, g), nodes);
    CeilDivIs(CeilDiv(n, g), GroupsPerNode(cpus, nodes, g));
  }

  lemma CeilDivIs(a: int, b: int)
    requires b > 0
    ensures CeilDiv(a, b) == (a + b - 1) / b
  {
    var q, m := (a - 1) / b, (a - 1) % b;
    assert a - 1 == b * q + m;
    assert a + b - 1 == b * (q + 1) + m;
    DivModUnique(b, q + 1, m);
  }

  /** On a machine of equal nodes no node holds more groups than the average, rounded up. */
  lemma NodeHoldsAtMost(cpus: int, nodes: int, size: int, g: int)
    requires g > 0 && nodes > 0 && size > 0 && cpus == nodes * size && cpus > 0
    ensures size / g <= GroupsPerNode(cpus, nodes, g)
  {
    var p, c := GroupsPerNode(cpus, nodes, g), CeilDiv(cpus, g);
    CeilDivBound(cpus, g);
    CeilDivBound(c, nodes);
    assert nodes * (g * p) >= nodes * size by {
      MulMonotone(g, c, nodes * p);
      assert g * (nodes * p) == nodes * (g * p);
    }
    MulCancel(nodes, size, g * p);
    DivMonotone(size, g * p, g);
    DivModUnique(g, p, 0);
  }

  /** No combination below the lower end of the range can hold the request. */
  lemma NoSmallerCombination(t: CPUTopology, free: NodeCounts, combo: seq<int>, size: int, n: int, g: int)
    requires g > 0 && t.cpuDetails.Keys != {} && Uniform(t.cpuDetails, Numa, size)
    requires combo != [] && Covers(free, combo) && Passes(free, combo, n, g) && n >= 1
    requires forall i :: 0 <= i < |combo| ==> free[combo[i]] <= size
    requires |t.cpuDetails.Keys| > 0 && |Units(t.cpuDetails, Numa)| > 0
    ensures |combo| >= NodesNeeded(|t.cpuDetails.Keys|, |Units(t.cpuDetails, Numa)|, 0, n, g).0
  {
    var cpus, nodes := |t.cpuDetails.Keys|, |Units(t.cpuDetails, Numa)|;
    UniformTotal(t.cpuDetails, Numa, Units(t.cpuDetails, Numa), size);
    assert MembersOf(t.cpuDetails, Numa, Units(t.cpuDetails, Numa)) == t.cpuDetails.Keys;
    var u := Pick(Units(t.cpuDetails, Numa));
    MembersNonEmpty(t.cpuDetails, Numa, u);
    NodeHoldsAtMost(cpus, nodes, size, g);
    var p := GroupsPerNode(cpus, nodes, g);
    forall i | 0 <= i < |combo| ensures free[combo[i]] / g <= p {
      DivMonotone(free[combo[i]], size, g);
    }
    GroupsBound(free, combo, g, p);
    EnoughNodes(Groups(free, combo, g), |combo|, p, n, g);
  }

  lemma EnoughNodes(groups: int, k: int, p: int, n: int, g: int)
    requires g > 0 && p > 0 && n >= 1 && groups * g >= n && groups <= k * p
    ensures k >= CeilDiv(CeilDiv(n, g), p)
  {
    var needed := CeilDiv(n, g);
    CeilDivBound(n, g);
    CeilDivBound(needed, p);
    if groups < needed {
      MulMonotone(g, groups, needed - 1);
    }
    var low := CeilDiv(needed, p);
    if k < low {
      MulMonotone(p, k, low - 1);
    }
  }

  /** A candidate combination of the fewest nodes, and among those of the least balance. */
  ghost predicate BestSmallest(free: NodeCounts, numas: seq<int>, n: int, g: int, score: Score, choice: Choice) {
    && (choice.Found? ==>
          choice.combo in Combos(numas, |choice.combo|)
          && Candidate(free, choice.combo, n, g, score, choice.remainder, choice.balance))
    && forall k: nat, combo, rem, bal ::
         (combo in Combos(numas, k) && Candidate(free, combo, n, g, score, rem, bal)
          ==> choice.Found? && (|choice.combo| < |combo| || (|choice.combo| == |combo| && choice.balance <= bal)))
  }

  // ---- the distributed allocator

  /** The NUMA nodes with free CPUs, in the order the search considers them. */
  function FreeNodes(t: CPUTopology, available: set<int>): seq<int> {
    SortAvailable(KeepOnly(t.cpuDetails, available), ChainOf(t, Numa))
  }

  function FreeCounts(t: CPUTopology, available: set<int>): NodeCounts {
    NodeFree(KeepOnly(t.cpuDetails, available), FreeNodes(t, available))
  }

  /** Every node holds whole groups of free CPUs: always so for groups of one. */
  ghost predicate WholeGroupsFree(t: CPUTopology, available: set<int>, g: int) {
    g > 0 && forall u :: u in Units(t.cpuDetails, Numa) ==> |Members(KeepOnly(t.cpuDetails, available), Numa, u)| % g == 0
  }

  lemma FreeNodesFacts(t: CPUTopology, available: set<int>)
    requires WellFormed(t)
    ensures var numas, d := FreeNodes(t, available), KeepOnly(t.cpuDetails, available);
      && NoDup(numas) && Elements(numas) == Units(d, Numa) && |numas| == |Units(d, Numa)|
      && FreeCounts(t, available).Keys == Units(d, Numa)
      && (forall u :: u in FreeCounts(t, available) ==> FreeCounts(t, available)[u] > 0 && u in Units(t.cpuDetails, Numa))
  {
    var numas, d := FreeNodes(t, available), KeepOnly(t.cpuDetails, available);
    ChainNested(t, Numa, available);
    AvailableElements(d, ChainOf(t, Numa));
    AvailableNoDup(d, ChainOf(t, Numa));
    NoDupSize(numas);
    forall u | u in FreeCounts(t, available) ensures FreeCounts(t, available)[u] > 0 && u in Units(t.cpuDetails, Numa) {
      MembersNonEmpty(d, Numa, u);
      var c :| c in d && UnitOf(d, Numa, c) == u;
      assert UnitOf(t.cpuDetails, Numa, c) == u;
    }
  }

  lemma WholeGroupsHere(t: CPUTopology, available: set<int>, g: int)
    requires WellFormed(t) && WholeGroupsFree(t, available, g)
    ensures WholeGroups(FreeCounts(t, available), g)
  {
    FreeNodesFacts(t, available);
  }

  /** What the search predicts for a plan is there to be taken: every node has its share, and
      the remainder loop ends, as it did in the search. */
  lemma PlanIsFeasible(free: NodeCounts, combo: seq<int>, n: int, g: int, score: Score, rem: seq<int>, bal: real)
    requires Candidate(free, combo, n, g, score, rem, bal) && n >= 1 && n % g == 0 && NoDup(combo)
    requires ComboEnds(free, combo, n, g)
    ensures Share(n, |combo|, g) >= 0 && AllGive(free, combo, Share(n, |combo|, g))
    ensures CanGive(After(free, combo, Share(n, |combo|, g)), rem, Rest(n, |combo|, g), g)
  {
    var share := Share(n, |combo|, g);
    var after, r := After(free, combo, share), Rest(n, |combo|, g);
    ShareFacts(n, |combo|, g);
    RemainderFacts(n, |combo|, g);
    if r != 0 {
      CombosElement(RemainderNodes(after, combo, g), |rem|, rem);
      assert EnoughGroups(after, rem, r, g);
    }
  }

  /** The counts the plan leaves on the nodes, as the search has them. */
  function PlannedCounts(free: NodeCounts, combo: seq<int>, rem: seq<int>, share: int, remainder: int, g: int): NodeCounts
    requires g > 0 && Covers(free, rem)
  {
    Spread(After(free, combo, share), rem, remainder, g)
  }

  /** Nothing was found among the combinations of lo to hi - 1 nodes. */
  ghost predicate NoneBetween(free: NodeCounts, numas: seq<int>, n: int, g: int, score: Score, lo: int, hi: int) {
    forall k: nat :: lo <= k < hi ==> NoCandidates(free, Combos(numas, k), n, g, score)
  }

  ghost predicate NoCandidates(free: NodeCounts, combos: seq<seq<int>>, n: int, g: int, score: Score) {
    forall combo, rem, bal :: combo in combos ==> !Candidate(free, combo, n, g, score, rem, bal)
  }

  lemma NotFoundBeatsAll(free: NodeCounts, combos: seq<seq<int>>, n: int, g: int, score: Score)
    requires BeatsAll(free, combos, n, g, score, NotFound)
    ensures NoCandidates(free, combos, n, g, score)
  {
    forall combo, rem, bal | combo in combos ensures !Candidate(free, combo, n, g, score, rem, bal) {
      assert !Beaten(NotFound, bal);
    }
  }

  /** What the loop over sizes lo, lo + 1, ... leaves behind when it ends at size k. */
  ghost predicate Searched(free: NodeCounts, numas: seq<int>, n: int, g: int, score: Score, lo: int, k: nat, choice: Choice) {
    && NoneBetween(free, numas, n, g, score, lo, k)
    && Chosen(free, Combos(numas, k), n, g, score, choice)
    && (choice.Found? ==> BeatsAll(free, Combos(numas, k), n, g, score, choice) && ComboEnds(free, choice.combo, n, g))
    && Holds(free, numas, n, g, choice)
  }

  lemma SearchedBest(free: NodeCounts, numas: seq<int>, n: int, g: int, score: Score, lo: int, k: nat, choice: Choice)
    requires Searched(free, numas, n, g, score, lo, k, choice)
    requires forall j: nat, combo, rem, bal ::
      (combo in Combos(numas, j) && Candidate(free, combo, n, g, score, rem, bal) ==> j >= lo)
    requires choice.NotFound? ==> k > |numas|
    ensures BestSmallest(free, numas, n, g, score, choice)
  {
    if choice.Found? {
      CombosElement(numas, k, choice.combo);
    }
    forall j: nat, combo, rem, bal | combo in Combos(numas, j) && Candidate(free, combo, n, g, score, rem, bal)
      ensures choice.Found? && (|choice.combo| < |combo| || (|choice.combo| == |combo| && choice.balance <= bal))
    {
      CombosElement(numas, j, combo);
      assert j >= k by {
        assert lo <= j < k ==> NoCandidates(free, Combos(numas, j), n, g, score);
      }
      if j == k {
        assert Beaten(choice, bal);
      }
    }
  }

  /** The sizes below the range hold no candidate. */
  lemma LowerEnd(t: CPUTopology, available: set<int>, n: int, g: int, score: Score, size: int, j: nat, combo: seq<int>,
                 rem: seq<int>, bal: real)
    requires WellFormed(t) && Uniform(t.cpuDetails, Numa, size) && g > 0 && n >= 1
    requires |t.cpuDetails.Keys| > 0 && |Units(t.cpuDetails, Numa)| > 0
    requires combo in Combos(FreeNodes(t, available), j)
    requires Candidate(FreeCounts(t, available), combo, n, g, score, rem, bal)
    ensures j >= NodesNeeded(|t.cpuDetails.Keys|, |Units(t.cpuDetails, Numa)|, |FreeNodes(t, available)|, n, g).0
  {
    CombosElement(FreeNodes(t, available), j, combo);
    NodeAtMost(t, available, size);
    NoSmallerCombination(t, FreeCounts(t, available), combo, size, n, g);
  }

  /** On a machine of equal nodes the pruned search finds the best of all combinations, of
      whatever size, if it finds one. If it finds none, none qualifies unless more nodes are
      free than groups are asked for and together they have the groups: then, and only then,
      the range of sizes leaves out a combination that does. With whole groups everywhere, for
      at most three groups and with at most four free nodes it leaves out none. */
  lemma SearchIsExhaustive(t: CPUTopology, available: set<int>, n: int, g: int, score: Score, size: int, k: nat, choice: Choice)
    requires WellFormed(t) && Uniform(t.cpuDetails, Numa, size) && g > 0
    requires n >= 1 && n % g == 0 && |t.cpuDetails.Keys| > 0 && |Units(t.cpuDetails, Numa)| > 0
    requires var (lo, hi) := NodesNeeded(|t.cpuDetails.Keys|, |Units(t.cpuDetails, Numa)|, |FreeNodes(t, available)|, n, g);
      && Searched(FreeCounts(t, available), FreeNodes(t, available), n, g, score, lo, k, choice)
      && (choice.NotFound? ==> k > hi)
    ensures Exhausted(t, available, n, g, score, choice)
  {
    var free, numas := FreeCounts(t, available), FreeNodes(t, available);
    var (lo, hi) := NodesNeeded(|t.cpuDetails.Keys|, |Units(t.cpuDetails, Numa)|, |numas|, n, g);
    forall j: nat, combo, rem, bal | combo in Combos(numas, j) && Candidate(free, combo, n, g, score, rem, bal)
      ensures j >= lo
    {
      LowerEnd(t, available, n, g, score, size, j, combo, rem, bal);
    }
    if choice.Found? {
      SearchedBest(free, numas, n, g, score, lo, k, choice);
    } else {
      NoneUpTo(free, numas, n, g, score, lo, k);
      NoneFound(t, available, n, g, score);
    }
  }

  lemma NoneFound(t: CPUTopology, available: set<int>, n: int, g: int, score: Score)
    requires WellFormed(t) && g > 0 && n >= 1 && n % g == 0
    requires forall j: nat :: j <= CeilDiv(n, g) ==> NoCandidates(FreeCounts(t, available), Combos(FreeNodes(t, available), j), n, g, score)
    ensures Exhausted(t, available, n, g, score, NotFound)
  {
    var free, numas := FreeCounts(t, available), FreeNodes(t, available);
    NodesCovered(t, available);
    MissesIff(t, available, n, g, score);
    if n <= 3 * g || |numas| <= 4 {
      NothingMissed(free, numas, n, g, score);
    }
    if WholeGroupsFree(t, available, g) {
      WholeGroupsHere(t, available, g);
      WholeMissNothing(free, numas, n, g, score);
    }
  }

  /** With whole groups everywhere as many nodes as groups would have done. */
  lemma WholeMissNothing(free: NodeCounts, numas: seq<int>, n: int, g: int, score: Score)
    requires g > 0 && n >= 1 && n % g == 0 && WholeGroups(free, g) && NoDup(numas) && Covers(free, numas)
    requires forall i :: 0 <= i < |numas| ==> free[numas[i]] > 0
    requires forall j: nat :: j <= CeilDiv(n, g) ==> NoCandidates(free, Combos(numas, j), n, g, score)
    ensures !Wider(free, numas, n, g)
  {
    OneGroupShares(n, g);
    if n / g < |numas| {
      OneGroupEach(free, numas, n, g, score);
    }
  }

  /** With nothing found up to as many nodes as groups, all that can be left is wider. */
  lemma MissesIff(t: CPUTopology, available: set<int>, n: int, g: int, score: Score)
    requires WellFormed(t) && g > 0 && n >= 1 && n % g == 0
    requires forall j: nat :: j <= CeilDiv(n, g) ==> NoCandidates(FreeCounts(t, available), Combos(FreeNodes(t, available), j), n, g, score)
    ensures BestSmallest(FreeCounts(t, available), FreeNodes(t, available), n, g, score, NotFound)
      <==> !Wider(FreeCounts(t, available), FreeNodes(t, available), n, g)
  {
    var free, numas := FreeCounts(t, available), FreeNodes(t, available);
    NodesCovered(t, available);
    OneGroupShares(n, g);
    WiderIff(free, numas, n, g, score);
    NoneAtAll(free, numas, n, g, score);
  }

  lemma NoneAtAll(free: NodeCounts, numas: seq<int>, n: int, g: int, score: Score)
    requires g > 0 && CeilDiv(n, g) == n / g
    requires forall j: nat :: j <= n / g ==> NoCandidates(free, Combos(numas, j), n, g, score)
    ensures BestSmallest(free, numas, n, g, score, NotFound)
      <==> !exists k: nat :: k > n / g && HasCandidate(free, numas, n, g, score, k)
  {
    if !exists k: nat :: k > n / g && HasCandidate(free, numas, n, g, score, k) {
      forall k: nat, combo, rem, bal | combo in Combos(numas, k) ensures !Candidate(free, combo, n, g, score, rem, bal) {
        if k <= n / g {
          assert NoCandidates(free, Combos(numas, k), n, g, score);
        } else {
          assert !HasCandidate(free, numas, n, g, score, k);
        }
      }
    }
  }

  lemma NothingMissed(free: NodeCounts, numas: seq<int>, n: int, g: int, score: Score)
    requires g > 0 && n >= 1 && n % g == 0 && Listing(free, numas) && (n <= 3 * g || |numas| <= 4)
    requires forall j: nat :: j <= CeilDiv(n, g) ==> NoCandidates(free, Combos(numas, j), n, g, score)
    ensures !Wider(free, numas, n, g)
  {
    OneGroupShares(n, g);
    NotShared(free, numas, n, g, score);
    if Wider(free, numas, n, g) {
      AtMostThree(n, g, |numas|);
      FewGroupsQualify(free, numas, n, g, score);
    }
  }

  lemma NotShared(free: NodeCounts, numas: seq<int>, n: int, g: int, score: Score)
    requires g > 0 && CeilDiv(n, g) == n / g
    requires forall j: nat :: j <= CeilDiv(n, g) ==> NoCandidates(free, Combos(numas, j), n, g, score)
    ensures !SharedUpTo(free, numas, n, g, score, n / g)
  {
    forall k: nat | 1 <= k <= n / g ensures !HasCandidate(free, numas, n, g, score, k) {
      assert NoCandidates(free, Combos(numas, k), n, g, score);
    }
  }

  lemma AtMostThree(n: int, g: int, nodes: nat)
    requires g > 0 && n >= 1 && n % g == 0 && (n <= 3 * g || n / g < nodes <= 4)
    ensures n <= 3 * g
  {
    PositiveMultiple(n, g);
    if n / g <= 3 {
      MulMonotone(g, n / g, 3);
    }
  }

  /** Nothing was found in the range, so nothing is there up to its upper end. */
  lemma NoneUpTo(free: NodeCounts, numas: seq<int>, n: int, g: int, score: Score, lo: int, k: nat)
    requires NoneBetween(free, numas, n, g, score, lo, k) && g > 0
    requires k > if CeilDiv(n, g) < |numas| then CeilDiv(n, g) else |numas|
    requires forall j: nat, combo, rem, bal ::
      (combo in Combos(numas, j) && Candidate(free, combo, n, g, score, rem, bal) ==> j >= lo)
    ensures forall j: nat :: j <= CeilDiv(n, g) ==> NoCandidates(free, Combos(numas, j), n, g, score)
  {
    forall j: nat | j <= CeilDiv(n, g) ensures NoCandidates(free, Combos(numas, j), n, g, score) {
      forall combo, rem, bal | combo in Combos(numas, j) ensures !Candidate(free, combo, n, g, score, rem, bal) {
        CombosElement(numas, j, combo);
        assert lo <= j < k ==> NoCandidates(free, Combos(numas, j), n, g, score);
      }
    }
  }

  lemma NodesCovered(t: CPUTopology, available: set<int>)
    requires WellFormed(t)
    ensures var free, numas := FreeCounts(t, available), FreeNodes(t, available);
      NoDup(numas) && Covers(free, numas) && forall i :: 0 <= i < |numas| ==> free[numas[i]] > 0
  {
    FreeNodesFacts(t, available);
    var free, numas := FreeCounts(t, available), FreeNodes(t, available);
    forall i | 0 <= i < |numas| ensures numas[i] in free && free[numas[i]] > 0 {
      assert numas[i] in Elements(numas);
    }
  }

  lemma NodeAtMost(t: CPUTopology, available: set<int>, size: int)
    requires WellFormed(t) && Uniform(t.cpuDetails, Numa, size)
    ensures forall u :: u in FreeCounts(t, available) ==> FreeCounts(t, available)[u] <= size
  {
    FreeNodesFacts(t, available);
    forall u | u in FreeCounts(t, available) ensures FreeCounts(t, available)[u] <= size {
      KeepMembers(t.cpuDetails, available, Numa, u);
      SubsetSize(Members(t.cpuDetails, Numa, u) * available, Members(t.cpuDetails, Numa, u));
    }
  }

  /** The loop over the sizes in range, up to the first size with a candidate. */
  method SearchSizes(d: CPUDetails, numas: seq<int>, lo: nat, hi: int, n: int, g: int, score: Score)
    returns (choice: Choice, ghost k: nat)
    requires NoDup(numas) && lo >= 1 && n > 0 && g > 0 && n % g == 0
    requires SearchEnds(NodeFree(d, numas), numas, lo, hi, n, g, score) && NonNegative(score)
    ensures Searched(NodeFree(d, numas), numas, n, g, score, lo, k, choice)
    ensures if choice.Found? then lo <= k <= hi else k > hi
    ensures FirstPlan(NodeFree(d, numas), numas, n, g, score, choice)
  {
    ghost var free := NodeFree(d, numas);
    var i := lo;
    while i <= hi
      invariant lo <= i
      invariant NoneBetween(free, numas, n, g, score, lo, i)
      decreases hi - i
    {
      choice := SearchSize(d, numas, i, n, g, score);
      if choice.Found? {
        k := i;
        return;
      }
      NoneOneMore(free, numas, n, g, score, lo, i);
      i := i + 1;
    }
    return NotFound, i;
  }

  lemma NoneOneMore(free: NodeCounts, numas: seq<int>, n: int, g: int, score: Score, lo: int, i: nat)
    requires NoneBetween(free, numas, n, g, score, lo, i)
    requires BeatsAll(free, Combos(numas, i), n, g, score, NotFound)
    ensures NoneBetween(free, numas, n, g, score, lo, i + 1)
  {
    NotFoundBeatsAll(free, Combos(numas, i), n, g, score);
    forall k: nat | lo <= k < i + 1 ensures NoCandidates(free, Combos(numas, k), n, g, score) {
    }
  }

  /** What the outcome of the search says about all combinations of nodes. */
  ghost predicate Exhausted(t: CPUTopology, available: set<int>, n: int, g: int, score: Score, choice: Choice) {
    && g > 0
    && (choice.Found? || n <= 3 * g || |FreeNodes(t, available)| <= 4 || WholeGroupsFree(t, available, g)
        ==> BestSmallest(FreeCounts(t, available), FreeNodes(t, available), n, g, score, choice))
    && (choice.NotFound? ==>
          (BestSmallest(FreeCounts(t, available), FreeNodes(t, available), n, g, score, choice)
           <==> !Wider(FreeCounts(t, available), FreeNodes(t, available), n, g)))
    && (choice.NotFound? ==> forall k: nat ::
          (k <= CeilDiv(n, g) ==> NoCandidates(FreeCounts(t, available), Combos(FreeNodes(t, available), k), n, g, score)))
  }

  /** The best of all combinations on a machine of equal NUMA nodes. */
  ghost predicate BestPlan(t: CPUTopology, available: set<int>, n: int, g: int, score: Score, choice: Choice) {
    forall size :: Uniform(t.cpuDetails, Numa, size) ==> Exhausted(t, available, n, g, score, choice)
  }

  // ---- which requests the search ends for

  /** At every size the search gets to, all the remainder loops it runs end. */
  ghost predicate SearchEnds(free: NodeCounts, numas: seq<int>, lo: int, hi: int, n: int, g: int, score: Score) {
    forall k: nat :: (lo <= k <= hi && NoneBetween(free, numas, n, g, score, lo, k)
                      ==> SizeEnds(free, Combos(numas, k), n, g, score))
  }

  /** The search for this request ends. */
  ghost predicate LoopsEnd(t: CPUTopology, available: set<int>, n: int, g: int, score: Score)
    requires g > 0
  {
    |t.cpuDetails.Keys| > 0 && |Units(t.cpuDetails, Numa)| > 0 ==>
      var (lo, hi) := NodesNeeded(|t.cpuDetails.Keys|, |Units(t.cpuDetails, Numa)|, |FreeNodes(t, available)|, n, g);
      SearchEnds(FreeCounts(t, available), FreeNodes(t, available), lo, hi, n, g, score)
  }

  /** It does with at most three free NUMA nodes, for at most three groups, and when every
      node has whole groups of free CPUs. */
  lemma MostSearchesEnd(t: CPUTopology, available: set<int>, n: int, g: int, score: Score)
    requires WellFormed(t) && g > 0 && n >= 1 && n % g == 0
    requires |FreeNodes(t, available)| <= 3 || n <= 3 * g || WholeGroupsFree(t, available, g)
    ensures LoopsEnd(t, available, n, g, score)
  {
    if WholeGroupsFree(t, available, g) {
      WholeGroupsHere(t, available, g);
    }
    ThreeGroups(n, g);
    forall lo: int, hi: int | hi <= 3 || WholeGroupsFree(t, available, g)
      ensures SearchEnds(FreeCounts(t, available), FreeNodes(t, available), lo, hi, n, g, score)
    {
      EasySearchEnds(FreeCounts(t, available), FreeNodes(t, available), lo, hi, n, g, score);
    }
  }

  lemma EasySearchEnds(free: NodeCounts, numas: seq<int>, lo: int, hi: int, n: int, g: int, score: Score)
    requires (hi <= 3 || WholeGroups(free, g)) && g > 0 && n >= 1 && n % g == 0
    ensures SearchEnds(free, numas, lo, hi, n, g, score)
  {
    forall k: nat | lo <= k <= hi ensures SizeEnds(free, Combos(numas, k), n, g, score) {
      EasySizeEnds(free, numas, k, n, g, score);
    }
  }

  lemma EasySizeEnds(free: NodeCounts, numas: seq<int>, k: nat, n: int, g: int, score: Score)
    requires (k <= 3 || WholeGroups(free, g)) && g > 0 && n >= 1 && n % g == 0
    ensures SizeEnds(free, Combos(numas, k), n, g, score)
  {
    var combos := Combos(numas, k);
    forall idx | 0 <= idx < |combos| ensures ComboEnds(free, combos[idx], n, g) {
      if k <= 3 {
        CombosElement(numas, k, combos[idx]);
        FewNodesEnd(free, combos[idx], n, g);
      } else {
        WholeGroupsEnd(free, combos[idx], n, g);
      }
    }
  }

  /** On a machine of equal nodes it does for every request that fits on one of them. */
  lemma OneNodeEnds(t: CPUTopology, available: set<int>, n: int, g: int, score: Score, size: int, node: int)
    requires WellFormed(t) && Uniform(t.cpuDetails, Numa, size) && g > 0 && n >= 1 && n % g == 0
    requires node in FreeCounts(t, available) && FreeCounts(t, available)[node] >= n
    ensures LoopsEnd(t, available, n, g, score)
  {
    var free, numas := FreeCounts(t, available), FreeNodes(t, available);
    if |t.cpuDetails.Keys| > 0 && |Units(t.cpuDetails, Numa)| > 0 {
      OneNodeCandidate(free, numas, n, g, score, node);
      LowerEnd(t, available, n, g, score, size, 1, [node], [], score(After(free, [node], n)));
      EasySizeEnds(free, numas, 0, n, g, score);
      EasySizeEnds(free, numas, 1, n, g, score);
      forall lo: int, k: nat | lo <= 1 < k ensures !NoneBetween(free, numas, n, g, score, lo, k) {
        assert !NoCandidates(free, Combos(numas, 1), n, g, score);
      }
    }
  }

  /** The search for the nodes to spread the request over. */
  method Search(t: CPUTopology, available: set<int>, numas: seq<int>, d: CPUDetails, n: int, g: int, score: Score)
    returns (choice: Choice)
    requires WellFormed(t) && NonNegative(score) && g > 0 && n >= 1 && n % g == 0 && LoopsEnd(t, available, n, g, score)
    requires d == KeepOnly(t.cpuDetails, available) && numas == FreeNodes(t, available) && d.Keys != {}
    ensures Outcome(t, available, n, g, score, choice)
    ensures BestPlan(t, available, n, g, score, choice)
    ensures FirstPlan(FreeCounts(t, available), FreeNodes(t, available), n, g, score, choice)
  {
    hide FirstPlan;
    NodesCovered(t, available);
    FreeNodesFacts(t, available);
    MachineNotEmpty(t, available);
    var (lo, hi) := NodesNeeded(|t.cpuDetails.Keys|, |Units(t.cpuDetails, Numa)|, |Units(d, Numa)|, n, g);
    RangeStart(|t.cpuDetails.Keys|, |Units(t.cpuDetails, Numa)|, n, g);
    ghost var k;
    choice, k := SearchSizes(d, numas, lo, hi, n, g, score);
    PlanOfSearch(FreeCounts(t, available), numas, n, g, score, lo, k, choice);
    forall size | Uniform(t.cpuDetails, Numa, size)
      ensures Exhausted(t, available, n, g, score, choice)
    {
      SearchIsExhaustive(t, available, n, g, score, size, k, choice);
    }
  }

  ghost predicate PlanFound(free: NodeCounts, n: int, g: int, score: Score, choice: Choice) {
    && choice.Found? && NoDup(choice.combo)
    && Candidate(free, choice.combo, n, g, score, choice.remainder, choice.balance)
    && ComboEnds(free, choice.combo, n, g)
  }

  /** What the search returns: of the sizes in range the first with a candidate, a best one of
      that size, and what its slices hold; or nothing, when no size in range has a candidate. */
  ghost predicate Outcome(t: CPUTopology, available: set<int>, n: int, g: int, score: Score, choice: Choice) {
    && g > 0 && |t.cpuDetails.Keys| > 0 && |Units(t.cpuDetails, Numa)| > 0
    && var free, numas := FreeCounts(t, available), FreeNodes(t, available);
       var (lo, hi) := NodesNeeded(|t.cpuDetails.Keys|, |Units(t.cpuDetails, Numa)|, |numas|, n, g);
       if choice.NotFound? then NoneBetween(free, numas, n, g, score, lo, hi + 1)
       else
         && lo <= |choice.combo| <= hi && PlanFound(free, n, g, score, choice)
         && Searched(free, numas, n, g, score, lo, |choice.combo|, choice)
  }

  lemma PlanOfSearch(free: NodeCounts, numas: seq<int>, n: int, g: int, score: Score, lo: int, k: nat, choice: Choice)
    requires Searched(free, numas, n, g, score, lo, k, choice) && NoDup(numas)
    ensures choice.Found? ==> PlanFound(free, n, g, score, choice) && |choice.combo| == k
  {
    if choice.Found? {
      CombosElement(numas, k, choice.combo);
    }
  }

  lemma RangeStart(cpus: int, nodes: int, n: int, g: int)
    requires g > 0 && cpus > 0 && nodes > 0 && n >= 1
    ensures NodesNeeded(cpus, nodes, 0, n, g).0 >= 1
  {
    CeilDivBound(n, g);
    CeilDivBound(CeilDiv(n, g), GroupsPerNode(cpus, nodes, g));
  }

  lemma MachineNotEmpty(t: CPUTopology, available: set<int>)
    requires KeepOnly(t.cpuDetails, available).Keys != {}
    ensures |t.cpuDetails.Keys| > 0 && |Units(t.cpuDetails, Numa)| > 0
  {
    var c := Pick(KeepOnly(t.cpuDetails, available).Keys);
    assert c in t.cpuDetails.Keys && UnitOf(t.cpuDetails, Numa, c) in Units(t.cpuDetails, Numa);
  }

  // ---- carrying out what the slices of the choice hold

  /** The remainder loop over what the slices hold ends, from whatever the shares have left. */
  ghost predicate LastLoopEnds(free: NodeCounts, n: int, g: int, choice: Choice) {
    && choice.Found? && choice.combo != [] && g > 0
    && CanGive(Given(free, choice.held, Share(n, |choice.combo|, g)), choice.heldRemainder, Rest(n, |choice.combo|, g), g)
  }

  /** So does the last loop of the call, whichever best plan the search settles on. */
  ghost predicate LastEnds(t: CPUTopology, available: set<int>, n: int, g: int, score: Score) {
    forall choice: Choice :: (choice.Found? && Outcome(t, available, n, g, score, choice)
                      ==> LastLoopEnds(FreeCounts(t, available), n, g, choice))
  }

  /** The slices hold the plan itself. */
  ghost predicate Intact(choice: Choice) {
    choice.Found? ==> choice.held == choice.combo && choice.heldRemainder == choice.remainder
  }

  /** The result of a call that found a plan. It succeeds, with just the CPUs asked for and what
      the slices hold taken from the nodes, if and only if every node they hold has its share;
      otherwise it ends in the accounting error. */
  ghost predicate CarriedOut(t: CPUTopology, available: set<int>, n: int, g: int, choice: Choice, r: Result) {
    && choice.Found? && choice.combo != [] && g > 0
    && var free, share, rest := FreeCounts(t, available), Share(n, |choice.combo|, g), Rest(n, |choice.combo|, g);
       && Covers(free, choice.heldRemainder)
       && if AllGive(free, choice.held, share)
          then r.Ok? && r.cpus <= t.cpuDetails.Keys * available && |r.cpus| == n
               && NodeFree(KeepOnly(t.cpuDetails, t.cpuDetails.Keys * available - r.cpus), FreeNodes(t, available))
                  == LeftCounts(free, choice.held, choice.heldRemainder, share, rest, g)
          else r == Failed
  }

  /** The counts are then those the search predicted. */
  ghost predicate AsPlanned(t: CPUTopology, available: set<int>, n: int, g: int, choice: Choice, cpus: set<int>) {
    && choice.Found? && choice.combo != [] && g > 0
    && var free := FreeCounts(t, available);
       && Covers(free, choice.remainder)
       && NodeFree(KeepOnly(t.cpuDetails, t.cpuDetails.Keys * available - cpus), FreeNodes(t, available))
          == PlannedCounts(free, choice.combo, choice.remainder, Share(n, |choice.combo|, g), Rest(n, |choice.combo|, g), g)
  }

  /** Slices that hold the plan itself: the call succeeds and leaves what the search predicted. */
  lemma IntactSucceeds(t: CPUTopology, available: set<int>, n: int, g: int, score: Score, choice: Choice, r: Result)
    requires g > 0 && PlanFound(FreeCounts(t, available), n, g, score, choice) && n >= 1 && n % g == 0 && Intact(choice)
    requires CarriedOut(t, available, n, g, choice, r)
    ensures r.Ok? && r.cpus <= t.cpuDetails.Keys * available && |r.cpus| == n
    ensures AsPlanned(t, available, n, g, choice, r.cpus)
  {
    PlanIsFeasible(FreeCounts(t, available), choice.combo, n, g, score, choice.remainder, choice.balance);
    AllGiven(FreeCounts(t, available), choice.combo, Share(n, |choice.combo|, g));
  }

  lemma IntactEnds(free: NodeCounts, n: int, g: int, score: Score, choice: Choice)
    requires g > 0 && PlanFound(free, n, g, score, choice) && n >= 1 && n % g == 0 && Intact(choice)
    ensures LastLoopEnds(free, n, g, choice)
  {
    PlanIsFeasible(free, choice.combo, n, g, score, choice.remainder, choice.balance);
    AllGiven(free, choice.combo, Share(n, |choice.combo|, g));
  }

  /** A plan of at most three nodes, and one of all the free nodes when these are four, is
      intact when it is carried out. */
  lemma SmallIntact(free: NodeCounts, numas: seq<int>, n: int, g: int, choice: Choice)
    requires choice.Found? && Holds(free, numas, n, g, choice)
    requires |choice.combo| <= 3 || |numas| <= 4
    requires choice.combo in Combos(numas, |choice.combo|)
    ensures Intact(choice)
  {
    CombosElement(numas, |choice.combo|, choice.combo);
    HeldUnchanged(numas, choice.combo, choice.balance == 0.0, choice.held);
    var after := After(free, choice.combo, Share(n, |choice.combo|, g));
    var rc := RemainderNodes(after, choice.combo, g);
    if Rest(n, |choice.combo|, g) != 0 {
      FewIntact(rc, choice.remainder, choice.heldRemainder);
    }
  }

  lemma FewIntact(rc: seq<int>, rem: seq<int>, held: seq<int>)
    requires HeldAfter(rc, rem, false, held) && |rc| <= 4
    ensures held == rem
  {
    HeldIsSet(rc, rem, false, held);
    CombosElement(rc, |rem|, held);
    HeldUnchanged(rc, rem, false, held);
  }

  /** How many packed allocations hand out the CPUs: one a node for the shares, one a group for
      the remainder; a single one where there is no plan. */
  ghost function Takes(choice: Choice, n: int, g: int): int {
    if choice.Found? && choice.combo != [] && g > 0 then |choice.combo| + Rest(n, |choice.combo|, g) / g else 1
  }

  /** The CPUs handed out are what one take of the share from every node the slice holds, then
      takes of single groups, lead to. */
  ghost predicate StepByStep(t: CPUTopology, available: set<int>, strategy: string, choice: Choice, n: int, g: int, s: set<int>) {
    choice.Found? && choice.combo != [] && g > 0 &&
    BySteps(t, t.cpuDetails.Keys * available, strategy, choice.held, Share(n, |choice.combo|, g), Rest(n, |choice.combo|, g),
            g, s)
  }

  /** Allocation from what the slices of the choice hold. */
  method AllocateFound(acc: CpuAccumulator, available: set<int>, found: Choice, n: int, g: int, ghost score: Score)
    returns (r: Result)
    requires WellFormed(acc.topo) && g > 0 && n >= 1 && n % g == 0
    requires acc.State() == NewAcc(acc.topo, available, n)
    requires found.Found? && Outcome(acc.topo, available, n, g, score, found)
    requires LastLoopEnds(FreeCounts(acc.topo, available), n, g, found)
    modifies acc
    ensures CarriedOut(acc.topo, available, n, g, found, r)
    ensures r.Ok? ==>
      && KeptCores(acc.topo, acc.topo.cpuDetails.Keys * available, acc.strategy, g, r.cpus, Takes(found, n, g))
      && StepByStep(acc.topo, available, acc.strategy, found, n, g, r.cpus)
  {
    hide KeptCores, BySteps, WellFormed, Outcome;
    StartSafe(acc.topo, available, acc.State());
    HeldCovered(acc.topo, available, n, g, score, found);
    var share, rest := Share(n, |found.held|, g), Rest(n, |found.held|, g);
    r := Allocate(acc, found.held, found.heldRemainder, share, rest, g, acc.topo.cpuDetails.Keys * available,
                  FreeNodes(acc.topo, available));
  }

  lemma HeldCovered(t: CPUTopology, available: set<int>, n: int, g: int, score: Score, choice: Choice)
    requires WellFormed(t) && choice.Found? && Outcome(t, available, n, g, score, choice) && n >= 1
    ensures choice.combo != [] && |choice.held| == |choice.combo| && Share(n, |choice.combo|, g) >= 0
    ensures Share(n, |choice.combo|, g) % g == 0
    ensures NoDup(choice.held) && Covers(FreeCounts(t, available), choice.held)
  {
    var numas := FreeNodes(t, available);
    NodesCovered(t, available);
    HeldIsSet(numas, choice.combo, choice.balance == 0.0, choice.held);
    CombosElement(numas, |choice.combo|, choice.held);
    SubsetCovered(FreeCounts(t, available), numas, choice.held);
    ShareFacts(n, |choice.combo|, g);
  }

  lemma StartSafe(t: CPUTopology, available: set<int>, a: Acc)
    requires a.details == KeepOnly(t.cpuDetails, available) && a.result == {}
    ensures Safe(t, t.cpuDetails.Keys * available, a)
  {
    assert a.details == KeepOnly(t.cpuDetails, t.cpuDetails.Keys * available - a.result);
  }

  /** After the early exits: search, then allocate from the nodes found or fall back. */
  method SearchAndAllocate(acc: CpuAccumulator, available: set<int>, n: int, g: int, score: Score)
    returns (r: Result, ghost choice: Choice)
    requires WellFormed(acc.topo) && acc.Valid() && NonNegative(score) && g > 0
    requires LoopsEnd(acc.topo, available, n, g, score) && LastEnds(acc.topo, available, n, g, score)
    requires acc.State() == NewAcc(acc.topo, available, n)
    requires 1 <= n <= |acc.topo.cpuDetails.Keys * available| && n % g == 0
    modifies acc
    ensures Outcome(acc.topo, available, n, g, score, choice)
    ensures if choice.Found? then CarriedOut(acc.topo, available, n, g, choice, r)
            else r == Packed(acc.topo, available, n, acc.strategy, false)
    ensures BestPlan(acc.topo, available, n, g, score, choice)
    ensures Intact(choice) ==> Served(acc.topo, available, n, r)
    ensures |FreeNodes(acc.topo, available)| <= 4 || n <= 3 * g ==> Intact(choice)
    ensures choice.Found? && Intact(choice) ==> r.Ok? && AsPlanned(acc.topo, available, n, g, choice, r.cpus)
    ensures r.Ok? ==>
      && KeptCores(acc.topo, acc.topo.cpuDetails.Keys * available, acc.strategy, g, r.cpus, Takes(choice, n, g))
      && if choice.Found? then StepByStep(acc.topo, available, acc.strategy, choice, n, g, r.cpus)
         else InOrder(acc.topo, acc.topo.cpuDetails.Keys * available, n, acc.strategy, false, r.cpus)
    ensures FirstPlan(FreeCounts(acc.topo, available), FreeNodes(acc.topo, available), n, g, score, choice)
  {
    hide KeptCores, InOrder, StepByStep, FirstPlan;
    KeepMembers(acc.topo.cpuDetails, available, Cpu, 0);
    var numas := acc.SortAvailableNUMANodes();
    var found := Search(acc.topo, available, numas, acc.details, n, g, score);
    choice := found;
    if found.NotFound? {
      r := TakeByTopologyNUMAPacked(acc.topo, available, n, acc.strategy, false);
      PackedKept(acc.topo, available, n, acc.strategy, g);
    } else {
      r := AllocateFound(acc, available, found, n, g, score);
      FoundServes(acc.topo, available, n, g, score, choice, r);
    }
  }

  /** Exactly as many CPUs as were asked for, all of them free. */
  ghost predicate Served(t: CPUTopology, available: set<int>, n: int, r: Result) {
    r.Ok? && r.cpus <= t.cpuDetails.Keys * available && |r.cpus| == if n < 1 then 0 else n
  }

  lemma FoundServes(t: CPUTopology, available: set<int>, n: int, g: int, score: Score, choice: Choice, r: Result)
    requires choice.Found? && Outcome(t, available, n, g, score, choice) && n >= 1 && n % g == 0
    requires CarriedOut(t, available, n, g, choice, r)
    ensures Intact(choice) ==> Served(t, available, n, r) && AsPlanned(t, available, n, g, choice, r.cpus)
    ensures |FreeNodes(t, available)| <= 4 || n <= 3 * g ==> Intact(choice)
  {
    FourIntact(t, available, n, g, score, choice);
    if Intact(choice) {
      IntactSucceeds(t, available, n, g, score, choice, r);
    }
  }

  /** takeByTopologyNUMADistributed. The ghost result is the combination chosen, if any. The
      source does not return when LoopsEnd or LastEnds fails: see MostSearchesEnd, OneNodeEnds,
      ComboEndsIff and SmallPlansEnd for when that is, and HangingSearch for a request it never
      answers. A plan that is not intact can end in the accounting error: with at most five free
      nodes it never does (FiveNodes), with six it can (AccountingError). */
  method TakeByTopologyNUMADistributed(topo: CPUTopology, availableCPUs: set<int>, numCPUs: int, g: int,
                                       strategy: string, score: Score) returns (r: Result, ghost choice: Choice)
    requires WellFormed(topo) && NonNegative(score) && g > 0
    requires numCPUs % g == 0 && 1 <= numCPUs <= |topo.cpuDetails.Keys * availableCPUs|
      ==> LoopsEnd(topo, availableCPUs, numCPUs, g, score) && LastEnds(topo, availableCPUs, numCPUs, g, score)
    ensures numCPUs > |topo.cpuDetails.Keys * availableCPUs| ==> r == NotEnough
    ensures numCPUs % g != 0 ==> r == Packed(topo, availableCPUs, numCPUs, strategy, false)
    ensures numCPUs < 1 && numCPUs % g == 0 ==> r == Ok({})
    ensures numCPUs % g == 0 && 1 <= numCPUs <= |topo.cpuDetails.Keys * availableCPUs| ==>
      && Outcome(topo, availableCPUs, numCPUs, g, score, choice)
      && BestPlan(topo, availableCPUs, numCPUs, g, score, choice)
      && if choice.Found? then CarriedOut(topo, availableCPUs, numCPUs, g, choice, r)
         else r == Packed(topo, availableCPUs, numCPUs, strategy, false)
    ensures numCPUs <= |topo.cpuDetails.Keys * availableCPUs| && Intact(choice) ==> Served(topo, availableCPUs, numCPUs, r)
    ensures |FreeNodes(topo, availableCPUs)| <= 4 || numCPUs <= 3 * g ==> Intact(choice)
    ensures choice.Found? && Intact(choice) ==> r.Ok? && AsPlanned(topo, availableCPUs, numCPUs, g, choice, r.cpus)
    ensures numCPUs % g == 0 && 1 <= numCPUs <= |topo.cpuDetails.Keys * availableCPUs| && r.Ok? ==>
      && KeptCores(topo, topo.cpuDetails.Keys * availableCPUs, strategy, g, r.cpus, Takes(choice, numCPUs, g))
      && if choice.Found? then StepByStep(topo, availableCPUs, strategy, choice, numCPUs, g, r.cpus)
         else InOrder(topo, topo.cpuDetails.Keys * availableCPUs, numCPUs, strategy, false, r.cpus)
    ensures FirstPlan(FreeCounts(topo, availableCPUs), FreeNodes(topo, availableCPUs), numCPUs, g, score, choice)
  {
    hide KeptCores, InOrder, StepByStep, FirstPlan, Outcome, BestPlan, LoopsEnd, LastEnds, CarriedOut, AsPlanned, WellFormed;
    choice := NotFound;
    NothingFirst(FreeCounts(topo, availableCPUs), FreeNodes(topo, availableCPUs), numCPUs, g, score);
    if numCPUs % g != 0 {
      r := TakeByTopologyNUMAPacked(topo, availableCPUs, numCPUs, strategy, false);
      return;
    }
    var acc := new CpuAccumulator(topo, availableCPUs, numCPUs, strategy);
    if numCPUs < 1 {
      return Ok(acc.result), NotFound;
    }
    var failed := acc.IsFailed();
    KeepMembers(topo.cpuDetails, availableCPUs, Cpu, 0);
    if failed {
      return NotEnough, NotFound;
    }
    r, choice := SearchAndAllocate(acc, availableCPUs, numCPUs, g, score);
  }

  lemma NothingFirst(free: NodeCounts, numas: seq<int>, n: int, g: int, score: Score)
    ensures FirstPlan(free, numas, n, g, score, NotFound)
  {
  }

  lemma FourIntact(t: CPUTopology, available: set<int>, n: int, g: int, score: Score, choice: Choice)
    requires choice.Found? && Outcome(t, available, n, g, score, choice)
    ensures |FreeNodes(t, available)| <= 4 || n <= 3 * g ==> Intact(choice)
  {
    ThreeGroups(n, g);
    if |FreeNodes(t, available)| <= 4 || n <= 3 * g {
      SmallIntact(FreeCounts(t, available), FreeNodes(t, available), n, g, choice);
    }
  }

  /** The last loop ends with at most four free nodes, and for at most three groups. */
  lemma SmallPlansEnd(t: CPUTopology, available: set<int>, n: int, g: int, score: Score)
    requires g > 0 && n >= 1 && n % g == 0 && (|FreeNodes(t, available)| <= 4 || n <= 3 * g)
    ensures LastEnds(t, available, n, g, score)
  {
    forall choice: Choice | choice.Found? && Outcome(t, available, n, g, score, choice)
      ensures LastLoopEnds(FreeCounts(t, available), n, g, choice)
    {
      FourIntact(t, available, n, g, score, choice);
      IntactEnds(FreeCounts(t, available), n, g, score, choice);
    }
  }
}
