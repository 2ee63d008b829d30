/** Carrying a distributed allocation out: even shares from some nodes, then the remainder group
    by group from others. */
module CarryingOut {
  import opened Sorting
  import opened Arith
  import opened Topology
  import opened PackedModel
  import opened Accumulator
  import opened CacheOrder
  import opened Spreading
  import opened BalanceSearch
  import opened TakenCores

  /** From a to b exactly m free CPUs were claimed, leaving the given counts on the nodes. */
  ghost predicate Gave(t: CPUTopology, free: set<int>, numas: seq<int>, a: Acc, b: Acc, m: int, left: NodeCounts) {
    && Safe(t, free, b)
    && |b.result| == |a.result| + m
    && b.needed == a.needed - m
    && NodeFree(b.details, numas) == left
  }

  lemma GaveNothing(t: CPUTopology, free: set<int>, numas: seq<int>, a: Acc)
    requires Safe(t, free, a)
    ensures Gave(t, free, numas, a, a, 0, NodeFree(a.details, numas))
  {
  }

  lemma GaveMeans(t: CPUTopology, free: set<int>, numas: seq<int>, a: Acc, b: Acc, m: int, left: NodeCounts)
    requires Gave(t, free, numas, a, b, m, left)
    ensures Safe(t, free, b) && NodeFree(b.details, numas) == left
  {
  }

  lemma GaveBoth(t: CPUTopology, free: set<int>, numas: seq<int>, a: Acc, b: Acc, c: Acc, m: int, k: int,
                 left: NodeCounts, last: NodeCounts)
    requires Gave(t, free, numas, a, b, m, left) && Gave(t, free, numas, b, c, k, last)
    ensures Gave(t, free, numas, a, c, m + k, last)
  {
  }

  lemma TakenMembers(a: Acc, cpus: set<int>, u: int)
    requires a.result !! a.details.Keys
    ensures Members(Take(a, cpus).details, Numa, u) == Members(a.details, Numa, u) - cpus
  {
    KeepMembers(a.details, a.details.Keys - (a.result + cpus), Numa, u);
    assert Members(a.details, Numa, u) <= a.details.Keys;
  }

  lemma TakenCount(a: Acc, node: int, cpus: set<int>, u: int)
    requires cpus <= Members(a.details, Numa, node) && a.result !! a.details.Keys
    ensures |Members(Take(a, cpus).details, Numa, u)| == |Members(a.details, Numa, u)| - (if u == node then |cpus| else 0)
  {
    var m := Members(a.details, Numa, u);
    TakenMembers(a, cpus, u);
    if u == node {
      SubsetSize(cpus, m);
    } else {
      assert m - cpus == m;
    }
  }

  lemma TakenFromNode(a: Acc, node: int, cpus: set<int>, numas: seq<int>)
    requires cpus <= Members(a.details, Numa, node) && a.result !! a.details.Keys
    requires node in NodeFree(a.details, numas)
    ensures NodeFree(Take(a, cpus).details, numas)
         == NodeFree(a.details, numas)[node := NodeFree(a.details, numas)[node] - |cpus|]
  {
    var before, after := NodeFree(a.details, numas), NodeFree(Take(a, cpus).details, numas);
    forall u | u in before ensures after[u] == before[u] - (if u == node then |cpus| else 0) {
      TakenCount(a, node, cpus, u);
    }
    assert after.Keys == before.Keys;
  }

  lemma ClaimFromNode(t: CPUTopology, free: set<int>, numas: seq<int>, a: Acc, node: int, cpus: set<int>)
    requires Safe(t, free, a) && cpus <= Members(a.details, Numa, node)
    requires node in NodeFree(a.details, numas)
    ensures Gave(t, free, numas, a, Take(a, cpus), |cpus|,
                 NodeFree(a.details, numas)[node := NodeFree(a.details, numas)[node] - |cpus|])
  {
    SafeKeys(t, free, a);
    TakeSafe(t, free, a, cpus);
    TakenFromNode(a, node, cpus, numas);
    assert a.result !! cpus;
  }

  /** Packed allocation inside one node; a node that has too few CPUs gives none. */
  method PackedOnNode(acc: CpuAccumulator, node: int, m: int, ghost free: set<int>) returns (cpus: set<int>)
    requires WellFormed(acc.topo) && Safe(acc.topo, free, acc.State()) && m >= 0
    ensures cpus <= Members(acc.details, Numa, node)
    ensures |cpus| == if m <= |Members(acc.details, Numa, node)| then m else 0
    ensures cpus == NodeCPUs(acc.topo, acc.State(), node, m, acc.strategy)
  {
    hide InOrder;
    var onNode := Members(acc.details, Numa, node);
    var r := TakeByTopologyNUMAPacked(acc.topo, onNode, m, acc.strategy, false);
    assert acc.topo.cpuDetails.Keys * onNode == onNode by {
      SafeKeys(acc.topo, free, acc.State());
    }
    cpus := if r.Ok? then r.cpus else {};
  }

  /** What a node with `count` free CPUs gives when asked for m. */
  function Portion(count: int, m: int): int {
    if m <= count then m else 0
  }

  /** Packed allocation inside one node, claimed by the accumulator. */
  method GiveFromNode(acc: CpuAccumulator, node: int, m: int, ghost free: set<int>, ghost numas: seq<int>, ghost g: int)
    requires WellFormed(acc.topo) && Safe(acc.topo, free, acc.State())
    requires node in NodeFree(acc.details, numas) && 0 <= m && g > 0 && m % g == 0
    modifies acc
    ensures Kept(acc.topo, free, acc.strategy, g, old(acc.State()), acc.State(), [Step(node, m)])
    ensures var count := old(NodeFree(acc.details, numas)[node]);
      Gave(acc.topo, free, numas, old(acc.State()), acc.State(), Portion(count, m),
           old(NodeFree(acc.details, numas))[node := count - Portion(count, m)])
  {
    hide Kept, NodeCPUs, Gave, WellFormed, Safe;
    var cpus := PackedOnNode(acc, node, m, free);
    ClaimFromNode(acc.topo, free, numas, acc.State(), node, cpus);
    TakeKept(acc.topo, free, acc.strategy, g, acc.State(), node, m);
    acc.TakeCpus(cpus);
  }

  // ---- the takes of a plan

  /** One take of the share from every node of the list, in this order. */
  ghost function ShareSteps(combo: seq<int>, share: int): (steps: seq<Step>)
    ensures |steps| == |combo| && forall i :: 0 <= i < |combo| ==> steps[i] == Step(combo[i], share)
  {
    seq(|combo|, i requires 0 <= i < |combo| => Step(combo[i], share))
  }

  ghost predicate EachOf(steps: seq<Step>, g: int) {
    forall i :: 0 <= i < |steps| ==> steps[i].count == g
  }

  /** The shares, then the remainder in single groups. */
  ghost predicate PlanSteps(steps: seq<Step>, combo: seq<int>, share: int, rest: int, g: int)
    requires g > 0
  {
    && |combo| <= |steps| == |combo| + rest / g && steps[..|combo|] == ShareSteps(combo, share)
    && EachOf(steps[|combo|..], g)
  }

  /** The CPUs s are what a plan's takes lead to. */
  ghost predicate BySteps(t: CPUTopology, free: set<int>, strategy: string, combo: seq<int>, share: int, rest: int, g: int,
                          s: set<int>)
    requires g > 0
  {
    exists steps :: PlanSteps(steps, combo, share, rest, g) && InSteps(t, free, strategy, {}, s, steps)
  }

  // ---- the even shares

  /** The counts once every node of the list that has the share has given it. */
  function Given(start: NodeCounts, combo: seq<int>, share: int): NodeCounts {
    map u | u in start :: if u in combo then start[u] - Portion(start[u], share) else start[u]
  }

  /** How many nodes of the list have the share. */
  function Givers(start: NodeCounts, combo: seq<int>, share: int): nat
    requires Covers(start, combo)
  {
    if combo == [] then 0
    else Givers(start, combo[..|combo| - 1], share) + if start[combo[|combo| - 1]] >= share then 1 else 0
  }

  /** Every node of the list has the share. */
  ghost predicate AllGive(start: NodeCounts, combo: seq<int>, share: int) {
    Covers(start, combo) && forall i :: 0 <= i < |combo| ==> start[combo[i]] >= share
  }

  lemma {:induction false} GiversCount(start: NodeCounts, combo: seq<int>, share: int)
    requires Covers(start, combo)
    ensures Givers(start, combo, share) <= |combo|
    ensures Givers(start, combo, share) == |combo| <==> AllGive(start, combo, share)
    decreases |combo|
  {
    if combo != [] {
      var n := |combo| - 1;
      GiversCount(start, combo[..n], share);
      assert forall i :: 0 <= i < n ==> combo[..n][i] == combo[i];
    }
  }

  lemma AllGiven(start: NodeCounts, combo: seq<int>, share: int)
    requires AllGive(start, combo, share)
    ensures Given(start, combo, share) == After(start, combo, share)
  {
    forall u | u in start ensures Given(start, combo, share)[u] == After(start, combo, share)[u] {
      if u in combo {
        var i := IndexOf(combo, u);
        assert start[combo[i]] >= share;
      }
    }
    assert Given(start, combo, share).Keys == After(start, combo, share).Keys;
  }

  lemma GivenOneMore(start: NodeCounts, combo: seq<int>, share: int, i: nat)
    requires i < |combo| && NoDup(combo) && Covers(start, combo)
    ensures Covers(start, combo[..i]) && Covers(start, combo[..i + 1])
    ensures combo[i] in Given(start, combo[..i], share) && Given(start, combo[..i], share)[combo[i]] == start[combo[i]]
    ensures Given(start, combo[..i + 1], share)
         == Given(start, combo[..i], share)[combo[i] := start[combo[i]] - Portion(start[combo[i]], share)]
  {
    assert combo[i] !in combo[..i];
    assert combo[i] in start;
    assert combo[..i + 1] == combo[..i] + [combo[i]];
  }

  lemma GiverOneMore(start: NodeCounts, combo: seq<int>, share: int, i: nat)
    requires i < |combo| && Covers(start, combo)
    ensures Covers(start, combo[..i]) && Covers(start, combo[..i + 1])
    ensures share * Givers(start, combo[..i + 1], share)
         == share * Givers(start, combo[..i], share) + Portion(start[combo[i]], share)
  {
    assert combo[..i + 1][..i] == combo[..i];
    assert share * (Givers(start, combo[..i], share) + 1) == share * Givers(start, combo[..i], share) + share;
  }

  lemma ShareStep(t: CPUTopology, free: set<int>, numas: seq<int>, before: Acc, middle: Acc, now: Acc, start: NodeCounts,
                  combo: seq<int>, share: int, i: nat)
    requires i < |combo| && NoDup(combo) && Covers(start, combo)
    requires Covers(start, combo[..i]) && Covers(start, combo[..i + 1])
    requires Gave(t, free, numas, before, middle, share * Givers(start, combo[..i], share), Given(start, combo[..i], share))
    requires Gave(t, free, numas, middle, now, Portion(start[combo[i]], share), Given(start, combo[..i + 1], share))
    ensures Gave(t, free, numas, before, now, share * Givers(start, combo[..i + 1], share),
                 Given(start, combo[..i + 1], share))
  {
    GiverOneMore(start, combo, share, i);
    GaveBoth(t, free, numas, before, middle, now, share * Givers(start, combo[..i], share),
             Portion(start[combo[i]], share), Given(start, combo[..i], share), Given(start, combo[..i + 1], share));
  }

  /** The even shares. A node that does not have its share gives nothing, the error being
      dropped. */
  method GiveShares(acc: CpuAccumulator, combo: seq<int>, share: int, ghost free: set<int>, ghost numas: seq<int>,
                    ghost g: int)
    requires WellFormed(acc.topo) && Safe(acc.topo, free, acc.State()) && g > 0 && share % g == 0
    requires NoDup(combo) && Covers(NodeFree(acc.details, numas), combo) && share >= 0
    modifies acc
    ensures Kept(acc.topo, free, acc.strategy, g, old(acc.State()), acc.State(), ShareSteps(combo, share))
    ensures Covers(old(NodeFree(acc.details, numas)), combo)
    ensures Gave(acc.topo, free, numas, old(acc.State()), acc.State(),
                 share * Givers(old(NodeFree(acc.details, numas)), combo, share),
                 Given(old(NodeFree(acc.details, numas)), combo, share))
  {
    hide Kept;
    ghost var before, start := acc.State(), NodeFree(acc.details, numas);
    assert Given(start, combo[..0], share) == start;
    KeptNothing(acc.topo, free, acc.strategy, g, before);
    for i := 0 to |combo|
      invariant Kept(acc.topo, free, acc.strategy, g, before, acc.State(), ShareSteps(combo, share)[..i])
      invariant Covers(start, combo[..i])
      invariant Gave(acc.topo, free, numas, before, acc.State(), share * Givers(start, combo[..i], share),
                     Given(start, combo[..i], share))
    {
      ghost var middle := acc.State();
      GivenOneMore(start, combo, share, i);
      GiveFromNode(acc, combo[i], share, free, numas, g);
      KeptBoth(acc.topo, free, acc.strategy, g, before, middle, acc.State(), ShareSteps(combo, share)[..i],
               [Step(combo[i], share)]);
      NextStep(combo, share, i);
      ShareStep(acc.topo, free, numas, before, middle, acc.State(), start, combo, share, i);
    }
    assert combo[..|combo|] == combo && ShareSteps(combo, share)[..|combo|] == ShareSteps(combo, share);
  }

  lemma NextStep(combo: seq<int>, share: int, i: nat)
    requires i < |combo|
    ensures ShareSteps(combo, share)[..i + 1] == ShareSteps(combo, share)[..i] + [Step(combo[i], share)]
  {
  }

  // ---- the remainder

  /** What one node contributes in a round: a group if it has one and some CPU remains. So
      far m CPUs were given since the state a. */
  method GiveGroup(acc: CpuAccumulator, node: int, r: int, g: int, ghost free: set<int>, ghost numas: seq<int>,
                   ghost a: Acc, ghost m: int, ghost left: NodeCounts, ghost steps: seq<Step>)
    returns (r': int)
    requires WellFormed(acc.topo) && g > 0 && node in left && Gave(acc.topo, free, numas, a, acc.State(), m, left)
    requires Kept(acc.topo, free, acc.strategy, g, a, acc.State(), steps)
    modifies acc
    ensures Kept(acc.topo, free, acc.strategy, g, a, acc.State(), if left[node] < g then steps else steps + [Step(node, g)])
    ensures r' == if left[node] < g then r else r - g
    ensures Gave(acc.topo, free, numas, a, acc.State(), m + r - r',
                 if left[node] < g then left else left[node := left[node] - g])
  {
    hide Kept, Safe, WellFormed;
    assert |Members(acc.details, Numa, node)| == left[node];
    if |Members(acc.details, Numa, node)| < g {
      return r;
    }
    ghost var b := acc.State();
    GiveFromNode(acc, node, g, free, numas, g);
    KeptBoth(acc.topo, free, acc.strategy, g, a, b, acc.State(), steps, [Step(node, g)]);
    GaveBoth(acc.topo, free, numas, a, b, acc.State(), m, g, left, left[node := left[node] - g]);
    return r - g;
  }

  lemma PassStep(left: NodeCounts, nodes: seq<int>, i: nat, r: int, g: int)
    requires i < |nodes| && Covers(left, nodes[i..]) && r != 0
    ensures nodes[i] in left
    ensures var next := if left[nodes[i]] < g then left else left[nodes[i] := left[nodes[i]] - g];
      && Covers(next, nodes[i + 1..]) && next.Keys == left.Keys
      && Pass(left, nodes[i..], r, g) == Pass(next, nodes[i + 1..], if left[nodes[i]] < g then r else r - g, g)
  {
    assert nodes[i..][1..] == nodes[i + 1..] && nodes[i..][0] == nodes[i];
  }

  /** One round of handing out the remainder. */
  method GiveRound(acc: CpuAccumulator, nodes: seq<int>, remainder: int, g: int, ghost free: set<int>,
                   ghost numas: seq<int>) returns (r: int, ghost steps: seq<Step>)
    requires WellFormed(acc.topo) && Safe(acc.topo, free, acc.State())
    requires g > 0 && Covers(NodeFree(acc.details, numas), nodes)
    modifies acc
    ensures r == Pass(old(NodeFree(acc.details, numas)), nodes, remainder, g).1
    ensures remainder - r == |steps| * g && EachOf(steps, g)
    ensures Gave(acc.topo, free, numas, old(acc.State()), acc.State(), remainder - r,
                 Pass(old(NodeFree(acc.details, numas)), nodes, remainder, g).0)
    ensures Kept(acc.topo, free, acc.strategy, g, old(acc.State()), acc.State(), steps)
  {
    hide Kept, Gave;
    ghost var before, top := acc.State(), NodeFree(acc.details, numas);
    GaveNothing(acc.topo, free, numas, before);
    ghost var left, end := top, Pass(top, nodes, remainder, g);
    r, steps := remainder, [];
    KeptNothing(acc.topo, free, acc.strategy, g, before);
    for i := 0 to |nodes|
      invariant Gave(acc.topo, free, numas, before, acc.State(), remainder - r, left)
      invariant Kept(acc.topo, free, acc.strategy, g, before, acc.State(), steps)
      invariant remainder - r == |steps| * g && EachOf(steps, g)
      invariant Covers(left, nodes[i..]) && Pass(left, nodes[i..], r, g) == end
    {
      if r == 0 {
        PassOver(left, nodes[i..], g);
        break;
      }
      PassStep(left, nodes, i, r, g);
      OneMoreGroup(|steps|, g);
      r := GiveGroup(acc, nodes[i], r, g, free, numas, before, remainder - r, left, steps);
      steps := if left[nodes[i]] < g then steps else steps + [Step(nodes[i], g)];
      left := if left[nodes[i]] < g then left else left[nodes[i] := left[nodes[i]] - g];
    }
    assert (left, r) == end;
  }

  lemma OneMoreGroup(takes: int, g: int)
    ensures (takes + 1) * g == takes * g + g
  {
  }

  lemma PassOver(left: NodeCounts, nodes: seq<int>, g: int)
    requires Covers(left, nodes)
    ensures Pass(left, nodes, 0, g) == (left, 0)
  {
  }

  /** The remainder, group by group: the counts end exactly where the search predicted. */
  method GiveRemainder(acc: CpuAccumulator, nodes: seq<int>, remainder: int, g: int, ghost free: set<int>,
                       ghost numas: seq<int>) returns (ghost steps: seq<Step>)
    requires WellFormed(acc.topo) && Safe(acc.topo, free, acc.State())
    requires g > 0 && NoDup(nodes) && Covers(NodeFree(acc.details, numas), nodes)
    requires remainder >= 0 && remainder % g == 0 && Groups(NodeFree(acc.details, numas), nodes, g) * g >= remainder
    modifies acc
    ensures Gave(acc.topo, free, numas, old(acc.State()), acc.State(), remainder,
                 Spread(old(NodeFree(acc.details, numas)), nodes, remainder, g))
    ensures Kept(acc.topo, free, acc.strategy, g, old(acc.State()), acc.State(), steps)
    ensures |steps| == remainder / g && EachOf(steps, g)
  {
    hide Kept, Gave, WellFormed, Groups;
    ghost var t, before, start := acc.topo, acc.State(), NodeFree(acc.details, numas);
    GaveNothing(t, free, numas, before);
    ghost var now, left := before, start;
    steps := [];
    var r := remainder;
    KeptNothing(t, free, acc.strategy, g, before);
    while r > 0
      invariant Kept(t, free, acc.strategy, g, before, now, steps)
      invariant remainder - r == |steps| * g && EachOf(steps, g)
      invariant acc.State() == now && Gave(t, free, numas, before, now, remainder - r, left)
      invariant CanGive(left, nodes, r, g)
      invariant Spread(left, nodes, r, g) == Spread(start, nodes, remainder, g)
      decreases r
    {
      ghost var middle, top, r0 := now, left, r;
      RoundGoesOn(top, nodes, r0, g);
      GaveMeans(t, free, numas, before, now, remainder - r0, left);
      ghost var more;
      r, more := GiveRound(acc, nodes, r, g, free, numas);
      now := acc.State();
      KeptBoth(t, free, acc.strategy, g, before, middle, now, steps, more);
      MoreGroups(|steps|, |more|, g);
      steps := steps + more;
      left := Pass(top, nodes, r0, g).0;
      GaveBoth(t, free, numas, before, middle, now, remainder - r0, r0 - r, top, left);
    }
    GroupsOf(remainder, |steps|, g);
  }

  lemma MoreGroups(takes: int, more: int, g: int)
    ensures (takes + more) * g == takes * g + more * g
  {
  }

  lemma GroupsOf(remainder: int, takes: int, g: int)
    requires g > 0 && remainder == takes * g
    ensures remainder / g == takes
  {
    assert remainder == g * takes + 0;
    DivModUnique(g, takes, 0);
  }

  ghost predicate CanGive(left: NodeCounts, nodes: seq<int>, r: int, g: int) {
    g > 0 && Covers(left, nodes) && NoDup(nodes) && r >= 0 && r % g == 0 && Groups(left, nodes, g) * g >= r
  }

  lemma RoundGoesOn(left: NodeCounts, nodes: seq<int>, r: int, g: int)
    requires CanGive(left, nodes, r, g) && r > 0
    ensures var (left', r') := Pass(left, nodes, r, g);
      r' < r && CanGive(left', nodes, r', g) && Spread(left, nodes, r, g) == Spread(left', nodes, r', g)
  {
    var q := r / g;
    assert r == q * g;
    PositiveMultiple(r, g);
    RoundCounts(left, nodes, q, g);
  }

  /** The counts that are left once shares and remainder have been given. */
  function LeftCounts(start: NodeCounts, combo: seq<int>, rem: seq<int>, share: int, remainder: int, g: int): NodeCounts
    requires g > 0 && Covers(start, rem)
  {
    Spread(Given(start, combo, share), rem, remainder, g)
  }

  lemma PlannedSteps(combo: seq<int>, share: int, rest: int, g: int, more: seq<Step>)
    requires g > 0 && |more| == rest / g && EachOf(more, g)
    ensures PlanSteps(ShareSteps(combo, share) + more, combo, share, rest, g)
  {
    var steps := ShareSteps(combo, share) + more;
    assert steps[|combo|..] == more && steps[..|combo|] == ShareSteps(combo, share);
  }

  /** The choice carried out: even shares first, then the remainder. */
  method CarryOut(acc: CpuAccumulator, combo: seq<int>, rem: seq<int>, share: int, remainder: int, g: int,
                  ghost free: set<int>, ghost numas: seq<int>) returns (ghost steps: seq<Step>)
    requires WellFormed(acc.topo) && Safe(acc.topo, free, acc.State())
    requires share >= 0 && NoDup(combo) && Covers(NodeFree(acc.details, numas), combo)
    requires CanGive(Given(NodeFree(acc.details, numas), combo, share), rem, remainder, g) && share % g == 0
    modifies acc
    ensures Kept(acc.topo, free, acc.strategy, g, old(acc.State()), acc.State(), steps)
    ensures PlanSteps(steps, combo, share, remainder, g)
    ensures var start := old(NodeFree(acc.details, numas));
      && Covers(start, combo) && Covers(start, rem)
      && Gave(acc.topo, free, numas, old(acc.State()), acc.State(), share * Givers(start, combo, share) + remainder,
              LeftCounts(start, combo, rem, share, remainder, g))
  {
    hide Kept;
    ghost var t, before, start := acc.topo, acc.State(), NodeFree(acc.details, numas);
    ghost var after := Given(start, combo, share);
    GiveShares(acc, combo, share, free, numas, g);
    ghost var middle := acc.State();
    ghost var more := GiveRemainder(acc, rem, remainder, g, free, numas);
    steps := ShareSteps(combo, share) + more;
    KeptBoth(t, free, acc.strategy, g, before, middle, acc.State(), ShareSteps(combo, share), more);
    PlannedSteps(combo, share, remainder, g, more);
    GaveBoth(t, free, numas, before, middle, acc.State(), share * Givers(start, combo, share), remainder, after,
             Spread(after, rem, remainder, g));
  }

  lemma PlanLength(steps: seq<Step>, combo: seq<int>, share: int, rest: int, g: int)
    requires g > 0 && PlanSteps(steps, combo, share, rest, g)
    ensures |steps| == |combo| + rest / g
  {
  }

  /** The allocation from what the slices of the choice hold, with its two accounting checks:
      CPUs are missing if and only if some node does not have its share. */
  method Allocate(acc: CpuAccumulator, combo: seq<int>, rem: seq<int>, share: int, rest: int, g: int,
                  ghost free: set<int>, ghost numas: seq<int>) returns (r: Result)
    requires WellFormed(acc.topo) && Safe(acc.topo, free, acc.State())
    requires acc.result == {} && acc.numCPUsNeeded == share * |combo| + rest
    requires share >= 0 && NoDup(combo) && Covers(NodeFree(acc.details, numas), combo)
    requires CanGive(Given(NodeFree(acc.details, numas), combo, share), rem, rest, g) && share % g == 0
    modifies acc
    ensures r.Ok? ==>
      && KeptCores(acc.topo, free, acc.strategy, g, r.cpus, |combo| + rest / g)
      && BySteps(acc.topo, free, acc.strategy, combo, share, rest, g, r.cpus)
    ensures var start := old(NodeFree(acc.details, numas));
      && Covers(start, rem)
      && if AllGive(start, combo, share)
         then r.Ok? && r.cpus <= free && |r.cpus| == old(acc.numCPUsNeeded)
              && NodeFree(KeepOnly(acc.topo.cpuDetails, free - r.cpus), numas) == LeftCounts(start, combo, rem, share, rest, g)
         else r == Failed
  {
    hide Kept, KeptCores, InSteps, PlanSteps, WellFormed;
    ghost var start, before := NodeFree(acc.details, numas), acc.State();
    ghost var steps := CarryOut(acc, combo, rem, share, rest, g, free, numas);
    Missing(start, combo, share);
    KeptFromStart(acc.topo, free, acc.strategy, g, before, acc.State(), steps);
    PlanLength(steps, combo, share, rest, g);
    if acc.numCPUsNeeded > 0 {
      return Failed;
    }
    if acc.numCPUsNeeded < 0 {
      return Failed;
    }
    return Ok(acc.result);
  }

  lemma Missing(start: NodeCounts, combo: seq<int>, share: int)
    requires share >= 0 && Covers(start, combo)
    ensures share * Givers(start, combo, share) <= share * |combo|
    ensures AllGive(start, combo, share) ==> Givers(start, combo, share) == |combo|
    ensures !AllGive(start, combo, share) && share > 0 ==> share * Givers(start, combo, share) < share * |combo|
  {
    GiversCount(start, combo, share);
    MulMonotone(share, Givers(start, combo, share), |combo|);
    if !AllGive(start, combo, share) {
      MulMonotone(share, Givers(start, combo, share), |combo| - 1);
    }
  }
}
