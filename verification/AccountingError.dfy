/** A request that ends in the accounting error although the plan found for it is sound:
    twenty-four CPUs, two at a time, from four NUMA nodes with six free CPUs each and two with
    four. The plan takes six CPUs from each of the first four nodes. Its slice shares an array
    with the combinations visited next, and holds one of the poorer nodes instead of the last
    of the four when the plan is carried out. */
module AccountingError {
  import opened Sorting
  import opened Topology
  import opened UnitOrder
  import opened PackedModel
  import opened Combinations
  import opened Spreading
  import opened BalanceSearch
  import opened CandidateSizes
  import opened CarryingOut
  import opened Distributed
  import opened PlainMachine
  import SharedSlices

  /** The two nodes with four free CPUs share a socket, which therefore comes last. */
  ghost predicate Arranged(free: NodeCounts, numas: seq<int>) {
    && Listed(numas)
    && forall u :: u in numas ==> u in free && free[u] == if u < 8 then 6 else 4
  }

  ghost predicate Listed(numas: seq<int>) {
    && |numas| == 6 && numas[0] == 0 && numas[1] == 2 && numas[2] == 4 && numas[3] == 6
    && numas[4] == 8 && numas[5] == 9
  }

  lemma Places(free: NodeCounts, numas: seq<int>)
    requires Arranged(free, numas)
    ensures NoDup(numas) && Covers(free, numas)
  {
    forall i | 0 <= i < |numas| ensures numas[i] in free {
      assert numas[i] in numas;
    }
  }

  lemma ListedNoDup(numas: seq<int>)
    requires Listed(numas)
    ensures NoDup(numas)
  {
  }

  lemma SharesOfFour()
    ensures Share(24, 4, 2) == 6 && Rest(24, 4, 2) == 0
  {
  }

  /** Only the first four nodes have what is asked for. */
  lemma OnlyFirstFour(free: NodeCounts, numas: seq<int>, k: nat, combo: seq<int>)
    requires Arranged(free, numas) && k == 4 && combo in Combos(numas, k)
    ensures |combo| == 4 && Covers(free, combo)
    ensures Passes(free, combo, 24, 2) ==> combo == numas[..4]
  {
    Places(free, numas);
    CombosElement(numas, k, combo);
    SubsetCovered(free, numas, combo);
    SharesOfFour();
    if Passes(free, combo, 24, 2) {
      forall i | 0 <= i < 4 ensures combo[i] < 8 {
        assert combo[i] in numas && free[combo[i]] >= 6;
      }
      var j := IndexOf(Combos(numas, k), combo);
      var p := CombosAt(numas, k, j);
      FirstPositions(numas, p);
    }
  }

  lemma FirstPositions(numas: seq<int>, p: seq<nat>)
    requires Listed(numas) && |p| == 4 && Increasing(p, 0, |numas|)
    requires forall i :: 0 <= i < 4 ==> Select(numas, p)[i] < 8
    ensures Select(numas, p) == numas[..4]
  {
    assert Select(numas, p)[3] == numas[p[3]];
    assert p[0] < p[1] < p[2] < p[3];
    assert p[3] <= 3;
  }

  /** Nodes with six free CPUs each. */
  lemma {:induction false} Sixes(free: NodeCounts, combo: seq<int>)
    requires Covers(free, combo) && forall i :: 0 <= i < |combo| ==> free[combo[i]] == 6
    ensures Sum(free, combo) == 6 * |combo| && Groups(free, combo, 2) == 3 * |combo|
  {
    if combo != [] {
      Sixes(free, combo[1..]);
    }
  }

  lemma FirstFourPass(free: NodeCounts, numas: seq<int>, score: Score)
    requires Arranged(free, numas)
    ensures HasCandidate(free, numas, 24, 2, score, 4)
  {
    Places(free, numas);
    FirstCombo(numas, 4);
    FourGive(free, numas, numas[..4], score);
  }

  lemma FourGive(free: NodeCounts, numas: seq<int>, combo: seq<int>, score: Score)
    requires Arranged(free, numas) && combo == numas[..4] && combo in Combos(numas, |combo|)
    ensures HasCandidate(free, numas, 24, 2, score, 4)
  {
    FourHave(free, numas, combo);
    Sixes(free, combo);
    FourPass(free, combo, 12);
    PassingGives(free, combo, score);
  }

  lemma FourHave(free: NodeCounts, numas: seq<int>, combo: seq<int>)
    requires Arranged(free, numas) && combo == numas[..4]
    ensures Covers(free, combo) && forall i :: 0 <= i < |combo| ==> free[combo[i]] == 6
  {
    forall i | 0 <= i < 4 ensures combo[i] in free && free[combo[i]] == 6 {
      assert combo[i] == numas[i] && numas[i] in numas;
    }
  }

  lemma FourPass(free: NodeCounts, combo: seq<int>, groups: int)
    requires |combo| == 4 && Covers(free, combo) && Sum(free, combo) == 24 && Groups(free, combo, 2) == groups == 12
    requires forall i :: 0 <= i < 4 ==> free[combo[i]] == 6
    ensures Passes(free, combo, 24, 2)
  {
    SharesOfFour();
  }

  lemma PassingGives(free: NodeCounts, combo: seq<int>, score: Score)
    requires |combo| == 4 && Covers(free, combo) && Passes(free, combo, 24, 2)
    ensures Candidate(free, combo, 24, 2, score, [], score(After(free, combo, 6)))
  {
    SharesOfFour();
  }

  // ---- what the slice of the plan holds

  /** When sets of that size share arrays, the slice of the first k nodes never keeps them: the
      walk goes on at least once after it is saved. */
  lemma FirstReplaced(nodes: seq<int>, k: nat, breaks: bool, held: seq<int>)
    requires NoDup(nodes) && k >= 1 && SharedSlices.OwnLength(k) < k < |nodes|
    requires HeldAfter(nodes, nodes[..k], breaks, held)
    ensures held != nodes[..k]
  {
    SharedSlices.FirstElements(nodes, k);
    SharedSlices.FirstTwins(|nodes|, k, 0);
    SharedSlices.CombosSize(nodes, k);
    var j: nat, v: nat :| j < v <= |Combos(nodes, k)| && Combos(nodes, k)[j] == nodes[..k]
      && (v == |Combos(nodes, k)| || (breaks && v == j + 2)) && held == SharedSlices.Held(nodes, k, j, v);
    FirstOnce(nodes, k, j);
    SharedSlices.FirstLost(nodes, k, v);
  }

  lemma FirstOnce(nodes: seq<int>, k: nat, j: nat)
    requires NoDup(nodes) && j < |Combos(nodes, k)| && Combos(nodes, k)[j] == Combos(nodes, k)[0]
    ensures j == 0
  {
    CombosExact(nodes, k);
    var ps := Positions(|nodes|, k, 0);
    SharedSlices.SamePositions(nodes, ps[0], ps[j]);
    NothingFirst(ps, j);
  }

  lemma NothingFirst(ps: seq<seq<nat>>, j: nat)
    requires j < |ps| && LexSorted(ps)
    ensures j > 0 ==> ps[j] != ps[0]
  {
    if j > 0 {
      SharedSlices.LaterDiffers(ps, 0, j);
    }
  }

  /** So the plan's last node is replaced. */
  lemma Replaced(numas: seq<int>, k: nat, combo: seq<int>, breaks: bool, held: seq<int>)
    requires k == 4 && Listed(numas) && combo == numas[..4] && HeldAfter(numas, combo, breaks, held)
    ensures held in Combos(numas, k) && |held| == 4 && held[..3] == combo[..3] && held != combo
  {
    ListedNoDup(numas);
    SharedSlices.SmallLengths();
    FirstReplaced(numas, k, breaks, held);
    HeldIsSet(numas, combo, breaks, held);
  }

  /** One of the two poorer nodes has taken the place of the last one. */
  lemma PoorerNode(free: NodeCounts, numas: seq<int>, combo: seq<int>, held: seq<int>)
    requires Arranged(free, numas) && combo == numas[..4] && |held| == 4 && NoDup(held)
    requires held[3] in numas && held[..3] == combo[..3] && held != combo
    ensures !AllGive(free, held, 6)
  {
    ThreeAlike(combo, held);
    NotFirstFour(numas, held[3]);
    assert held[3] in free && free[held[3]] == 4;
  }

  lemma NotFirstFour(numas: seq<int>, u: int)
    requires Listed(numas) && u in numas && u != numas[0] && u != numas[1] && u != numas[2] && u != numas[3]
    ensures u == 8 || u == 9
  {
  }

  lemma ThreeAlike(combo: seq<int>, held: seq<int>)
    requires |combo| == |held| == 4 && held[..3] == combo[..3] && held != combo && NoDup(held)
    ensures held[3] != combo[3] && forall i :: 0 <= i < 3 ==> held[3] != combo[i]
  {
    assert forall i :: 0 <= i < 3 ==> held[..3][i] == held[i] && combo[..3][i] == combo[i];
    assert held == held[..3] + [held[3]] && combo == combo[..3] + [combo[3]];
  }

  // ---- the call

  /** The first size tried has the one candidate; every loop of the call ends; and no plan the
      search can return is intact, nor can the nodes its slice holds give their shares. */
  ghost predicate Unlucky(t: CPUTopology, available: set<int>, score: Score) {
    && |t.cpuDetails.Keys * available| == 32
    && |t.cpuDetails.Keys| > 0 && |Units(t.cpuDetails, Numa)| > 0
    && NodesNeeded(|t.cpuDetails.Keys|, |Units(t.cpuDetails, Numa)|, |FreeNodes(t, available)|, 24, 2) == (4, 6)
    && HasCandidate(FreeCounts(t, available), FreeNodes(t, available), 24, 2, score, 4)
    && LoopsEnd(t, available, 24, 2, score) && LastEnds(t, available, 24, 2, score)
    && forall choice: Choice :: (Outcome(t, available, 24, 2, score, choice)
                                 ==> Spoilt(FreeCounts(t, available), FreeNodes(t, available), choice))
  }

  /** The plan was the first four nodes, and its slice holds another. */
  ghost predicate Spoilt(free: NodeCounts, numas: seq<int>, choice: Choice) {
    && choice.Found? && |numas| >= 4 && choice.combo == numas[..4] && choice.held != choice.combo
    && choice.heldRemainder == [] && !AllGive(free, choice.held, 6)
  }

  lemma SearchedSpoilt(free: NodeCounts, numas: seq<int>, score: Score, choice: Choice, k: nat)
    requires Arranged(free, numas) && choice.Found? && k >= 4
    requires Searched(free, numas, 24, 2, score, 4, k, choice)
    ensures Spoilt(free, numas, choice)
  {
    FirstFourPass(free, numas, score);
    StopsAtFour(free, numas, score, 4);
    ChosenSpoilt(free, numas, score, choice, k);
  }

  lemma ChosenSpoilt(free: NodeCounts, numas: seq<int>, score: Score, choice: Choice, k: nat)
    requires Arranged(free, numas) && k == 4 && choice.Found? && choice.combo in Combos(numas, k)
    requires Candidate(free, choice.combo, 24, 2, score, choice.remainder, choice.balance)
    requires Holds(free, numas, 24, 2, choice)
    ensures Spoilt(free, numas, choice)
  {
    OnlyFirstFour(free, numas, k, choice.combo);
    HeldSpoilt(free, numas, k, choice.combo, choice.balance == 0.0, choice.held);
    SharesOfFour();
  }

  lemma HeldSpoilt(free: NodeCounts, numas: seq<int>, k: nat, combo: seq<int>, breaks: bool, held: seq<int>)
    requires k == 4 && Arranged(free, numas) && combo == numas[..4] && HeldAfter(numas, combo, breaks, held)
    ensures held != combo && !AllGive(free, held, 6)
  {
    Places(free, numas);
    Replaced(numas, k, combo, breaks, held);
    CombosElement(numas, k, held);
    PoorerNode(free, numas, combo, held);
  }

  lemma StopsAtFour(free: NodeCounts, numas: seq<int>, score: Score, m: nat)
    requires HasCandidate(free, numas, 24, 2, score, m)
    ensures forall k: nat :: k > m ==> !NoneBetween(free, numas, 24, 2, score, m, k)
  {
    var combo, rem, bal :| combo in Combos(numas, m) && Candidate(free, combo, 24, 2, score, rem, bal);
    assert !NoCandidates(free, Combos(numas, m), 24, 2, score);
  }

  lemma OnlyFour(free: NodeCounts, numas: seq<int>, score: Score)
    requires Arranged(free, numas)
    ensures SearchEnds(free, numas, 4, 6, 24, 2, score)
  {
    FirstFourPass(free, numas, score);
    forall k: nat | 4 <= k <= 6 && NoneBetween(free, numas, 24, 2, score, 4, k)
      ensures SizeEnds(free, Combos(numas, k), 24, 2, score)
    {
      StopsAtFour(free, numas, score, 4);
      FourEnd(free, numas, k, score);
    }
  }

  lemma FourEnd(free: NodeCounts, numas: seq<int>, k: nat, score: Score)
    requires k == 4
    ensures SizeEnds(free, Combos(numas, k), 24, 2, score)
  {
    forall idx | 0 <= idx < |Combos(numas, k)| ensures ComboEnds(free, Combos(numas, k)[idx], 24, 2) {
      CombosElement(numas, k, Combos(numas, k)[idx]);
      SharesOfFour();
    }
  }

  lemma RangeIs()
    ensures NodesNeeded(60, 10, 6, 24, 2) == (4, 6)
  {
  }

  lemma EndsSpoilt(t: CPUTopology, available: set<int>, score: Score)
    requires |t.cpuDetails.Keys| > 0 && |Units(t.cpuDetails, Numa)| > 0
    requires NodesNeeded(|t.cpuDetails.Keys|, |Units(t.cpuDetails, Numa)|, |FreeNodes(t, available)|, 24, 2) == (4, 6)
    requires Arranged(FreeCounts(t, available), FreeNodes(t, available))
    ensures forall choice: Choice :: (Outcome(t, available, 24, 2, score, choice)
                                      ==> Spoilt(FreeCounts(t, available), FreeNodes(t, available), choice))
    ensures LastEnds(t, available, 24, 2, score)
  {
    var free, numas := FreeCounts(t, available), FreeNodes(t, available);
    FirstFourPass(free, numas, score);
    StopsAtFour(free, numas, score, 4);
    forall choice: Choice | Outcome(t, available, 24, 2, score, choice)
      ensures Spoilt(free, numas, choice) && LastLoopEnds(free, 24, 2, choice)
    {
      SearchedSpoilt(free, numas, score, choice, |choice.combo|);
      NothingRemains(free, numas, choice);
    }
  }

  lemma NothingRemains(free: NodeCounts, numas: seq<int>, choice: Choice)
    requires Spoilt(free, numas, choice)
    ensures LastLoopEnds(free, 24, 2, choice)
  {
    SharesOfFour();
  }

  lemma UnluckyOn(t: CPUTopology, available: set<int>, given: seq<nat>, score: Score)
    requires given == [6, 0, 6, 0, 6, 0, 6, 0, 4, 4] && HasFree(t, available, given) && Listed(FreeNodes(t, available))
    ensures Unlucky(t, available, score)
  {
    var free, numas := FreeCounts(t, available), FreeNodes(t, available);
    GivenCounts(free, numas, given);
    RangeIs();
    FirstFourPass(free, numas, score);
    OnlyFour(free, numas, score);
    EndsSpoilt(t, available, score);
    ThirtyTwo(free, numas);
  }

  lemma GivenCounts(free: NodeCounts, numas: seq<int>, given: seq<nat>)
    requires given == [6, 0, 6, 0, 6, 0, 6, 0, 4, 4] && CountsAre(free, numas, given) && Listed(numas)
    ensures Arranged(free, numas)
  {
    forall u | u in numas ensures u in free && free[u] == if u < 8 then 6 else 4 {
      assert free[u] == given[u];
    }
  }

  lemma ThirtyTwo(free: NodeCounts, numas: seq<int>)
    requires Arranged(free, numas)
    ensures Covers(free, numas) && Sum(free, numas) == 32
  {
    Places(free, numas);
    ListedNoDup(numas);
    SumFrom(free, numas, 0);
  }

  lemma {:induction false} SumFrom(free: NodeCounts, numas: seq<int>, i: nat)
    requires Arranged(free, numas) && i <= 6
    ensures Covers(free, numas[i..])
    ensures Sum(free, numas[i..]) == if i <= 4 then 6 * (4 - i) + 8 else 4 * (6 - i)
    decreases 6 - i
  {
    Places(free, numas);
    if i < 6 {
      SumFrom(free, numas, i + 1);
      assert numas[i..][1..] == numas[i + 1..] && numas[i] in numas;
    }
  }

  // ---- the machine

  /** Of five sockets the last one has two free nodes and eight free CPUs, the others have one
      free node and six. */
  ghost predicate Sparse(d: CPUDetails) {
    && (forall s: int, u: int :: 0 <= s < 4 ==> (u in UnitsIn(d, Numa, Socket, s) <==> u == 2 * s))
    && (forall u: int :: u in UnitsIn(d, Numa, Socket, 4) <==> u == 8 || u == 9)
    && |Members(d, Numa, 8)| == |Members(d, Numa, 9)| == 4
  }

  ghost predicate LastFullest(d: CPUDetails) {
    && (forall s :: s in Units(d, Socket) <==> 0 <= s < 5)
    && forall s :: 0 <= s < 5 ==> |Members(d, Socket, s)| == if s < 4 then 6 else 8
  }

  ghost predicate InIdOrder(sockets: seq<int>) {
    |sockets| == 5 && forall s :: 0 <= s < 5 ==> sockets[s] == s
  }

  /** Sockets come in the order of their free CPUs, ... */
  lemma SocketOrder(d: CPUDetails, order: seq<int>)
    requires LastFullest(d) && InIdOrder(order)
    ensures SortAvailable(d, [Socket]) == order
  {
    var w, us := Counts(d, Socket), Units(d, Socket);
    FiveIds(order, us);
    forall i, j | 0 <= i < j < |order| ensures order[i] in w && order[j] in w && Before(w, order[i], order[j]) {
      assert order[i] in us && order[j] in us && order[i] == i && order[j] == j;
    }
    SortUnique(w, us, order);
  }

  lemma FiveIds(order: seq<int>, us: set<int>)
    requires InIdOrder(order) && forall s :: s in us <==> 0 <= s < 5
    ensures Elements(order) == us
  {
    forall s ensures s in Elements(order) <==> s in us {
      if 0 <= s < 5 {
        assert order[s] == s;
      }
    }
  }

  lemma InSocketOrder(d: CPUDetails, s: int)
    requires Sparse(d) && 0 <= s <= 4
    ensures SortedIn(d, Numa, Socket, s) == if s < 4 then [2 * s] else [8, 9]
  {
    SortUnique(Counts(d, Numa), UnitsIn(d, Numa, Socket, s), if s < 4 then [2 * s] else [8, 9]);
  }

  lemma {:induction false} NodesFrom(d: CPUDetails, sockets: seq<int>, nodes: seq<int>, i: nat)
    requires Sparse(d) && InIdOrder(sockets) && Listed(nodes) && i <= 4
    ensures SortWithin(d, sockets[i..], Socket, Numa) == nodes[i..]
    decreases 4 - i
  {
    SortWithinStep(d, sockets, i, Socket, Numa);
    InSocketOrder(d, i);
    if i == 4 {
      NoneLeft(d, sockets, nodes);
    } else {
      NodesFrom(d, sockets, nodes, i + 1);
      OneMoreNode(nodes, i);
    }
  }

  lemma NoneLeft(d: CPUDetails, sockets: seq<int>, nodes: seq<int>)
    requires |sockets| == 5 && Listed(nodes)
    ensures SortWithin(d, sockets[5..], Socket, Numa) == [] && [8, 9] + [] == nodes[4..]
  {
    assert sockets[5..] == [];
  }

  lemma OneMoreNode(nodes: seq<int>, i: nat)
    requires Listed(nodes) && i < 4
    ensures [2 * i] + nodes[i + 1..] == nodes[i..]
  {
  }

  /** ... and the nodes socket by socket. */
  lemma NodeOrder(d: CPUDetails, nodes: seq<int>)
    requires Sparse(d) && LastFullest(d) && Listed(nodes)
    ensures SortAvailable(d, [Socket, Numa]) == nodes
  {
    var sockets := seq(5, i => i);
    SocketOrder(d, sockets);
    NodesFrom(d, sockets, nodes, 0);
    assert [Socket, Numa][..1] == [Socket] && sockets[0..] == sockets && nodes[0..] == nodes;
  }

  lemma SocketsFree(free: seq<nat>, d: CPUDetails)
    requires free == [6, 0, 6, 0, 6, 0, 6, 0, 4, 4] && d == FreeDetails(free, 2)
    ensures Sparse(d) && LastFullest(d)
  {
    forall s: int | 0 <= s < 5
      ensures |Members(d, Socket, s)| == if s < 4 then 6 else 8
      ensures forall u :: u in UnitsIn(d, Numa, Socket, s) <==> if s < 4 then u == 2 * s else u == 8 || u == 9
      ensures s in Units(d, Socket)
    {
      TwoInSocket(free, s);
      assert Members(d, Socket, s) != {};
    }
    FreeOn(free, 2, 8);
    FreeOn(free, 2, 9);
  }

  lemma DetailsInOrder(free: seq<nat>, d: CPUDetails, nodes: seq<int>)
    requires free == [6, 0, 6, 0, 6, 0, 6, 0, 4, 4] && d == FreeDetails(free, 2) && Listed(nodes)
    ensures SortAvailable(d, [Socket, Numa]) == nodes
  {
    SocketsFree(free, d);
    NodeOrder(d, nodes);
  }

  lemma InOrder(free: seq<nat>, t: CPUTopology, available: set<int>)
    requires free == [6, 0, 6, 0, 6, 0, 6, 0, 4, 4] && t.numSockets == 5 && t.numNUMANodes == 10
    requires t.cpuDetails == Details(10, 2) && available == Available(free)
    ensures Listed(FreeNodes(t, available))
  {
    DetailsInOrder(free, KeepOnly(t.cpuDetails, available), [0, 2, 4, 6, 8, 9]);
  }

  /** So it is on a machine with five sockets of two nodes, whatever the balance score. */
  lemma PlanIsSpoilt(free: seq<nat>, score: Score)
    requires free == [6, 0, 6, 0, 6, 0, 6, 0, 4, 4]
    ensures HasFree(Machine(5, 2), Available(free), free) && Listed(FreeNodes(Machine(5, 2), Available(free)))
    ensures Unlucky(Machine(5, 2), Available(free), score)
  {
    MachineHasFree(free, 5, 2);
    InOrder(free, Machine(5, 2), Available(free));
    UnluckyOn(Machine(5, 2), Available(free), free, score);
  }

  /** The call for these CPUs ends in the accounting error, with 32 CPUs free. */
  method EndsInError(t: CPUTopology, available: set<int>, strategy: string, score: Score) returns (r: Result)
    requires WellFormed(t) && NonNegative(score) && Unlucky(t, available, score)
    ensures r == Failed
  {
    ghost var choice;
    r, choice := TakeByTopologyNUMADistributed(t, available, 24, 2, strategy, score);
    SharesOfFour();
  }
}
