/** A request the pruned search gives up on although all five free nodes could share it: eight
    CPUs, two at a time, from NUMA nodes with six, two, one, one and one free CPUs. */
module WiderSearch {
  import opened Sorting
  import opened Topology
  import opened PackedModel
  import opened Combinations
  import opened Spreading
  import opened BalanceSearch
  import opened CandidateSizes
  import opened Distributed
  import opened PlainMachine

  ghost predicate Arranged(free: NodeCounts, numas: seq<int>) {
    CountsAre(free, numas, [6, 2, 1, 1, 1])
  }

  lemma Counts(free: NodeCounts, numas: seq<int>)
    requires Arranged(free, numas)
    ensures Listing(free, numas) && |numas| == 5
    ensures forall u :: u in numas ==> u in free && 0 <= u < 5 && free[u] == if u == 0 then 6 else if u == 1 then 2 else 1
  {
    var given := [6, 2, 1, 1, 1];
    assert given[0] == 6 && given[1] == 2 && given[2] == 1 && given[3] == 1 && given[4] == 1;
    NoDupSize(numas);
    FiveNodes(Elements(numas));
    forall u | u in numas ensures u in free && free[u] == if u == 0 then 6 else if u == 1 then 2 else 1 {
      assert free[u] == given[u];
    }
  }

  lemma FiveNodes(us: set<int>)
    requires forall u :: u in us <==> 0 <= u < 5
    ensures |us| == 5
  {
    forall u ensures u in us <==> u in {0, 1, 2, 3, 4} {
      assert u in us <==> 0 <= u < 5;
    }
    assert us == {0, 1, 2, 3, 4};
  }

  /** Up to four nodes one of them always has less than its share, and one alone has too few. */
  lemma NonePasses(free: NodeCounts, numas: seq<int>, k: nat, combo: seq<int>)
    requires Arranged(free, numas) && 1 <= k <= 4 && combo in Combos(numas, k)
    ensures |combo| == k && Covers(free, combo) && !Passes(free, combo, 8, 2)
  {
    Counts(free, numas);
    CombosElement(numas, k, combo);
    SubsetCovered(free, numas, combo);
    if k == 1 {
      OneAlone(free, numas, combo);
    } else {
      var i := Poor(free, numas, combo);
      Shares();
      assert free[combo[i]] < Share(8, k, 2);
    }
  }

  lemma Shares()
    ensures Share(8, 2, 2) == 4 && Share(8, 3, 2) == 2 && Share(8, 4, 2) == 2
  {
  }

  lemma OneAlone(free: NodeCounts, numas: seq<int>, combo: seq<int>)
    requires Arranged(free, numas) && |combo| == 1 && Covers(free, combo) && combo[0] in numas
    ensures Sum(free, combo) < 8
  {
    Counts(free, numas);
    assert combo[1..] == [] && Sum(free, combo[1..]) == 0;
    var u := combo[0];
    assert u in numas && Sum(free, combo) == free[u];
    assert free[u] <= 6;
  }

  /** Of two nodes or more one is not the first, of three or more one is neither of the first
      two: it has two free CPUs, or one. */
  lemma Poor(free: NodeCounts, numas: seq<int>, combo: seq<int>) returns (i: nat)
    requires Arranged(free, numas) && |combo| >= 2 && NoDup(combo) && Covers(free, combo)
    requires forall j :: 0 <= j < |combo| ==> combo[j] in numas
    ensures i < |combo| && free[combo[i]] <= 2 && (|combo| >= 3 ==> free[combo[i]] == 1)
  {
    Counts(free, numas);
    var a, b := combo[0], combo[1];
    assert a != b && a in numas && b in numas;
    if |combo| == 2 {
      return if a > 0 then 0 else 1;
    }
    var c := combo[2];
    assert c != a && c != b && c in numas;
    return if a > 1 then 0 else if b > 1 then 1 else 2;
  }

  /** Together the first two nodes have all four groups, so the five can share them. */
  lemma FiveShare(free: NodeCounts, numas: seq<int>, score: Score)
    requires Arranged(free, numas)
    ensures Wider(free, numas, 8, 2) && HasCandidate(free, numas, 8, 2, score, 5)
  {
    Counts(free, numas);
    var part := [0, 1];
    assert 0 in numas && 1 in numas;
    GroupsOfPart(free, part, numas, 2);
    assert part[1..] == [1] && [1][1..] == [];
    assert Groups(free, [1], 2) == 1;
    AllQualify(free, numas, 8, 2, score);
  }

  /** No size in the range of the search, nor any below it, has a candidate, but the size of
      all five nodes has; and the call comes to an end. */
  ghost predicate Missed(t: CPUTopology, available: set<int>, score: Score) {
    && |t.cpuDetails.Keys * available| == 11
    && |t.cpuDetails.Keys| > 0 && |Units(t.cpuDetails, Numa)| > 0
    && NodesNeeded(|t.cpuDetails.Keys|, |Units(t.cpuDetails, Numa)|, |FreeNodes(t, available)|, 8, 2) == (2, 4)
    && NoneBetween(FreeCounts(t, available), FreeNodes(t, available), 8, 2, score, 1, 5)
    && HasCandidate(FreeCounts(t, available), FreeNodes(t, available), 8, 2, score, 5)
    && LoopsEnd(t, available, 8, 2, score) && LastEnds(t, available, 8, 2, score)
  }

  lemma NoneUpToFour(free: NodeCounts, numas: seq<int>, score: Score)
    requires Arranged(free, numas)
    ensures NoneBetween(free, numas, 8, 2, score, 1, 5) && SearchEnds(free, numas, 2, 4, 8, 2, score)
  {
    forall k: nat | 1 <= k < 5 ensures NoCandidates(free, Combos(numas, k), 8, 2, score) {
      forall combo, rem, bal | combo in Combos(numas, k) ensures !Candidate(free, combo, 8, 2, score, rem, bal) {
        NonePasses(free, numas, k, combo);
      }
    }
    forall k: nat | 2 <= k <= 4 ensures SizeEnds(free, Combos(numas, k), 8, 2, score) {
      forall idx | 0 <= idx < |Combos(numas, k)| ensures ComboEnds(free, Combos(numas, k)[idx], 8, 2) {
        NonePasses(free, numas, k, Combos(numas, k)[idx]);
      }
    }
  }

  lemma RangeIs()
    ensures NodesNeeded(30, 5, 5, 8, 2) == (2, 4)
  {
  }

  lemma NothingToEnd(t: CPUTopology, available: set<int>, score: Score)
    requires |t.cpuDetails.Keys| > 0 && |Units(t.cpuDetails, Numa)| > 0
    requires NodesNeeded(|t.cpuDetails.Keys|, |Units(t.cpuDetails, Numa)|, |FreeNodes(t, available)|, 8, 2) == (2, 4)
    requires NoneBetween(FreeCounts(t, available), FreeNodes(t, available), 8, 2, score, 1, 5)
    ensures LastEnds(t, available, 8, 2, score)
  {
    forall choice: Choice | choice.Found? ensures !Outcome(t, available, 8, 2, score, choice) {
      NotChosen(FreeCounts(t, available), FreeNodes(t, available), score, choice);
    }
  }

  lemma NotChosen(free: NodeCounts, numas: seq<int>, score: Score, choice: Choice)
    requires choice.Found? && NoneBetween(free, numas, 8, 2, score, 1, 5)
    ensures !(2 <= |choice.combo| <= 4 && Searched(free, numas, 8, 2, score, 2, |choice.combo|, choice))
  {
    if 2 <= |choice.combo| <= 4 {
      assert NoCandidates(free, Combos(numas, |choice.combo|), 8, 2, score);
    }
  }

  lemma MissedOn(t: CPUTopology, available: set<int>, score: Score)
    requires HasFree(t, available, [6, 2, 1, 1, 1])
    ensures Missed(t, available, score)
  {
    var free, numas := FreeCounts(t, available), FreeNodes(t, available);
    Counts(free, numas);
    Eleven(free, numas);
    RangeIs();
    NoneUpToFour(free, numas, score);
    FiveShare(free, numas, score);
    NothingToEnd(t, available, score);
  }

  lemma Eleven(free: NodeCounts, numas: seq<int>)
    requires Arranged(free, numas)
    ensures Covers(free, numas) && Sum(free, numas) == 11
  {
    Counts(free, numas);
    SumIs(free, numas, Elements(numas));
    FiveNodes(Elements(numas));
  }

  /** Every node has one CPU, the first five more and the second one more. */
  lemma {:induction false} SumIs(free: NodeCounts, nodes: seq<int>, us: set<int>)
    requires us == Elements(nodes) && NoDup(nodes)
    requires forall u :: u in nodes ==> u in free && free[u] == if u == 0 then 6 else if u == 1 then 2 else 1
    ensures Covers(free, nodes)
    ensures Sum(free, nodes) == |nodes| + (if 0 in us then 5 else 0) + if 1 in us then 1 else 0
  {
    if nodes != [] {
      HeadTail(nodes);
      SumIs(free, nodes[1..], Elements(nodes[1..]));
    }
  }

  /** On the machine with one socket of five nodes it is so, whatever the balance score. */
  lemma WiderIsMissed(free: seq<nat>, score: Score)
    requires free == [6, 2, 1, 1, 1]
    ensures HasFree(Machine(1, |free|), Available(free), free) && Missed(Machine(1, |free|), Available(free), score)
  {
    assert free[0] == 6 && free[1] == 2 && free[2] == 1 && free[3] == 1 && free[4] == 1;
    MachineHasFree(free, 1, |free|);
    MissedOn(Machine(1, |free|), Available(free), score);
  }

  /** On any such machine the call falls back to packed allocation. */
  method FallsBack(t: CPUTopology, available: set<int>, strategy: string, score: Score) returns (r: Result)
    requires HasFree(t, available, [6, 2, 1, 1, 1]) && NonNegative(score)
    ensures r == Packed(t, available, 8, strategy, false)
    ensures r.Ok? && |r.cpus| == 8
  {
    MissedOn(t, available, score);
    ghost var choice;
    r, choice := TakeByTopologyNUMADistributed(t, available, 8, 2, strategy, score);
    NotOutcome(t, available, score, choice);
  }

  lemma NotOutcome(t: CPUTopology, available: set<int>, score: Score, choice: Choice)
    requires Missed(t, available, score) && Outcome(t, available, 8, 2, score, choice)
    ensures choice.NotFound?
  {
    if choice.Found? {
      NotChosen(FreeCounts(t, available), FreeNodes(t, available), score, choice);
    }
  }
}
