/** A request the distributed allocator never answers: fourteen CPUs, two at a time, from four
    NUMA nodes with two, five, five and five free CPUs. */
module HangingSearch {
  import opened Sorting
  import opened Topology
  import opened Combinations
  import opened Spreading
  import opened BalanceSearch
  import opened CandidateSizes
  import opened Distributed
  import opened PlainMachine

  lemma AllFour(free: NodeCounts, numas: seq<int>, given: seq<nat>)
    requires given == [2, 5, 5, 5] && CountsAre(free, numas, given)
    ensures Arranged(free, numas)
  {
    NoDupSize(numas);
    assert given[0] == 2 && given[1] == 5 && given[2] == 5 && given[3] == 5;
    FourNodes(Elements(numas));
    FourNodes(free.Keys);
    forall u | u in free ensures free[u] == if u == 0 then 2 else 5 {
      assert free[u] == given[u];
    }
  }

  lemma FourNodes(us: set<int>)
    requires forall u :: u in us <==> 0 <= u < 4
    ensures |us| == 4 && us == {0, 1, 2, 3}
  {
    forall u ensures u in us <==> u in {0, 1, 2, 3} {
      assert u in us <==> 0 <= u < 4;
    }
    assert us == {0, 1, 2, 3};
  }

  ghost predicate Arranged(free: NodeCounts, numas: seq<int>) {
    && free == map[0 := 2, 1 := 5, 2 := 5, 3 := 5]
    && |numas| == 4 && NoDup(numas) && Covers(free, numas) && forall i :: 0 <= i < 4 ==> 0 <= numas[i] < 4
  }

  /** Three nodes hold at most six of the seven groups. */
  lemma ThreeTooFew(free: NodeCounts, numas: seq<int>, score: Score)
    requires Arranged(free, numas)
    ensures NoCandidates(free, Combos(numas, 3), 14, 2, score)
  {
    forall combo, rem, bal | combo in Combos(numas, 3) ensures !Candidate(free, combo, 14, 2, score, rem, bal) {
      CombosElement(numas, 3, combo);
      SubsetCovered(free, numas, combo);
      GroupsBound(free, combo, 2, 2);
    }
  }

  /** All four together pass the checks. */
  lemma FourPass(free: NodeCounts, numas: seq<int>)
    requires Arranged(free, numas)
    ensures Passes(free, numas, 14, 2) && Share(14, 4, 2) == 2 && Rest(14, 4, 2) == 6 && Sum(free, numas) == 17
  {
    var a, b, c, e := numas[0], numas[1], numas[2], numas[3];
    assert numas == [a, b, c, e];
    FourSums(free, a, b, c, e);
    OnePoor(free, a, b, c, e);
  }

  /** Whatever their order, one of the nodes has two free CPUs and the other three have five. */
  lemma OnePoor(free: NodeCounts, a: int, b: int, c: int, e: int)
    requires free == map[0 := 2, 1 := 5, 2 := 5, 3 := 5] && {a, b, c, e} <= {0, 1, 2, 3}
    requires a != b && a != c && a != e && b != c && b != e && c != e
    ensures free[a] + free[b] + free[c] + free[e] == 17
    ensures free[a] / 2 + free[b] / 2 + free[c] / 2 + free[e] / 2 == 7
  {
  }

  lemma FourSums(free: NodeCounts, a: int, b: int, c: int, e: int)
    requires Covers(free, [a, b, c, e]) && a in free && b in free && c in free && e in free
    ensures Sum(free, [a, b, c, e]) == free[a] + free[b] + free[c] + free[e]
    ensures Groups(free, [a, b, c, e], 2) == free[a] / 2 + free[b] / 2 + free[c] / 2 + free[e] / 2
  {
    assert [a, b, c, e][1..] == [b, c, e] && [b, c, e][1..] == [c, e] && [c, e][1..] == [e] && [e][1..] == [];
    assert Sum(free, [e][1..]) == 0 && Groups(free, [e][1..], 2) == 0;
    assert Sum(free, [e]) == free[e] && Groups(free, [e], 2) == free[e] / 2;
    assert Sum(free, [c, e]) == free[c] + free[e] && Groups(free, [c, e], 2) == free[c] / 2 + free[e] / 2;
  }

  /** The first two nodes that still have a group have three CPUs each. */
  lemma TwoLeft(free: NodeCounts, numas: seq<int>)
    requires Arranged(free, numas)
    ensures var after := After(free, numas, 2); var rc := RemainderNodes(after, numas, 2);
      |rc| >= 2 && rc[0] in after && rc[1] in after && rc[0] != rc[1] && after[rc[0]] == 3 && after[rc[1]] == 3
  {
    var after := After(free, numas, 2);
    SharesTaken(free, numas);
    var rc := RemainderNodes(after, numas, 2);
    FourMembers(numas);
    RemainderComplete(after, numas, 2, 1);
    RemainderComplete(after, numas, 2, 2);
    var i := IndexOf(rc, 1);
    var j := IndexOf(rc, 2);
    assert i != j && rc[0] in after && rc[1] in after;
  }

  lemma SharesTaken(free: NodeCounts, numas: seq<int>)
    requires Arranged(free, numas)
    ensures After(free, numas, 2) == map[0 := 0, 1 := 3, 2 := 3, 3 := 3]
  {
    FourMembers(numas);
  }

  lemma FourMembers(numas: seq<int>)
    requires |numas| == 4 && NoDup(numas) && forall i :: 0 <= i < 4 ==> 0 <= numas[i] < 4
    ensures forall u :: u in numas <==> 0 <= u < 4
  {
    NoDupSize(numas);
    SubsetSize(Elements(numas), {0, 1, 2, 3});
    assert forall u :: u in numas <==> u in Elements(numas);
  }

  /** The callback for the four nodes tries to hand six CPUs out over two nodes with three
      each: the loop goes round for ever. */
  lemma FourHang(free: NodeCounts, numas: seq<int>)
    requires Arranged(free, numas)
    ensures !ComboEnds(free, numas, 14, 2)
    ensures var after := After(free, numas, 2); var rc := RemainderNodes(after, numas, 2);
      |rc| >= 2 && Gives(after, rc, 6, rc[..2]) && !LoopEnds(after, rc[..2], 6, 2)
  {
    FourPass(free, numas);
    TwoLeft(free, numas);
    var after := After(free, numas, 2);
    var rc := RemainderNodes(after, numas, 2);
    FirstCombo(rc, 2);
    assert rc[..2] == [rc[0], rc[1]];
    RemainderLoopCanHang(after, rc[0], rc[1]);
    assert Gives(after, rc, 6, rc[..2]) && !EnoughGroups(after, rc[..2], 6, 2);
  }

  lemma OnlyCombo(numas: seq<int>)
    requires |numas| == 4
    ensures forall i :: 0 <= i < |Combos(numas, 4)| ==> Combos(numas, 4)[i] == numas
    ensures |Combos(numas, 4)| > 0
  {
    FirstCombo(numas, 4);
    forall i | 0 <= i < |Combos(numas, 4)| ensures Combos(numas, 4)[i] == numas {
      var p := CombosAt(numas, 4, i);
      assert p[0] < p[1] < p[2] < p[3];
      assert Select(numas, p) == numas;
    }
  }

  /** Every combination of three nodes is passed over, the only one of four passes all checks,
      and of its remainder loops one does not end: the search is never over. */
  ghost predicate Hangs(t: CPUTopology, available: set<int>, score: Score) {
    && |t.cpuDetails.Keys * available| == 17
    && FreeCounts(t, available) == map[0 := 2, 1 := 5, 2 := 5, 3 := 5]
    && |t.cpuDetails.Keys| > 0 && |Units(t.cpuDetails, Numa)| > 0
    && NodesNeeded(|t.cpuDetails.Keys|, |Units(t.cpuDetails, Numa)|, |FreeNodes(t, available)|, 14, 2) == (3, 4)
    && NoCandidates(FreeCounts(t, available), Combos(FreeNodes(t, available), 3), 14, 2, score)
    && !ComboEnds(FreeCounts(t, available), FreeNodes(t, available), 14, 2)
    && !LoopsEnd(t, available, 14, 2, score)
  }

  lemma HangsOn(t: CPUTopology, available: set<int>, given: seq<nat>, score: Score)
    requires given == [2, 5, 5, 5] && HasFree(t, available, given)
    ensures Hangs(t, available, score)
  {
    var free, numas := FreeCounts(t, available), FreeNodes(t, available);
    AllFour(free, numas, given);
    FourPass(free, numas);
    NeverDone(free, numas, score);
    RangeIs();
  }

  /** On the machine with one socket of four nodes it does, whatever the balance score. */
  lemma SearchHangs(score: Score)
    ensures HasFree(Machine(1, 4), Available([2, 5, 5, 5]), [2, 5, 5, 5])
    ensures Hangs(Machine(1, 4), Available([2, 5, 5, 5]), score)
  {
    MachineHasFree([2, 5, 5, 5], 1, 4);
    HangsOn(Machine(1, 4), Available([2, 5, 5, 5]), [2, 5, 5, 5], score);
  }

  lemma RangeIs()
    ensures NodesNeeded(24, 4, 4, 14, 2) == (3, 4)
  {
  }

  lemma NeverDone(free: NodeCounts, numas: seq<int>, score: Score)
    requires Arranged(free, numas)
    ensures NoCandidates(free, Combos(numas, 3), 14, 2, score) && !ComboEnds(free, numas, 14, 2)
    ensures !SearchEnds(free, numas, 3, 4, 14, 2, score)
  {
    ThreeTooFew(free, numas, score);
    FourHang(free, numas);
    OnlyCombo(numas);
    assert NoZeroBefore(free, Combos(numas, 4), 0, 14, 2, score);
    assert !SizeEnds(free, Combos(numas, 4), 14, 2, score);
    assert NoneBetween(free, numas, 14, 2, score, 3, 4);
  }
}
