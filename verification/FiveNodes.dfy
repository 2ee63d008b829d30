/** With five free NUMA nodes a slice can lose its last node to the only one after it. That one
    has at least as many free CPUs, so the call never ends in the accounting error. */
module FiveNodes {
  import opened Sorting
  import opened Arith
  import opened Topology
  import opened UnitOrder
  import opened PackedModel
  import opened Combinations
  import opened Spreading
  import opened BalanceSearch
  import opened CarryingOut
  import opened Distributed
  import SharedSlices

  // ---- the last two nodes of the list

  lemma {:induction false} WithinLast(d: CPUDetails, parents: seq<int>, outer: Level, inner: Level)
    requires parents != []
    ensures SortWithin(d, parents, outer, inner)
      == SortWithin(d, parents[..|parents| - 1], outer, inner) + SortedIn(d, inner, outer, parents[|parents| - 1])
    decreases |parents|
  {
    var m := |parents| - 1;
    if m == 0 {
      assert parents[1..] == [] && parents[..m] == [];
    } else {
      WithinLast(d, parents[1..], outer, inner);
      assert parents[1..][..m - 1] == parents[..m][1..];
      AppendMoves(SortedIn(d, inner, outer, parents[0]), SortWithin(d, parents[..m][1..], outer, inner),
                  SortedIn(d, inner, outer, parents[m]));
    }
  }

  /** The only node of a socket has all of its CPUs. */
  lemma OnlyNode(d: CPUDetails, s: int, u: int)
    requires UnitsIn(d, Numa, Socket, s) == {u}
    ensures |Members(d, Numa, u)| >= |Members(d, Socket, s)|
  {
    forall c | c in Members(d, Socket, s) ensures c in Members(d, Numa, u) {
      assert UnitOf(d, Numa, c) in UnitsIn(d, Numa, Socket, s);
    }
    SubsetSize(Members(d, Socket, s), Members(d, Numa, u));
  }

  lemma NodeOfSocket(d: CPUDetails, s: int, u: int)
    requires Nested(d, Numa, Socket) && u in UnitsIn(d, Numa, Socket, s)
    ensures |Members(d, Numa, u)| <= |Members(d, Socket, s)|
  {
    SubsetSize(Members(d, Numa, u), Members(d, Socket, s));
  }

  ghost predicate LastNotLess(d: CPUDetails, nodes: seq<int>) {
    |nodes| >= 2 ==> |Members(d, Numa, nodes[|nodes| - 2])| <= |Members(d, Numa, nodes[|nodes| - 1])|
  }

  lemma SortedLast(d: CPUDetails, us: set<int>, nodes: seq<int>, before: seq<int>)
    requires us <= Units(d, Numa) && nodes == before + SortIds(Counts(d, Numa), us) && |us| >= 2
    ensures LastNotLess(d, nodes)
  {
    var w, r := Counts(d, Numa), SortIds(Counts(d, Numa), us);
    var u, v := r[|r| - 2], r[|r| - 1];
    assert nodes[|nodes| - 2] == u && nodes[|nodes| - 1] == v;
    assert u in us && v in us && Before(w, u, v);
  }

  lemma SocketNotEmpty(d: CPUDetails, s: int)
    requires s in Units(d, Socket)
    ensures SortedIn(d, Numa, Socket, s) != []
  {
    MembersNonEmpty(d, Socket, s);
    var c := Pick(Members(d, Socket, s));
    assert UnitOf(d, Numa, c) in UnitsIn(d, Numa, Socket, s);
  }

  ghost predicate Ascending(d: CPUDetails, sockets: seq<int>) {
    && (forall s :: s in sockets ==> s in Units(d, Socket))
    && forall i, j :: (0 <= i < j < |sockets| ==> |Members(d, Socket, sockets[i])| <= |Members(d, Socket, sockets[j])|)
  }

  lemma WithinLastTwo(d: CPUDetails, sockets: seq<int>, m: nat)
    requires |sockets| == m + 2
    ensures SortWithin(d, sockets, Socket, Numa)
      == (SortWithin(d, sockets[..m], Socket, Numa) + SortedIn(d, Numa, Socket, sockets[m]))
         + SortedIn(d, Numa, Socket, sockets[m + 1])
  {
    WithinLast(d, sockets, Socket, Numa);
    WithinLast(d, sockets[..m + 1], Socket, Numa);
    assert sockets[..m + 1][..m] == sockets[..m];
  }

  /** Socket by socket, the last node has at least the CPUs of the one before it. */
  lemma SocketsLast(d: CPUDetails, sockets: seq<int>)
    requires Nested(d, Numa, Socket) && Ascending(d, sockets)
    ensures LastNotLess(d, SortWithin(d, sockets, Socket, Numa))
  {
    if |sockets| == 1 {
      WithinLast(d, sockets, Socket, Numa);
      OneSocketLast(d, sockets[0]);
    } else if |sockets| >= 2 {
      var m := |sockets| - 2;
      WithinLastTwo(d, sockets, m);
      TwoSocketsLast(d, SortWithin(d, sockets[..m], Socket, Numa), sockets[m], sockets[m + 1]);
    }
  }

  lemma OneSocketLast(d: CPUDetails, s: int)
    ensures LastNotLess(d, [] + SortedIn(d, Numa, Socket, s))
  {
    if |UnitsIn(d, Numa, Socket, s)| >= 2 {
      SortedLast(d, UnitsIn(d, Numa, Socket, s), [] + SortedIn(d, Numa, Socket, s), []);
    }
  }

  lemma TwoSocketsLast(d: CPUDetails, first: seq<int>, p: int, s: int)
    requires Nested(d, Numa, Socket) && p in Units(d, Socket) && s in Units(d, Socket)
    requires |Members(d, Socket, p)| <= |Members(d, Socket, s)|
    ensures LastNotLess(d, (first + SortedIn(d, Numa, Socket, p)) + SortedIn(d, Numa, Socket, s))
  {
    var before := first + SortedIn(d, Numa, Socket, p);
    SocketNotEmpty(d, p);
    SocketNotEmpty(d, s);
    if |UnitsIn(d, Numa, Socket, s)| >= 2 {
      SortedLast(d, UnitsIn(d, Numa, Socket, s), before + SortedIn(d, Numa, Socket, s), before);
    } else {
      Alone(d, s, p, before, first);
    }
  }

  lemma Alone(d: CPUDetails, s: int, p: int, before: seq<int>, first: seq<int>)
    requires Nested(d, Numa, Socket) && |UnitsIn(d, Numa, Socket, s)| == 1
    requires |Members(d, Socket, p)| <= |Members(d, Socket, s)|
    requires before == first + SortedIn(d, Numa, Socket, p) && SortedIn(d, Numa, Socket, p) != []
    ensures LastNotLess(d, before + SortedIn(d, Numa, Socket, s))
  {
    var last, previous := SortedIn(d, Numa, Socket, s), SortedIn(d, Numa, Socket, p);
    var u, v := last[0], previous[|previous| - 1];
    assert u in last && v in previous;
    SubsetSize({u}, UnitsIn(d, Numa, Socket, s));
    OnlyNode(d, s, u);
    NodeOfSocket(d, p, v);
    var nodes := before + last;
    assert nodes[|nodes| - 1] == u && nodes[|nodes| - 2] == v;
  }

  lemma NodesLast(t: CPUTopology, available: set<int>)
    requires WellFormed(t)
    ensures LastNotLess(KeepOnly(t.cpuDetails, available), FreeNodes(t, available))
  {
    var d := KeepOnly(t.cpuDetails, available);
    if t.numSockets >= t.numNUMANodes {
      AllNodesLast(d);
    } else {
      KeepNested(t.cpuDetails, available, Numa, Socket);
      assert [Socket, Numa][..1] == [Socket];
      SocketsAscend(d);
      SocketsLast(d, SortAvailable(d, [Socket]));
    }
  }

  lemma AllNodesLast(d: CPUDetails)
    ensures LastNotLess(d, SortAvailable(d, [Numa]))
  {
    var us := Units(d, Numa);
    if |us| >= 2 {
      assert [] + SortIds(Counts(d, Numa), us) == SortIds(Counts(d, Numa), us);
      SortedLast(d, us, SortIds(Counts(d, Numa), us), []);
    }
  }

  lemma SocketsAscend(d: CPUDetails)
    ensures Ascending(d, SortAvailable(d, [Socket]))
  {
    var sockets := SortIds(Counts(d, Socket), Units(d, Socket));
    forall i, j | 0 <= i < j < |sockets|
      ensures |Members(d, Socket, sockets[i])| <= |Members(d, Socket, sockets[j])|
    {
      assert Before(Counts(d, Socket), sockets[i], sockets[j]);
      assert sockets[i] in sockets && sockets[j] in sockets;
    }
  }

  // ---- what slices of five nodes hold

  /** Of four positions below five, only the last can be changed, from the fourth to the fifth. */
  lemma OneLater(p: seq<nat>, q: seq<nat>)
    requires |p| == |q| == 4 && Increasing(p, 0, 5) && Increasing(q, 0, 5) && p[..3] == q[..3] && LexLess(p, q)
    ensures p[3] == 3 && q[3] == 4
  {
    assert forall i :: 0 <= i < 3 ==> p[..3][i] == p[i] && q[..3][i] == q[i];
    assert p[0] < p[1] < p[2] < p[3];
    var k :| 0 <= k < |p| && k < |q| && p[..k] == q[..k] && p[k] < q[k];
  }

  lemma FourOfFive(nodes: seq<int>, k: nat, j: nat, v: nat)
    requires |nodes| == 5 && k == 4 && j < v <= |Combos(nodes, k)|
    ensures var saved, held := Combos(nodes, k)[j], SharedSlices.Held(nodes, k, j, v);
      && |held| == |saved| == 4 && (forall x :: 0 <= x < 3 ==> held[x] == saved[x])
      && (held[3] == saved[3] || (saved[3] == nodes[3] && held[3] == nodes[4]))
  {
    CombosExact(nodes, k);
    SharedSlices.SmallLengths();
    var ps := Positions(|nodes|, k, 0);
    var i := SharedSlices.LastIndex(ps, 3, j, v);
    assert forall x :: 0 <= x < 3 ==> ps[i][..3][x] == ps[i][x] && ps[j][..3][x] == ps[j][x];
    if j < i {
      assert LexLess(ps[j], ps[i]);
      OneLater(ps[j], ps[i]);
    }
  }

  /** The second list covers the first, node by node. */
  ghost predicate NoPoorer(counts: NodeCounts, a: seq<int>, b: seq<int>) {
    |a| == |b| && Covers(counts, a) && Covers(counts, b) && forall i :: 0 <= i < |a| ==> counts[a[i]] <= counts[b[i]]
  }

  /** Of at most five nodes, the last not poorer than the one before it, what a slice holds is
      nowhere poorer than what was saved. */
  lemma HeldNoPoorer(counts: NodeCounts, nodes: seq<int>, saved: seq<int>, breaks: bool, held: seq<int>)
    requires |nodes| <= 5 && Covers(counts, nodes) && (|nodes| == 5 ==> counts[nodes[3]] <= counts[nodes[4]])
    requires HeldAfter(nodes, saved, breaks, held)
    ensures NoPoorer(counts, saved, held)
  {
    HeldIsSet(nodes, saved, breaks, held);
    HeldNodes(counts, nodes, saved, held);
    if |saved| == 4 && |nodes| == 5 {
      HeldOfFive(nodes, saved, breaks, held);
    } else {
      HeldUnchanged(nodes, saved, breaks, held);
    }
  }

  lemma HeldNodes(counts: NodeCounts, nodes: seq<int>, saved: seq<int>, held: seq<int>)
    requires Covers(counts, nodes) && saved in Combos(nodes, |saved|) && held in Combos(nodes, |saved|)
    ensures Covers(counts, saved) && Covers(counts, held) && |saved| <= |nodes|
  {
    CombosElement(nodes, |saved|, saved);
    CombosElement(nodes, |saved|, held);
    SubsetCovered(counts, nodes, saved);
    SubsetCovered(counts, nodes, held);
  }

  lemma HeldOfFive(nodes: seq<int>, saved: seq<int>, breaks: bool, held: seq<int>)
    requires HeldAfter(nodes, saved, breaks, held) && |saved| == 4 && |nodes| == 5
    ensures |held| == 4 && (forall x :: 0 <= x < 3 ==> held[x] == saved[x])
    ensures held[3] == saved[3] || (saved[3] == nodes[3] && held[3] == nodes[4])
  {
    var j: nat, v: nat :| j < v <= |Combos(nodes, |saved|)| && Combos(nodes, |saved|)[j] == saved
      && held == SharedSlices.Held(nodes, |saved|, j, v);
    FourOfFive(nodes, |saved|, j, v);
  }

  lemma {:induction false} RicherGroups(counts: NodeCounts, a: seq<int>, b: seq<int>, g: int)
    requires g > 0 && NoPoorer(counts, a, b)
    ensures Groups(counts, a, g) <= Groups(counts, b, g)
  {
    if a != [] {
      DivMonotone(counts[a[0]], counts[b[0]], g);
      RicherGroups(counts, a[1..], b[1..], g);
    }
  }

  lemma {:induction false} MoreGroups(less: NodeCounts, more: NodeCounts, nodes: seq<int>, g: int)
    requires g > 0 && Covers(less, nodes) && Covers(more, nodes)
    requires forall i :: 0 <= i < |nodes| ==> less[nodes[i]] <= more[nodes[i]]
    ensures Groups(less, nodes, g) <= Groups(more, nodes, g)
  {
    if nodes != [] {
      DivMonotone(less[nodes[0]], more[nodes[0]], g);
      MoreGroups(less, more, nodes[1..], g);
    }
  }

  // ---- the plan

  /** At most five free nodes, the last not poorer than the one before it. */
  ghost predicate UpToFive(free: NodeCounts, numas: seq<int>) {
    |numas| <= 5 && NoDup(numas) && Covers(free, numas) && (|numas| == 5 ==> free[numas[3]] <= free[numas[4]])
  }

  lemma SharesThere(free: NodeCounts, numas: seq<int>, n: int, g: int, score: Score, choice: Choice)
    requires UpToFive(free, numas) && PlanFound(free, n, g, score, choice) && Holds(free, numas, n, g, choice)
    ensures AllGive(free, choice.held, Share(n, |choice.combo|, g))
  {
    HeldNoPoorer(free, numas, choice.combo, choice.balance == 0.0, choice.held);
  }

  /** When all of five nodes can give to the remainder they are all in the plan. */
  lemma {:induction false} AllRemain(after: NodeCounts, combo: seq<int>, g: int)
    requires Covers(after, combo) && |RemainderNodes(after, combo, g)| == |combo|
    ensures RemainderNodes(after, combo, g) == combo
  {
    if combo != [] {
      assert forall i :: 0 < i < |combo| ==> combo[1..][i - 1] == combo[i];
      AllRemain(after, combo[1..], g);
    }
  }

  lemma AllFive(numas: seq<int>, combo: seq<int>)
    requires combo in Combos(numas, |numas|)
    ensures combo == numas
  {
    var j := IndexOf(Combos(numas, |numas|), combo);
    var p := CombosAt(numas, |numas|, j);
    forall x | 0 <= x < |p| ensures p[x] == x {
      SharedSlices.PositionBounds(|numas|, p, 0, x);
    }
  }

  /** The nodes that give to the remainder are those the plan chose, or richer ones. */
  lemma GiversNoPoorer(free: NodeCounts, numas: seq<int>, combo: seq<int>, share: int, g: int, rem: seq<int>,
                       held: seq<int>)
    requires UpToFive(free, numas) && combo in Combos(numas, |combo|)
    requires Covers(After(free, combo, share), combo)
    requires HeldAfter(RemainderNodes(After(free, combo, share), combo, g), rem, false, held)
    ensures NoPoorer(After(free, combo, share), rem, held) && (|combo| <= 4 ==> held == rem)
  {
    var after := After(free, combo, share);
    var rc := RemainderNodes(after, combo, g);
    CombosElement(numas, |combo|, combo);
    if |rc| == 5 {
      AllRemain(after, combo, g);
      AllFive(numas, combo);
    } else {
      FewIntact(rc, rem, held);
    }
    HeldNoPoorer(after, rc, rem, false, held);
  }

  /** A node that has not given its share has all the more for the remainder. */
  lemma GivenNoLess(free: NodeCounts, combo: seq<int>, held: seq<int>, share: int, nodes: seq<int>)
    requires share >= 0 && Covers(After(free, combo, share), nodes) && forall u :: u in nodes ==> u in combo
    ensures Covers(Given(free, held, share), nodes)
    ensures forall i :: 0 <= i < |nodes| ==> After(free, combo, share)[nodes[i]] <= Given(free, held, share)[nodes[i]]
  {
    forall i | 0 <= i < |nodes| ensures After(free, combo, share)[nodes[i]] <= Given(free, held, share)[nodes[i]] {
      var u := nodes[i];
      assert u in nodes && u in free;
    }
  }

  /** What remains can be handed out by the nodes the second slice holds. */
  lemma RestGiven(free: NodeCounts, numas: seq<int>, combo: seq<int>, held: seq<int>, share: int, r: int, g: int,
                  rem: seq<int>, heldRem: seq<int>)
    requires UpToFive(free, numas) && combo in Combos(numas, |combo|) && share >= 0
    requires Covers(After(free, combo, share), combo) && CanGive(After(free, combo, share), rem, r, g)
    requires HeldAfter(RemainderNodes(After(free, combo, share), combo, g), rem, false, heldRem)
    ensures CanGive(Given(free, held, share), heldRem, r, g)
  {
    var after := After(free, combo, share);
    GiversNoPoorer(free, numas, combo, share, g, rem, heldRem);
    FromCombo(numas, after, combo, g, rem, heldRem);
    GivenNoLess(free, combo, held, share, heldRem);
    RestThere(after, Given(free, held, share), rem, heldRem, r, g);
  }

  lemma RestThere(after: NodeCounts, given: NodeCounts, rem: seq<int>, held: seq<int>, r: int, g: int)
    requires CanGive(after, rem, r, g) && NoPoorer(after, rem, held) && NoDup(held) && Covers(given, held)
    requires forall i :: 0 <= i < |held| ==> after[held[i]] <= given[held[i]]
    ensures CanGive(given, held, r, g)
  {
    RicherGroups(after, rem, held, g);
    MoreGroups(after, given, held, g);
    MulMonotone(g, Groups(after, rem, g), Groups(given, held, g));
  }

  lemma FromCombo(numas: seq<int>, after: NodeCounts, combo: seq<int>, g: int, rem: seq<int>, held: seq<int>)
    requires NoDup(numas) && combo in Combos(numas, |combo|) && Covers(after, combo)
    requires HeldAfter(RemainderNodes(after, combo, g), rem, false, held)
    ensures NoDup(held) && forall u :: u in held ==> u in combo
  {
    var rc := RemainderNodes(after, combo, g);
    CombosElement(numas, |combo|, combo);
    HeldIsSet(rc, rem, false, held);
    CombosElement(rc, |rem|, held);
    forall u | u in held ensures u in combo {
      var i := IndexOf(held, u);
      var j := IndexOf(rc, held[i]);
    }
  }

  lemma PlanEnds(free: NodeCounts, numas: seq<int>, n: int, g: int, score: Score, choice: Choice)
    requires UpToFive(free, numas) && g > 0 && n >= 1 && n % g == 0
    requires PlanFound(free, n, g, score, choice) && choice.combo in Combos(numas, |choice.combo|)
    requires Holds(free, numas, n, g, choice)
    ensures LastLoopEnds(free, n, g, choice)
  {
    var combo := choice.combo;
    var share, r := Share(n, |combo|, g), Rest(n, |combo|, g);
    ShareFacts(n, |combo|, g);
    RemainderFacts(n, |combo|, g);
    SameCover(free, combo, share);
    PlanIsFeasible(free, combo, n, g, score, choice.remainder, choice.balance);
    if r > 0 {
      RestGiven(free, numas, combo, choice.held, share, r, g, choice.remainder, choice.heldRemainder);
    }
  }

  lemma FreeUpToFive(t: CPUTopology, available: set<int>)
    requires WellFormed(t) && |FreeNodes(t, available)| <= 5
    ensures UpToFive(FreeCounts(t, available), FreeNodes(t, available))
  {
    NodesCovered(t, available);
    NodesLast(t, available);
  }

  /** With at most five free NUMA nodes the last loop of the call ends, ... */
  lemma FivePlansEnd(t: CPUTopology, available: set<int>, n: int, g: int, score: Score)
    requires WellFormed(t) && g > 0 && n >= 1 && n % g == 0 && |FreeNodes(t, available)| <= 5
    ensures LastEnds(t, available, n, g, score)
  {
    FreeUpToFive(t, available);
    forall choice: Choice | choice.Found? && Outcome(t, available, n, g, score, choice)
      ensures LastLoopEnds(FreeCounts(t, available), n, g, choice)
    {
      PlanEnds(FreeCounts(t, available), FreeNodes(t, available), n, g, score, choice);
    }
  }

  /** ... and it succeeds with just the CPUs asked for, whether or not a slice lost a node. */
  lemma FiveServed(t: CPUTopology, available: set<int>, n: int, g: int, score: Score, choice: Choice, r: Result)
    requires WellFormed(t) && g > 0 && n >= 1 && n % g == 0 && |FreeNodes(t, available)| <= 5
    requires choice.Found? && Outcome(t, available, n, g, score, choice) && CarriedOut(t, available, n, g, choice, r)
    ensures Served(t, available, n, r)
  {
    FreeUpToFive(t, available);
    SharesThere(FreeCounts(t, available), FreeNodes(t, available), n, g, score, choice);
  }
}
