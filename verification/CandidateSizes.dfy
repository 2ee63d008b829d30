/** Which sizes of combinations can share a request: as few as one node, never more than there
    are groups unless some nodes hold none. */
module CandidateSizes {
  import opened Sorting
  import opened Arith
  import opened Combinations
  import opened Spreading
  import opened BalanceSearch

  function CeilDiv(a: int, b: int): int
    requires b > 0
  {
    (a - 1) / b + 1
  }

  lemma CeilDivBound(a: int, b: int)
    requires a >= 1 && b > 0
    ensures CeilDiv(a, b) >= 1 && b * CeilDiv(a, b) >= a && b * (CeilDiv(a, b) - 1) < a
  {
    var q := (a - 1) / b;
    assert a - 1 == b * q + (a - 1) % b;
    assert b * (q + 1) == b * q + b;
  }

  ghost predicate HasCandidate(free: NodeCounts, numas: seq<int>, n: int, g: int, score: Score, m: nat) {
    exists combo, rem, bal :: combo in Combos(numas, m) && Candidate(free, combo, n, g, score, rem, bal)
  }

  /** As many nodes as there are groups needed can always share the request, one group each,
      so nothing above the upper end of the range need be tried. */
  lemma OneGroupEach(free: NodeCounts, numas: seq<int>, n: int, g: int, score: Score)
    requires g > 0 && n >= 1 && n % g == 0 && CeilDiv(n, g) <= |numas|
    requires NoDup(numas) && Covers(free, numas) && WholeGroups(free, g)
    requires forall i :: 0 <= i < |numas| ==> free[numas[i]] > 0
    ensures CeilDiv(n, g) >= 0 && HasCandidate(free, numas, n, g, score, CeilDiv(n, g))
  {
    var m := n / g;
    OneGroupShares(n, g);
    var combo := numas[..m];
    FirstCombo(numas, m);
    forall i | 0 <= i < m ensures free[combo[i]] >= g && free[combo[i]] / g >= 1 {
      PositiveMultiple(free[numas[i]], g);
    }
    GroupsAtLeast(free, combo, g);
    MulMonotone(g, m, Groups(free, combo, g));
    WholeGroupsSum(free, combo, g);
    assert Passes(free, combo, n, g);
    var after := After(free, combo, g);
    assert Candidate(free, combo, n, g, score, [], score(after));
  }

  lemma OneGroupShares(n: int, g: int)
    requires g > 0 && n >= 1 && n % g == 0
    ensures var m := n / g; m >= 1 && n == g * m && CeilDiv(n, g) == m && Share(n, m, g) == g
  {
    var m := n / g;
    PositiveMultiple(n, g);
    assert n - 1 == g * (m - 1) + (g - 1);
    DivModUnique(g, m - 1, g - 1);
    assert n == m * g + 0;
    DivModUnique(m, g, 0);
    DivModUnique(g, 1, 0);
  }

  lemma FirstCombo(numas: seq<int>, m: nat)
    requires m <= |numas|
    ensures numas[..m] in Combos(numas, m)
  {
    var p: seq<nat> := seq(m, i => i);
    ChosenCombo(numas, p);
    assert Select(numas, p) == numas[..m];
  }

  lemma ChosenCombo(numas: seq<int>, p: seq<nat>)
    requires Increasing(p, 0, |numas|)
    ensures Select(numas, p) in Combos(numas, |p|)
  {
    CombosExact(numas, |p|);
    var ps := Positions(|numas|, |p|, 0);
    var j := IndexOf(ps, p);
    assert Combos(numas, |p|)[j] == Select(numas, p);
  }

  lemma OneNodeCandidate(free: NodeCounts, numas: seq<int>, n: int, g: int, score: Score, node: int)
    requires g > 0 && n >= 1 && n % g == 0 && node in numas && node in free && free[node] >= n
    ensures [node] in Combos(numas, 1)
    ensures Candidate(free, [node], n, g, score, [], score(After(free, [node], n)))
  {
    var i := IndexOf(numas, node);
    SingleCombo(numas, i);
    PositiveMultiple(n, g);
    DivMonotone(n, free[node], g);
    MulMonotone(g, n / g, free[node] / g);
    assert [node][1..] == [];
    assert Share(n, 1, g) == n;
    assert Passes(free, [node], n, g);
  }

  lemma SingleCombo(numas: seq<int>, i: nat)
    requires i < |numas|
    ensures [numas[i]] in Combos(numas, 1)
  {
    ChosenCombo(numas, [i]);
    assert Select(numas, [i]) == [numas[i]];
  }

  lemma {:induction false} GroupsBound(free: NodeCounts, combo: seq<int>, g: int, p: int)
    requires g > 0 && Covers(free, combo)
    requires forall i :: 0 <= i < |combo| ==> free[combo[i]] / g <= p
    ensures Groups(free, combo, g) <= |combo| * p
  {
    if combo == [] {
    } else {
      GroupsBound(free, combo[1..], g, p);
      assert (|combo| - 1) * p + p == |combo| * p;
    }
  }

  // ---- more nodes than groups

  /** More free nodes than groups asked for, and all of them together have the groups. */
  ghost predicate Wider(free: NodeCounts, numas: seq<int>, n: int, g: int) {
    g > 0 && n / g < |numas| && EnoughGroups(free, numas, n, g)
  }

  ghost predicate Listing(free: NodeCounts, numas: seq<int>) {
    NoDup(numas) && Covers(free, numas) && forall i :: 0 <= i < |numas| ==> free[numas[i]] >= 0
  }

  lemma {:induction false} GroupsWithout(free: NodeCounts, nodes: seq<int>, i: nat, g: int)
    requires g > 0 && Covers(free, nodes) && i < |nodes|
    ensures Covers(free, nodes[..i] + nodes[i + 1..])
    ensures Groups(free, nodes, g) == free[nodes[i]] / g + Groups(free, nodes[..i] + nodes[i + 1..], g)
  {
    var rest := nodes[..i] + nodes[i + 1..];
    if i == 0 {
      assert rest == nodes[1..];
    } else {
      GroupsWithout(free, nodes[1..], i - 1, g);
      assert rest[1..] == nodes[1..][..i - 1] + nodes[1..][i..];
    }
  }

  /** Some of the nodes hold at most the groups of all of them. */
  lemma {:induction false} GroupsOfPart(free: NodeCounts, part: seq<int>, nodes: seq<int>, g: int)
    requires g > 0 && Listing(free, nodes) && NoDup(part) && forall u :: u in part ==> u in nodes
    ensures Covers(free, part) && Groups(free, part, g) <= Groups(free, nodes, g)
    decreases |part|
  {
    if part == [] {
      GroupsNonNegative(free, nodes, g);
    } else {
      var i := IndexOf(nodes, part[0]);
      var rest := nodes[..i] + nodes[i + 1..];
      TailNoDup(part);
      forall u | u in part[1..] ensures u in rest {
        var j := IndexOf(nodes, u);
        assert rest[if j < i then j else j - 1] == u;
      }
      GroupsWithout(free, nodes, i, g);
      GroupsOfPart(free, part[1..], rest, g);
    }
  }

  /** The nodes with a group have all the groups. */
  lemma {:induction false} RemainderGroups(free: NodeCounts, combo: seq<int>, g: int)
    requires g > 0 && Covers(free, combo) && forall i :: 0 <= i < |combo| ==> free[combo[i]] >= 0
    ensures Groups(free, RemainderNodes(free, combo, g), g) == Groups(free, combo, g)
  {
    if combo != [] {
      assert forall i :: 0 < i < |combo| ==> combo[1..][i - 1] == combo[i];
      RemainderGroups(free, combo[1..], g);
      var rest := RemainderNodes(free, combo[1..], g);
      assert ([combo[0]] + rest)[1..] == rest;
      if free[combo[0]] < g {
        DivUnique(g, 0, free[combo[0]]);
      }
    }
  }

  lemma {:induction false} SumOfGroups(free: NodeCounts, nodes: seq<int>, g: int)
    requires g > 0 && Covers(free, nodes)
    ensures Sum(free, nodes) >= Groups(free, nodes, g) * g
  {
    if nodes != [] {
      SumOfGroups(free, nodes[1..], g);
      var x := free[nodes[0]];
      assert x >= (x / g) * g;
      assert (x / g + Groups(free, nodes[1..], g)) * g == (x / g) * g + Groups(free, nodes[1..], g) * g;
    }
  }

  /** On more nodes than groups the even share is nothing, and everything remains. */
  lemma NoShare(n: int, k: int, g: int)
    requires g > 0 && 1 <= n && n / g < k
    ensures Share(n, k, g) == 0 && Rest(n, k, g) == n
  {
    DivDiv(n, k, g);
    DivDiv(n, g, k);
    assert k * g == g * k;
    DivUnique(k, 0, n / g) by {
      DivMonotone(0, n, g);
    }
  }

  /** All the nodes together qualify when they are more than the groups and have the groups. */
  lemma AllQualify(free: NodeCounts, numas: seq<int>, n: int, g: int, score: Score)
    requires n >= 1 && Listing(free, numas) && Wider(free, numas, n, g)
    ensures HasCandidate(free, numas, n, g, score, |numas|)
  {
    NoShare(n, |numas|, g);
    SumOfGroups(free, numas, g);
    FirstCombo(numas, |numas|);
    assert numas[..|numas|] == numas;
    assert After(free, numas, 0) == free;
    var rc := RemainderNodes(free, numas, g);
    RemainderGroups(free, numas, g);
    SumOfGroups(free, rc, g);
    FirstCombo(rc, |rc|);
    assert rc[..|rc|] == rc;
    assert rc != [];
    assert Candidate(free, numas, n, g, score, rc, score(Spread(free, rc, n, g)));
  }

  lemma CandidateGroups(free: NodeCounts, numas: seq<int>, n: int, g: int, score: Score, k: nat)
    requires g > 0 && Listing(free, numas) && HasCandidate(free, numas, n, g, score, k)
    ensures k <= |numas| && EnoughGroups(free, numas, n, g)
  {
    var combo, rem, bal :| combo in Combos(numas, k) && Candidate(free, combo, n, g, score, rem, bal);
    CombosElement(numas, k, combo);
    forall u | u in combo ensures u in numas {
      var i := IndexOf(combo, u);
    }
    GroupsOfPart(free, combo, numas, g);
    MulMonotone(g, Groups(free, combo, g), Groups(free, numas, g));
  }

  /** Some combination of more nodes than groups asked for qualifies if and only if there are
      more free nodes than that and all of them together have the groups. */
  lemma WiderIff(free: NodeCounts, numas: seq<int>, n: int, g: int, score: Score)
    requires g > 0 && n >= 1 && Listing(free, numas)
    ensures (exists k: nat :: k > n / g && HasCandidate(free, numas, n, g, score, k)) <==> Wider(free, numas, n, g)
  {
    if Wider(free, numas, n, g) {
      AllQualify(free, numas, n, g, score);
    }
    forall k: nat | k > n / g && HasCandidate(free, numas, n, g, score, k) ensures Wider(free, numas, n, g) {
      CandidateGroups(free, numas, n, g, score, k);
    }
  }

  // ---- at most three groups

  /** Positions in the tail of a list, as positions in the list. */
  lemma Moved(numas: seq<int>, q: seq<nat>) returns (p: seq<nat>)
    requires numas != [] && Increasing(q, 0, |numas| - 1)
    ensures Increasing(p, 1, |numas|) && Select(numas, p) == Select(numas[1..], q)
  {
    p := seq(|q|, i requires 0 <= i < |q| => q[i] + 1);
  }

  /** The nodes with a group are some of the nodes, in their order. */
  lemma {:induction false} GroupPositions(free: NodeCounts, numas: seq<int>, g: int) returns (p: seq<nat>)
    requires Covers(free, numas)
    ensures Increasing(p, 0, |numas|) && Select(numas, p) == RemainderNodes(free, numas, g)
  {
    if numas == [] {
      p := [];
    } else {
      var tail := numas[1..];
      assert forall i :: 0 < i < |numas| ==> tail[i - 1] == numas[i];
      var q := GroupPositions(free, tail, g);
      var moved := Moved(numas, q);
      if free[numas[0]] >= g {
        p := [0] + moved;
        PrependIncreasing(moved, 0, |numas|);
        assert Select(numas, p) == [numas[0]] + Select(numas, moved);
      } else {
        p := moved;
      }
    }
  }

  lemma GroupNodesCombo(free: NodeCounts, numas: seq<int>, g: int, m: nat)
    requires Covers(free, numas) && m <= |RemainderNodes(free, numas, g)|
    ensures RemainderNodes(free, numas, g)[..m] in Combos(numas, m)
  {
    var rc := RemainderNodes(free, numas, g);
    var p := GroupPositions(free, numas, g);
    assert Increasing(p[..m], 0, |numas|);
    ChosenCombo(numas, p[..m]);
    assert Select(numas, p[..m]) == rc[..m];
  }

  lemma EachPasses(free: NodeCounts, combo: seq<int>, n: int, g: int)
    requires g > 0 && n == g * |combo| && combo != [] && Covers(free, combo) && Share(n, |combo|, g) == g
    requires forall i :: 0 <= i < |combo| ==> free[combo[i]] >= g
    ensures Passes(free, combo, n, g)
  {
    forall i | 0 <= i < |combo| ensures free[combo[i]] / g >= 1 {
      DivMonotone(g, free[combo[i]], g);
      DivModUnique(g, 1, 0);
    }
    GroupsAtLeast(free, combo, g);
    MulMonotone(g, |combo|, Groups(free, combo, g));
    SumOfGroups(free, combo, g);
  }

  /** As many nodes with a group as groups are asked for share the request, one group each. */
  lemma EachGives(free: NodeCounts, numas: seq<int>, n: int, g: int, score: Score)
    requires g > 0 && n >= 1 && n % g == 0 && Listing(free, numas) && n / g <= |RemainderNodes(free, numas, g)|
    ensures n / g >= 1 && HasCandidate(free, numas, n, g, score, n / g)
  {
    OneGroupShares(n, g);
    GroupNodesCombo(free, numas, g, n / g);
    var combo := RemainderNodes(free, numas, g)[..n / g];
    ComboGives(free, numas, combo, n, g, score);
  }

  lemma ComboGives(free: NodeCounts, numas: seq<int>, combo: seq<int>, n: int, g: int, score: Score)
    requires g > 0 && n == g * |combo| && combo != [] && Covers(free, combo) && Share(n, |combo|, g) == g
    requires combo in Combos(numas, |combo|) && forall i :: 0 <= i < |combo| ==> free[combo[i]] >= g
    ensures HasCandidate(free, numas, n, g, score, |combo|)
  {
    EachPasses(free, combo, n, g);
    assert Candidate(free, combo, n, g, score, [], score(After(free, combo, g)));
  }

  /** A node with all the groups shares the request with nobody. */
  lemma OneGives(free: NodeCounts, numas: seq<int>, n: int, g: int, score: Score, i: nat)
    requires g > 0 && n >= 1 && n % g == 0 && Covers(free, numas) && i < |numas| && free[numas[i]] / g >= n / g
    ensures HasCandidate(free, numas, n, g, score, 1)
  {
    MulMonotone(g, n / g, free[numas[i]] / g);
    OneNodeCandidate(free, numas, n, g, score, numas[i]);
  }

  lemma ThreeOverTwo(g: int)
    requires g > 0
    ensures Share(3 * g, 2, g) == g && Rest(3 * g, 2, g) == g
  {
    DivDiv(3 * g, 2, g);
    assert 2 * g == g * 2;
    DivDiv(3 * g, g, 2);
    DivModUnique(g, 3, 0);
  }

  lemma TwoPass(free: NodeCounts, combo: seq<int>, g: int)
    requires g > 0 && Covers(free, combo) && |combo| == 2 && Groups(free, combo, g) >= 3
    requires forall i :: 0 <= i < 2 ==> free[combo[i]] >= g
    ensures Passes(free, combo, 3 * g, g) && Share(3 * g, 2, g) == g && Rest(3 * g, 2, g) == g
  {
    ThreeOverTwo(g);
    SumOfGroups(free, combo, g);
    MulMonotone(g, 3, Groups(free, combo, g));
  }

  /** A node with a second group can give the one that remains. */
  lemma OneLeft(free: NodeCounts, combo: seq<int>, g: int, u: int)
    requires g > 0 && Covers(free, combo) && NoDup(combo) && u in combo && free[u] / g >= 2
    ensures var after := After(free, combo, g); Gives(after, RemainderNodes(after, combo, g), g, [u])
  {
    var after := After(free, combo, g);
    SameCover(free, combo, g);
    MulMonotone(g, 2, free[u] / g);
    RemainderComplete(after, combo, g, u);
    var left := RemainderNodes(after, combo, g);
    var i := IndexOf(left, u);
    SingleCombo(left, i);
    assert [u][1..] == [];
  }

  /** Three groups on two nodes: both give one, and the one with two gives another. */
  lemma TwoGive(free: NodeCounts, numas: seq<int>, g: int, score: Score, u: int)
    requires g > 0 && Listing(free, numas)
    requires var rc := RemainderNodes(free, numas, g); |rc| == 2 && u in rc && Groups(free, rc, g) >= 3 && free[u] / g >= 2
    ensures HasCandidate(free, numas, 3 * g, g, score, 2)
  {
    var combo := RemainderNodes(free, numas, g);
    GroupNodesCombo(free, numas, g, 2);
    assert combo[..2] == combo;
    TwoPass(free, combo, g);
    OneLeft(free, combo, g, u);
    assert Candidate(free, combo, 3 * g, g, score, [u], score(Spread(After(free, combo, g), [u], g, g)));
  }

  lemma TwoNodesThreeGroups(free: NodeCounts, numas: seq<int>, n: int, g: int, score: Score)
    requires g > 0 && n == 3 * g && Listing(free, numas)
    requires var rc := RemainderNodes(free, numas, g);
      |rc| < 3 && Groups(free, rc, g) >= 3 && forall i :: 0 <= i < |rc| ==> free[rc[i]] / g < 3
    ensures HasCandidate(free, numas, n, g, score, 2)
  {
    var rc := RemainderNodes(free, numas, g);
    GroupsBound(free, rc, g, 2);
    assert |rc| == 2;
    assert rc[1..] == [rc[1]] && [rc[1]][1..] == [];
    assert Groups(free, rc, g) == free[rc[0]] / g + Groups(free, rc[1..], g);
    assert Groups(free, [rc[1]], g) == free[rc[1]] / g + Groups(free, [rc[1]][1..], g);
    TwoGive(free, numas, g, score, if free[rc[0]] / g >= 2 then rc[0] else rc[1]);
  }

  datatype Way = Alone(i: nat) | OneEach | TwoNodes

  /** Of at most three groups all are on one node, or one each on as many nodes, or three on
      two nodes. */
  lemma WayToShare(free: NodeCounts, rc: seq<int>, m: int, g: int) returns (w: Way)
    requires g > 0 && Covers(free, rc) && 1 <= m <= 3 && Groups(free, rc, g) >= m
    ensures match w
      case Alone(i) => i < |rc| && free[rc[i]] / g >= m
      case OneEach => m <= |rc|
      case TwoNodes => m == 3 && |rc| < 3 && forall i :: 0 <= i < |rc| ==> free[rc[i]] / g < 3
  {
    if i :| 0 <= i < |rc| && free[rc[i]] / g >= m {
      return Alone(i);
    }
    if m <= |rc| {
      return OneEach;
    }
    GroupsBound(free, rc, g, m - 1);
    return TwoNodes;
  }

  /** A combination of at most m nodes shares the request. */
  ghost predicate SharedUpTo(free: NodeCounts, numas: seq<int>, n: int, g: int, score: Score, m: int) {
    exists k: nat :: 1 <= k <= m && HasCandidate(free, numas, n, g, score, k)
  }

  lemma OneNodeEnough(free: NodeCounts, numas: seq<int>, n: int, g: int, score: Score, m: nat, u: int)
    requires g > 0 && m >= 1 && n == g * m && Covers(free, numas) && u in numas && u in free && free[u] / g >= m
    ensures SharedUpTo(free, numas, n, g, score, m)
  {
    DivModUnique(g, m, 0);
    MulMonotone(g, 1, m);
    var i := IndexOf(numas, u);
    OneGives(free, numas, n, g, score, i);
  }

  lemma OneEachEnough(free: NodeCounts, numas: seq<int>, n: int, g: int, score: Score, m: nat)
    requires g > 0 && m >= 1 && n == g * m && Listing(free, numas) && m <= |RemainderNodes(free, numas, g)|
    ensures SharedUpTo(free, numas, n, g, score, m)
  {
    DivModUnique(g, m, 0);
    MulMonotone(g, 1, m);
    EachGives(free, numas, n, g, score);
    UpTo(free, numas, n, g, score, m, m);
  }

  lemma UpTo(free: NodeCounts, numas: seq<int>, n: int, g: int, score: Score, m: nat, k: nat)
    requires 1 <= k <= m && HasCandidate(free, numas, n, g, score, k)
    ensures SharedUpTo(free, numas, n, g, score, m)
  {
  }

  lemma TwoNodesEnough(free: NodeCounts, numas: seq<int>, rc: seq<int>, n: int, g: int, score: Score, m: nat)
    requires g > 0 && m == 3 && n == g * m && Listing(free, numas)
    requires rc == RemainderNodes(free, numas, g) && |rc| < 3 && Groups(free, rc, g) >= m
    requires forall i :: 0 <= i < |rc| ==> free[rc[i]] / g < 3
    ensures SharedUpTo(free, numas, n, g, score, m)
  {
    TwoNodesThreeGroups(free, numas, n, g, score);
  }

  lemma FewGroupsGive(free: NodeCounts, numas: seq<int>, rc: seq<int>, n: int, g: int, score: Score, m: nat)
    requires g > 0 && 1 <= m <= 3 && n == g * m && Listing(free, numas)
    requires rc == RemainderNodes(free, numas, g) && Groups(free, rc, g) >= m
    ensures SharedUpTo(free, numas, n, g, score, m)
  {
    var w := WayToShare(free, rc, m, g);
    match w
    case Alone(i) => OneNodeEnough(free, numas, n, g, score, m, rc[i]);
    case OneEach => OneEachEnough(free, numas, n, g, score, m);
    case TwoNodes => TwoNodesEnough(free, numas, rc, n, g, score, m);
  }

  lemma WholeCount(have: int, n: int, g: int)
    requires g > 0 && n >= 1 && n % g == 0 && have * g >= n
    ensures have >= n / g >= 1 && n == g * (n / g) && (n <= 3 * g ==> n / g <= 3)
  {
    PositiveMultiple(n, g);
    MulCancel(g, n / g, have);
    if n <= 3 * g {
      MulCancel(g, n / g, 3);
    }
  }

  /** At most three groups that are there can always be shared by at most as many nodes. */
  lemma FewGroupsQualify(free: NodeCounts, numas: seq<int>, n: int, g: int, score: Score)
    requires g > 0 && 1 <= n <= 3 * g && n % g == 0 && Listing(free, numas) && EnoughGroups(free, numas, n, g)
    ensures SharedUpTo(free, numas, n, g, score, n / g)
  {
    WholeCount(Groups(free, numas, g), n, g);
    RemainderGroups(free, numas, g);
    FewGroupsGive(free, numas, RemainderNodes(free, numas, g), n, g, score, n / g);
  }

  lemma ThreeGroups(n: int, g: int)
    requires g > 0
    ensures n <= 3 * g ==> CeilDiv(n, g) <= 3
  {
    if n <= 3 * g {
      DivMonotone(n - 1, 3 * g - 1, g);
      DivModUnique(g, 2, g - 1);
    }
  }
}
