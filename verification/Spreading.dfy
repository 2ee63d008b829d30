/** Handing out the remainder: CPUs are taken group by group from a list of NUMA nodes, round
    after round, until none remain to be handed out. */
module Spreading {
  import opened Sorting
  import opened Arith

  type NodeCounts = map<int, int>

  ghost predicate Covers(avail: NodeCounts, nodes: seq<int>) {
    forall i :: 0 <= i < |nodes| ==> nodes[i] in avail
  }

  function Sum(avail: NodeCounts, nodes: seq<int>): int
    requires Covers(avail, nodes)
  {
    if nodes == [] then 0 else avail[nodes[0]] + Sum(avail, nodes[1..])
  }

  /** How many groups of g the nodes can still give. */
  function Groups(avail: NodeCounts, nodes: seq<int>, g: int): int
    requires g > 0 && Covers(avail, nodes)
  {
    if nodes == [] then 0 else avail[nodes[0]] / g + Groups(avail, nodes[1..], g)
  }

  /** The nodes hold enough whole groups for the remainder r. */
  ghost predicate EnoughGroups(avail: NodeCounts, nodes: seq<int>, r: int, g: int) {
    g > 0 && Covers(avail, nodes) && Groups(avail, nodes, g) * g >= r
  }

  /** One round: each node in turn gives one group if it has one and some CPU remains. */
  function Pass(avail: NodeCounts, nodes: seq<int>, r: int, g: int): (out: (NodeCounts, int))
    requires Covers(avail, nodes)
    ensures out.0.Keys == avail.Keys
    decreases |nodes|
  {
    if nodes == [] || r == 0 then (avail, r)
    else
      if avail[nodes[0]] < g then Pass(avail, nodes[1..], r, g)
      else Pass(avail[nodes[0] := avail[nodes[0]] - g], nodes[1..], r - g, g)
  }

  /** The counts after rounds until nothing remains, or until a round hands out nothing. */
  function Spread(avail: NodeCounts, nodes: seq<int>, r: int, g: int): (out: NodeCounts)
    requires Covers(avail, nodes)
    ensures out.Keys == avail.Keys
    decreases if r > 0 then r else 0
  {
    if r <= 0 then avail
    else
      var (avail', r') := Pass(avail, nodes, r, g);
      if r' >= r then avail' else Spread(avail', nodes, r', g)
  }

  lemma {:induction false} UntouchedNode(avail: NodeCounts, nodes: seq<int>, r: int, g: int, u: int)
    requires Covers(avail, nodes) && u !in nodes && u in avail
    ensures Pass(avail, nodes, r, g).0[u] == avail[u]
    decreases |nodes|
  {
    if nodes == [] || r == 0 {
    } else {
      var next := if avail[nodes[0]] < g then avail else avail[nodes[0] := avail[nodes[0]] - g];
      assert nodes[0] != u;
      UntouchedNode(next, nodes[1..], if avail[nodes[0]] < g then r else r - g, g, u);
    }
  }

  lemma {:induction false} SumOfUnchanged(a: NodeCounts, b: NodeCounts, nodes: seq<int>)
    requires Covers(a, nodes) && Covers(b, nodes)
    requires forall i :: 0 <= i < |nodes| ==> a[nodes[i]] == b[nodes[i]]
    ensures Sum(a, nodes) == Sum(b, nodes)
    ensures forall g :: g > 0 ==> Groups(a, nodes, g) == Groups(b, nodes, g)
  {
    if nodes == [] {
    } else {
      SumOfUnchanged(a, b, nodes[1..]);
    }
  }

  lemma TailNoDup(nodes: seq<int>)
    requires NoDup(nodes) && nodes != []
    ensures NoDup(nodes[1..]) && nodes[0] !in nodes[1..]
    ensures forall u :: u in nodes[1..] ==> u in nodes
  {
    assert forall i :: 0 < i < |nodes| ==> nodes[1..][i - 1] == nodes[i];
  }

  /** Every group taken leaves the pool of groups by one and the remainder by g. */
  lemma {:induction false} PassConserves(avail: NodeCounts, nodes: seq<int>, q: nat, g: int) returns (q': nat)
    requires Covers(avail, nodes) && NoDup(nodes) && g > 0
    ensures var (avail', r') := Pass(avail, nodes, q * g, g);
      && Covers(avail', nodes)
      && r' == q' * g && q' <= q
      && Groups(avail', nodes, g) - q' == Groups(avail, nodes, g) - q
      && Sum(avail', nodes) - r' == Sum(avail, nodes) - q * g
    decreases |nodes|
  {
    if nodes == [] || q == 0 {
      q' := q;
    } else {
      TailNoDup(nodes);
      var u, rest := nodes[0], nodes[1..];
      assert q * g != 0 by { MulMonotone(g, 1, q); }
      if avail[u] < g {
        q' := PassConserves(avail, rest, q, g);
        UntouchedNode(avail, rest, q * g, g, u);
      } else {
        var next := avail[u := avail[u] - g];
        assert (q - 1) * g == q * g - g;
        q' := PassConserves(next, rest, q - 1, g);
        UntouchedNode(next, rest, (q - 1) * g, g, u);
        SumOfUnchanged(avail, next, rest);
        DivLessOne(avail[u], g);
      }
    }
  }

  /** How many of the listed nodes have a group to give. */
  ghost function Able(avail: NodeCounts, nodes: seq<int>, g: int): nat
    requires Covers(avail, nodes)
  {
    if nodes == [] then 0 else (if avail[nodes[0]] >= g then 1 else 0) + Able(avail, nodes[1..], g)
  }

  lemma {:induction false} AbleSame(a: NodeCounts, b: NodeCounts, nodes: seq<int>, g: int)
    requires Covers(a, nodes) && Covers(b, nodes)
    requires forall i :: 0 <= i < |nodes| ==> a[nodes[i]] == b[nodes[i]]
    ensures Able(a, nodes, g) == Able(b, nodes, g)
  {
    if nodes != [] {
      AbleSame(a, b, nodes[1..], g);
    }
  }

  /** In one round for q groups the first q nodes that have one give a group each, and no other
      node gives anything. */
  lemma {:induction false} PassTakes(avail: NodeCounts, nodes: seq<int>, q: nat, g: int, i: nat)
    requires Covers(avail, nodes) && NoDup(nodes) && g > 0 && i < |nodes|
    ensures Pass(avail, nodes, q * g, g).0[nodes[i]]
         == avail[nodes[i]] - if avail[nodes[i]] >= g && Able(avail, nodes[..i], g) < q then g else 0
    decreases |nodes|
  {
    if q > 0 {
      TailNoDup(nodes);
      var u, rest := nodes[0], nodes[1..];
      assert q * g != 0 by { MulMonotone(g, 1, q); }
      assert (q - 1) * g == q * g - g;
      var gives := avail[u] >= g;
      var next, left := if gives then avail[u := avail[u] - g] else avail, if gives then q - 1 else q;
      assert Pass(avail, nodes, q * g, g) == Pass(next, rest, left * g, g);
      if i == 0 {
        UntouchedNode(next, rest, left * g, g, u);
      } else {
        PassTakes(next, rest, left, g, i - 1);
        assert nodes[..i][1..] == rest[..i - 1] && nodes[..i][0] == u;
        AbleSame(avail, next, rest[..i - 1], g);
      }
    }
  }

  /** A round hands out something whenever some node has a group left. */
  lemma {:induction false} PassProgress(avail: NodeCounts, nodes: seq<int>, q: nat, g: int)
    requires Covers(avail, nodes) && NoDup(nodes) && g > 0 && q > 0
    requires exists i :: 0 <= i < |nodes| && avail[nodes[i]] >= g
    ensures Pass(avail, nodes, q * g, g).1 < q * g
    decreases |nodes|
  {
    TailNoDup(nodes);
    var u, rest := nodes[0], nodes[1..];
    assert q * g != 0 by { MulMonotone(g, 1, q); }
    if avail[u] >= g {
      var next := avail[u := avail[u] - g];
      assert (q - 1) * g == q * g - g;
      var q' := PassConserves(next, rest, q - 1, g);
      MulMonotone(g, q', q - 1);
    } else {
      var i :| 0 <= i < |nodes| && avail[nodes[i]] >= g;
      assert rest[i - 1] == nodes[i];
      PassProgress(avail, rest, q, g);
    }
  }

  lemma {:induction false} SomeGroup(avail: NodeCounts, nodes: seq<int>, g: int)
    requires Covers(avail, nodes) && g > 0 && Groups(avail, nodes, g) > 0
    ensures exists i :: 0 <= i < |nodes| && avail[nodes[i]] >= g
  {
    if avail[nodes[0]] / g > 0 {
      assert avail[nodes[0]] == g * (avail[nodes[0]] / g) + avail[nodes[0]] % g;
      MulMonotone(g, 1, avail[nodes[0]] / g);
    } else {
      SomeGroup(avail, nodes[1..], g);
      var i :| 0 <= i < |nodes[1..]| && avail[nodes[1..][i]] >= g;
      assert nodes[i + 1] == nodes[1..][i];
    }
  }

  // ---- when the loop over rounds ends

  /** The state after k rounds of the loop, which goes round while r > 0. */
  function Rounds(avail: NodeCounts, nodes: seq<int>, r: int, g: int, k: nat): (out: (NodeCounts, int))
    requires Covers(avail, nodes)
    ensures out.0.Keys == avail.Keys
    decreases k
  {
    if k == 0 || r <= 0 then (avail, r)
    else
      var (avail', r') := Pass(avail, nodes, r, g);
      Rounds(avail', nodes, r', g, k - 1)
  }

  /** After some number of rounds nothing remains to be handed out. */
  ghost predicate LoopEnds(avail: NodeCounts, nodes: seq<int>, r: int, g: int) {
    Covers(avail, nodes) && exists k: nat :: Rounds(avail, nodes, r, g, k).1 == 0
  }

  /** With too few whole groups the remainder never reaches zero, ... */
  lemma {:induction false} RoundsHang(avail: NodeCounts, nodes: seq<int>, q: nat, g: int, k: nat)
    requires Covers(avail, nodes) && NoDup(nodes) && g > 0
    requires forall i :: 0 <= i < |nodes| ==> avail[nodes[i]] >= 0
    requires Groups(avail, nodes, g) < q
    ensures Rounds(avail, nodes, q * g, g, k).1 > 0
    decreases k
  {
    GroupsNonNegative(avail, nodes, g);
    assert q * g > 0 by { MulMonotone(g, 1, q); }
    if k == 0 {
    } else {
      var q' := PassConserves(avail, nodes, q, g);
      PassNonNegative(avail, nodes, q * g, g);
      RoundsHang(Pass(avail, nodes, q * g, g).0, nodes, q', g, k - 1);
    }
  }

  lemma {:induction false} GroupsNonNegative(avail: NodeCounts, nodes: seq<int>, g: int)
    requires Covers(avail, nodes) && g > 0 && forall i :: 0 <= i < |nodes| ==> avail[nodes[i]] >= 0
    ensures Groups(avail, nodes, g) >= 0
  {
    if nodes == [] {
    } else {
      assert avail[nodes[0]] / g >= 0;
      GroupsNonNegative(avail, nodes[1..], g);
    }
  }

  lemma {:induction false} PassNonNegative(avail: NodeCounts, nodes: seq<int>, r: int, g: int)
    requires Covers(avail, nodes) && g > 0
    ensures forall u :: u in avail && avail[u] >= 0 ==> Pass(avail, nodes, r, g).0[u] >= 0
    decreases |nodes|
  {
    if nodes == [] || r == 0 {
    } else {
      if avail[nodes[0]] < g {
        PassNonNegative(avail, nodes[1..], r, g);
      } else {
        PassNonNegative(avail[nodes[0] := avail[nodes[0]] - g], nodes[1..], r - g, g);
      }
    }
  }

  /** ... and with enough it does, after at most q rounds. */
  lemma {:induction false} RoundsEnd(avail: NodeCounts, nodes: seq<int>, q: nat, g: int)
    requires Covers(avail, nodes) && NoDup(nodes) && g > 0
    requires Groups(avail, nodes, g) >= q
    ensures Rounds(avail, nodes, q * g, g, q).1 == 0
    ensures Rounds(avail, nodes, q * g, g, q).0 == Spread(avail, nodes, q * g, g)
    decreases q
  {
    if q == 0 {
    } else {
      assert q * g > 0 by { MulMonotone(g, 1, q); }
      var q' := PassConserves(avail, nodes, q, g);
      SomeGroup(avail, nodes, g);
      PassProgress(avail, nodes, q, g);
      var avail' := Pass(avail, nodes, q * g, g).0;
      assert q' < q;
      RoundsEnd(avail', nodes, q', g);
      RoundsSettled(avail', nodes, q' * g, g, q', q - 1);
    }
  }

  lemma {:induction false} RoundsSettled(avail: NodeCounts, nodes: seq<int>, r: int, g: int, k: nat, m: nat)
    requires Covers(avail, nodes) && k <= m && Rounds(avail, nodes, r, g, k).1 == 0
    ensures Rounds(avail, nodes, r, g, m) == Rounds(avail, nodes, r, g, k)
    decreases k
  {
    if k == 0 || r <= 0 {
    } else {
      var (avail', r') := Pass(avail, nodes, r, g);
      RoundsSettled(avail', nodes, r', g, k - 1, m - 1);
    }
  }

  /** The loop ends exactly when the nodes hold enough whole groups. Before entering it the
      search only checks that the CPUs suffice (Sum >= remainder). */
  lemma RemainderLoopEnds(avail: NodeCounts, nodes: seq<int>, q: nat, g: int)
    requires Covers(avail, nodes) && NoDup(nodes) && g > 0
    requires forall i :: 0 <= i < |nodes| ==> avail[nodes[i]] >= 0
    ensures LoopEnds(avail, nodes, q * g, g) <==> Groups(avail, nodes, g) >= q
  {
    if Groups(avail, nodes, g) >= q {
      RoundsEnd(avail, nodes, q, g);
    } else {
      forall k: nat ensures Rounds(avail, nodes, q * g, g, k).1 != 0 {
        RoundsHang(avail, nodes, q, g, k);
      }
    }
  }

  /** When every node holds whole groups only, the check on CPUs is the check on groups. */
  lemma {:induction false} WholeGroupsSum(avail: NodeCounts, nodes: seq<int>, g: int)
    requires Covers(avail, nodes) && g > 0
    requires forall i :: 0 <= i < |nodes| ==> avail[nodes[i]] % g == 0
    ensures Groups(avail, nodes, g) * g == Sum(avail, nodes)
  {
    if nodes == [] {
    } else {
      var x := avail[nodes[0]];
      assert x == g * (x / g);
      WholeGroupsSum(avail, nodes[1..], g);
      assert (x / g + Groups(avail, nodes[1..], g)) * g == (x / g) * g + Groups(avail, nodes[1..], g) * g;
    }
  }

  /** Two nodes left with three CPUs each pass the check for a remainder of six, yet they hold
      only two groups of two: the loop never ends. */
  lemma RemainderLoopCanHang(avail: NodeCounts, a: int, b: int)
    requires a in avail && b in avail && a != b && avail[a] == 3 && avail[b] == 3
    ensures Sum(avail, [a, b]) >= 6 && Groups(avail, [a, b], 2) == 2
    ensures forall k: nat :: Rounds(avail, [a, b], 6, 2, k).1 > 0
    ensures !LoopEnds(avail, [a, b], 6, 2)
  {
    assert [a, b][1..] == [b] && [b][1..] == [];
    assert Sum(avail, [b]) == 3 && Groups(avail, [b], 2) == 1;
    forall k: nat ensures Rounds(avail, [a, b], 6, 2, k).1 > 0 {
      RoundsHang(avail, [a, b], 3, 2, k);
    }
  }
}
