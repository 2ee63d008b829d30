/** The search of the distributed allocator: which NUMA nodes to spread a request over. */
module BalanceSearch {
  import opened Sorting
  import opened Arith
  import opened Topology
  import opened Combinations
  import opened Spreading
  import SharedSlices

  /** The balance score: in the source the standard deviation of the remaining counts. */
  type Score = NodeCounts -> real

  ghost predicate NonNegative(score: Score) {
    forall m :: score(m) >= 0.0
  }

  /** The even share of each of k nodes, in whole groups. */
  function Share(n: int, k: int, g: int): int
    requires k > 0 && g > 0
  {
    (n / k / g) * g
  }

  /** What remains to be handed out after the even shares. */
  function Rest(n: int, k: int, g: int): int
    requires k > 0 && g > 0
  {
    n - Share(n, k, g) * k
  }

  function After(free: NodeCounts, combo: seq<int>, share: int): NodeCounts {
    map u | u in free :: if u in combo then free[u] - share else free[u]
  }

  /** The nodes that can still give a group. */
  function RemainderNodes(after: NodeCounts, combo: seq<int>, g: int): (r: seq<int>)
    requires Covers(after, combo)
    ensures Covers(after, r) && forall i :: 0 <= i < |r| ==> after[r[i]] >= g && r[i] in combo
    ensures NoDup(combo) ==> NoDup(r)
    ensures |r| <= |combo|
  {
    if combo == [] then []
    else
      var rest := RemainderNodes(after, combo[1..], g);
      assert forall i :: 0 < i < |combo| ==> combo[1..][i - 1] == combo[i];
      if after[combo[0]] >= g then [combo[0]] + rest else rest
  }

  /** The checks a combination of nodes must pass: enough CPUs, enough groups, and an even
      share on every node. */
  ghost predicate Passes(free: NodeCounts, combo: seq<int>, n: int, g: int)
    requires g > 0 && Covers(free, combo) && combo != []
  {
    && Sum(free, combo) >= n
    && Groups(free, combo, g) * g >= n
    && forall i :: 0 <= i < |combo| ==> free[combo[i]] >= Share(n, |combo|, g)
  }

  /** rem is a set of nodes of rc that could give the whole remainder r. */
  ghost predicate Gives(after: NodeCounts, rc: seq<int>, r: int, rem: seq<int>) {
    1 <= |rem| <= |rc| && rem in Combos(rc, |rem|) && Covers(after, rem) && Sum(after, rem) >= r
  }

  /** Handing the remainder r to rem is allowed and scores bal. */
  ghost predicate Achieves(after: NodeCounts, rc: seq<int>, r: int, g: int, score: Score, rem: seq<int>, bal: real) {
    if r == 0 then rem == [] && bal == score(after)
    else Gives(after, rc, r, rem) && bal == score(Spread(after, rem, r, g))
  }

  /** Spreading n CPUs over combo, with rem giving the remainder, is allowed and scores bal. */
  ghost predicate Candidate(free: NodeCounts, combo: seq<int>, n: int, g: int, score: Score, rem: seq<int>, bal: real) {
    && g > 0 && combo != [] && Covers(free, combo) && Passes(free, combo, n, g)
    && var share := Share(n, |combo|, g);
       var after := After(free, combo, share);
       Achieves(after, RemainderNodes(after, combo, g), Rest(n, |combo|, g), g, score, rem, bal)
  }

  /** Best so far; NoneYet plays the role of math.MaxFloat64. The best set of nodes is saved as
      a slice of the walk over all sets of its size: `held` is what it holds after that walk. */
  datatype Local = NoneYet | Best(balance: real, remainder: seq<int>, held: seq<int>)

  datatype Choice =
    NotFound | Found(balance: real, combo: seq<int>, remainder: seq<int>, held: seq<int>, heldRemainder: seq<int>)

  /** What the slice of the set `saved` holds when the walk is over, v calls long: from a score
      of 0 on there is one call more, which breaks the walk off. */
  ghost predicate HeldAfter(nodes: seq<int>, saved: seq<int>, breaks: bool, held: seq<int>) {
    saved != [] && exists j: nat, v: nat ::
      && j < v <= |Combos(nodes, |saved|)| && Combos(nodes, |saved|)[j] == saved
      && (v == |Combos(nodes, |saved|)| || (breaks && v == j + 2))
      && held == SharedSlices.Held(nodes, |saved|, j, v)
  }

  /** The set that gives the remainder, and what is left of it. */
  ghost predicate RemainderHeld(rc: seq<int>, r: int, rem: seq<int>, held: seq<int>) {
    if r == 0 then rem == held == [] else HeldAfter(rc, rem, false, held)
  }

  /** A set of nodes that begins as the saved one, of the same size. */
  lemma HeldIsSet(nodes: seq<int>, saved: seq<int>, breaks: bool, held: seq<int>)
    requires HeldAfter(nodes, saved, breaks, held)
    ensures held in Combos(nodes, |saved|) && |held| == |saved|
    ensures saved[..SharedSlices.OwnLength(|saved|)] == held[..SharedSlices.OwnLength(|saved|)]
  {
    var j: nat, v: nat :| j < v <= |Combos(nodes, |saved|)| && Combos(nodes, |saved|)[j] == saved
      && held == SharedSlices.Held(nodes, |saved|, j, v);
    SharedSlices.HeldIs(nodes, |saved|, j, v);
  }

  /** Of at most three nodes, of five, and of all there are, it is the saved one. */
  lemma HeldUnchanged(nodes: seq<int>, saved: seq<int>, breaks: bool, held: seq<int>)
    requires HeldAfter(nodes, saved, breaks, held)
    requires |saved| <= 3 || |saved| == 5 || |nodes| <= |saved|
    ensures held == saved
  {
    SharedSlices.SmallLengths();
    var j: nat, v: nat :| j < v <= |Combos(nodes, |saved|)| && Combos(nodes, |saved|)[j] == saved
      && held == SharedSlices.Held(nodes, |saved|, j, v);
    SharedSlices.HeldIntact(nodes, |saved|, j, v);
  }

  lemma {:induction false} RemainderComplete(after: NodeCounts, combo: seq<int>, g: int, u: int)
    requires Covers(after, combo) && u in combo && after[u] >= g
    ensures u in RemainderNodes(after, combo, g)
  {
    if u != combo[0] {
      assert combo == [combo[0]] + combo[1..];
      RemainderComplete(after, combo[1..], g, u);
    }
  }

  // ---- when the remainder loops end

  /** Every set of nodes with CPUs for the remainder also has the groups for it. */
  ghost predicate SubsetsEnd(after: NodeCounts, rc: seq<int>, r: int, g: int) {
    forall rem :: Gives(after, rc, r, rem) ==> EnoughGroups(after, rem, r, g)
  }

  /** All remainder loops run for a combination end. */
  ghost predicate ComboEnds(free: NodeCounts, combo: seq<int>, n: int, g: int) {
    g > 0 && combo != [] && Covers(free, combo) && Passes(free, combo, n, g) && Rest(n, |combo|, g) > 0 ==>
      var after := After(free, combo, Share(n, |combo|, g));
      SubsetsEnd(after, RemainderNodes(after, combo, g), Rest(n, |combo|, g), g)
  }

  /** No combination before the given one scores 0: the search gets as far as that one. */
  ghost predicate NoZeroBefore(free: NodeCounts, combos: seq<seq<int>>, idx: int, n: int, g: int, score: Score)
    requires 0 <= idx <= |combos|
  {
    forall i, rem, bal :: 0 <= i < idx && Candidate(free, combos[i], n, g, score, rem, bal) ==> bal != 0.0
  }

  /** All remainder loops that the search over one list of combinations runs end. */
  ghost predicate SizeEnds(free: NodeCounts, combos: seq<seq<int>>, n: int, g: int, score: Score) {
    forall idx :: 0 <= idx < |combos| && NoZeroBefore(free, combos, idx, n, g, score) ==> ComboEnds(free, combos[idx], n, g)
  }

  /** Whole groups of free CPUs everywhere. */
  ghost predicate WholeGroups(free: NodeCounts, g: int) {
    g > 0 && forall u :: u in free ==> free[u] >= 0 && free[u] % g == 0
  }

  /** With whole groups everywhere the check on CPUs is the check on groups. */
  lemma WholeGroupsEnd(free: NodeCounts, combo: seq<int>, n: int, g: int)
    requires WholeGroups(free, g) && n >= 0
    ensures ComboEnds(free, combo, n, g)
  {
    if combo != [] && Covers(free, combo) && Passes(free, combo, n, g) {
      var after := After(free, combo, Share(n, |combo|, g));
      WholeGroupsAfter(free, combo, n, g);
      WholeSubsetsEnd(after, RemainderNodes(after, combo, g), Rest(n, |combo|, g), g);
    }
  }

  lemma WholeSubsetsEnd(after: NodeCounts, rc: seq<int>, r: int, g: int)
    requires WholeGroups(after, g)
    ensures SubsetsEnd(after, rc, r, g)
  {
    forall rem | Gives(after, rc, r, rem) ensures EnoughGroups(after, rem, r, g) {
      forall i | 0 <= i < |rem| ensures after[rem[i]] % g == 0 {
        var u := rem[i];
        assert u in after && after[u] % g == 0;
      }
      WholeGroupsSum(after, rem, g);
    }
  }

  /** Fewer groups remain than the combination has nodes. */
  lemma RestBound(n: int, k: int, g: int)
    requires n >= 0 && k > 0 && g > 0
    ensures Rest(n, k, g) < k * g
  {
    DivDiv(n, k, g);
    var q := n / (k * g);
    assert Share(n, k, g) * k == (q * g) * k == (k * g) * q;
    assert n == (k * g) * q + n % (k * g);
  }

  /** On at most three nodes at most two groups remain. Every node that is asked still has a
      group, so only a single node can be short, and that one has the CPUs for both. */
  lemma FewNodesEnd(free: NodeCounts, combo: seq<int>, n: int, g: int)
    requires n >= 0 && g > 0 && n % g == 0 && |combo| <= 3
    ensures ComboEnds(free, combo, n, g)
  {
    if combo != [] && Covers(free, combo) && Passes(free, combo, n, g) {
      var r := Rest(n, |combo|, g);
      RemainderFacts(n, |combo|, g);
      RestBound(n, |combo|, g);
      MulMonotone(g, |combo|, 3);
      TwoGroups(r, g);
      var after := After(free, combo, Share(n, |combo|, g));
      var rc := RemainderNodes(after, combo, g);
      forall rem | Gives(after, rc, r, rem) ensures EnoughGroups(after, rem, r, g) {
        CombosElement(rc, |rem|, rem);
        GroupsForTwo(after, rem, r, g);
      }
    }
  }

  /** The remainder loop ends for every set of nodes that passes the check on CPUs. */
  ghost predicate AllLoopsEnd(after: NodeCounts, rc: seq<int>, r: int, g: int) {
    forall rem :: Gives(after, rc, r, rem) ==> LoopEnds(after, rem, r, g)
  }

  /** For a combination that passes the checks, ComboEnds holds if and only if each of the
      remainder loops the callback runs for it reaches zero after some number of rounds. */
  lemma ComboEndsIff(free: NodeCounts, combo: seq<int>, n: int, g: int)
    requires g > 0 && n > 0 && n % g == 0 && combo != [] && NoDup(combo) && Covers(free, combo)
    requires Passes(free, combo, n, g) && Rest(n, |combo|, g) > 0
    ensures var (r, after) := (Rest(n, |combo|, g), After(free, combo, Share(n, |combo|, g)));
      ComboEnds(free, combo, n, g)
      <==> AllLoopsEnd(after, RemainderNodes(after, combo, g), r, g)
  {
    var r, after := Rest(n, |combo|, g), After(free, combo, Share(n, |combo|, g));
    RemainderFacts(n, |combo|, g);
    PositiveMultiple(r, g);
    SameCover(free, combo, Share(n, |combo|, g));
    SubsetsEndIff(after, RemainderNodes(after, combo, g), r, g);
  }

  lemma SubsetsEndIff(after: NodeCounts, rc: seq<int>, r: int, g: int)
    requires g > 0 && r > 0 && r % g == 0 && NoDup(rc) && Covers(after, rc)
    requires forall i :: 0 <= i < |rc| ==> after[rc[i]] >= 0
    ensures SubsetsEnd(after, rc, r, g)
      <==> AllLoopsEnd(after, rc, r, g)
  {
    forall rem | Gives(after, rc, r, rem)
      ensures EnoughGroups(after, rem, r, g) <==> LoopEnds(after, rem, r, g)
    {
      OneSubsetIff(after, rc, r, g, rem);
    }
  }

  lemma OneSubsetIff(after: NodeCounts, rc: seq<int>, r: int, g: int, rem: seq<int>)
    requires g > 0 && r > 0 && r % g == 0 && NoDup(rc) && Gives(after, rc, r, rem)
    requires Covers(after, rc) && forall i :: 0 <= i < |rc| ==> after[rc[i]] >= 0
    ensures EnoughGroups(after, rem, r, g) <==> LoopEnds(after, rem, r, g)
  {
    CombosElement(rc, |rem|, rem);
    forall i | 0 <= i < |rem| ensures after[rem[i]] >= 0 {
      var j := IndexOf(rc, rem[i]);
    }
    PositiveMultiple(r, g);
    RemainderLoopEnds(after, rem, r / g, g);
    GroupsTimes(Groups(after, rem, g), r / g, g);
  }

  lemma GroupsTimes(have: int, q: int, g: int)
    requires g > 0
    ensures have * g >= q * g <==> have >= q
  {
    if have < q {
      MulMonotone(g, have, q - 1);
    } else {
      MulMonotone(g, q, have);
    }
  }

  lemma TwoGroups(r: int, g: int)
    requires g > 0 && 0 <= r < 3 * g && r % g == 0
    ensures r == 0 || r == g || r == 2 * g
  {
    assert r == g * (r / g);
    if r / g >= 3 { MulMonotone(g, 3, r / g); }
    if r / g < 0 { MulMonotone(g, r / g, -1); }
  }

  lemma GroupsForTwo(after: NodeCounts, rem: seq<int>, r: int, g: int)
    requires g > 0 && Covers(after, rem) && rem != [] && (r == 0 || r == g || r == 2 * g)
    requires Sum(after, rem) >= r && forall i :: 0 <= i < |rem| ==> after[rem[i]] >= g
    ensures EnoughGroups(after, rem, r, g)
  {
    forall i | 0 <= i < |rem| ensures after[rem[i]] / g >= 1 {
      DivMonotone(g, after[rem[i]], g);
      DivModUnique(g, 1, 0);
    }
    GroupsAtLeast(after, rem, g);
    if |rem| == 1 && r == 2 * g {
      assert rem[1..] == [];
      DivMonotone(2 * g, after[rem[0]], g);
      DivModUnique(g, 2, 0);
    }
    MulMonotone(g, if r == 0 then 0 else if r == g then 1 else 2, Groups(after, rem, g));
  }

  lemma {:induction false} GroupsAtLeast(free: NodeCounts, combo: seq<int>, g: int)
    requires g > 0 && Covers(free, combo)
    requires forall i :: 0 <= i < |combo| ==> free[combo[i]] / g >= 1
    ensures Groups(free, combo, g) >= |combo|
  {
    if combo == [] {
    } else {
      GroupsAtLeast(free, combo[1..], g);
    }
  }

  lemma CombosElement(n: seq<int>, k: nat, c: seq<int>)
    requires c in Combos(n, k)
    ensures |c| == k && k <= |n|
    ensures forall i :: 0 <= i < |c| ==> c[i] in n
    ensures NoDup(n) ==> NoDup(c)
  {
    var j := IndexOf(Combos(n, k), c);
    var p := CombosAt(n, k, j);
    if k > 0 {
      IncreasingFits(p, 0, |n|);
    }
  }

  lemma ShareFacts(n: int, k: int, g: int)
    requires n >= 0 && k > 0 && g > 0
    ensures Share(n, k, g) >= 0 && Share(n, k, g) % g == 0
    ensures Share(n, k, g) * k <= n
  {
    var q := n / k / g;
    assert n / k >= 0;
    assert n / k == g * q + (n / k) % g;
    assert q >= 0 by {
      if q < 0 { MulMonotone(g, q, -1); }
    }
    assert Share(n, k, g) == g * q;
    DivModUnique(g, q, 0);
    assert n == k * (n / k) + n % k;
    MulMonotone(k, Share(n, k, g), n / k);
    MulMonotone(g, 0, q);
  }

  /** What is left to hand out after the even shares is a number of whole groups. */
  lemma RemainderFacts(n: int, k: int, g: int)
    requires g > 0 && n >= 0 && n % g == 0 && k > 0
    ensures Rest(n, k, g) >= 0 && Rest(n, k, g) % g == 0
  {
    ShareFacts(n, k, g);
    var q, m := n / k / g, n / g;
    assert n == g * m;
    assert Share(n, k, g) * k == (g * q) * k == g * (q * k);
    assert n - Share(n, k, g) * k == g * (m - q * k) by {
      assert g * (m - q * k) == g * m - g * (q * k);
    }
    DivModUnique(g, m - q * k, 0);
  }

  lemma WholeGroupsAfter(free: NodeCounts, combo: seq<int>, n: int, g: int)
    requires WholeGroups(free, g) && combo != [] && Covers(free, combo) && Passes(free, combo, n, g) && n >= 0
    ensures WholeGroups(After(free, combo, Share(n, |combo|, g)), g)
  {
    var share := Share(n, |combo|, g);
    ShareFacts(n, |combo|, g);
    var after := After(free, combo, share);
    forall u | u in after ensures after[u] >= 0 && after[u] % g == 0 {
      if u in combo {
        var i :| 0 <= i < |combo| && combo[i] == u;
        assert free[combo[i]] >= share;
        ModSubMultiple(free[u], share, g);
      }
    }
  }

  lemma ModSubMultiple(a: int, b: int, g: int)
    requires g > 0 && a % g == 0 && b % g == 0
    ensures (a - b) % g == 0
  {
    assert a == g * (a / g) && b == g * (b / g);
    assert a - b == g * (a / g - b / g);
    DivModUnique(g, a / g - b / g, 0);
  }

  /** The two nested loops that hand out the remainder, one group per node and round. They
      end because the nodes hold enough whole groups. */
  method SpreadRemainder(avail: NodeCounts, nodes: seq<int>, remainder: int, g: int) returns (left: NodeCounts)
    requires Covers(avail, nodes) && NoDup(nodes) && g > 0
    requires remainder >= 0 && remainder % g == 0 && Groups(avail, nodes, g) * g >= remainder
    ensures left == Spread(avail, nodes, remainder, g)
  {
    left := avail;
    var r := remainder;
    while r > 0
      invariant Covers(left, nodes) && r >= 0 && r % g == 0 && Groups(left, nodes, g) * g >= r
      invariant Spread(left, nodes, r, g) == Spread(avail, nodes, remainder, g)
      decreases r
    {
      ghost var before, r0, q := left, r, r / g;
      assert r == q * g;
      for i := 0 to |nodes|
        invariant Covers(left, nodes) && Covers(left, nodes[i..])
        invariant Pass(left, nodes[i..], r, g) == Pass(before, nodes, r0, g)
      {
        assert nodes[i..][1..] == nodes[i + 1..];
        if r == 0 {
          break;
        }
        if left[nodes[i]] >= g {
          left := left[nodes[i] := left[nodes[i]] - g];
          r := r - g;
        }
      }
      assert (left, r) == Pass(before, nodes, r0, g);
      RoundCounts(before, nodes, q, g);
    }
  }

  lemma RoundCounts(avail: NodeCounts, nodes: seq<int>, q: nat, g: int)
    requires Covers(avail, nodes) && NoDup(nodes) && g > 0 && q > 0 && Groups(avail, nodes, g) * g >= q * g
    ensures var (avail', r') := Pass(avail, nodes, q * g, g);
      && 0 <= r' < q * g && r' % g == 0 && Covers(avail', nodes) && Groups(avail', nodes, g) * g >= r'
  {
    var (avail', r') := Pass(avail, nodes, q * g, g);
    var have := Groups(avail, nodes, g);
    assert have >= q by {
      if have < q {
        MulMonotone(g, have, q - 1);
      }
    }
    var q' := PassConserves(avail, nodes, q, g);
    SomeGroup(avail, nodes, g);
    PassProgress(avail, nodes, q, g);
    DivModUnique(g, q', 0);
    MulMonotone(g, q', Groups(avail', nodes, g));
  }

  ghost predicate NoWorse(best: Local, bal: real) {
    best.Best? && best.balance <= bal
  }

  // ---- of equally good plans the first

  /** Every earlier set of the walk over the sets of one size scores more. */
  ghost predicate FirstOfSize(after: NodeCounts, rc: seq<int>, r: int, g: int, score: Score, rem: seq<int>, bal: real) {
    exists at: nat :: at < |Combos(rc, |rem|)| && WorseBefore(after, rc, r, g, score, |rem|, at, bal)
                      && Combos(rc, |rem|)[at] == rem
  }

  ghost predicate WorseBefore(after: NodeCounts, rc: seq<int>, r: int, g: int, score: Score, k: nat, at: nat, bal: real) {
    at <= |Combos(rc, k)| && forall j :: 0 <= j < at && Gives(after, rc, r, Combos(rc, k)[j]) ==>
      bal < score(Spread(after, Combos(rc, k)[j], r, g))
  }

  /** So does every larger set: larger ones are tried first. */
  ghost predicate FirstRemainder(after: NodeCounts, rc: seq<int>, r: int, g: int, score: Score, rem: seq<int>, bal: real) {
    r > 0 ==>
      && (forall other :: Gives(after, rc, r, other) && |other| > |rem| ==> bal < score(Spread(after, other, r, g)))
      && FirstOfSize(after, rc, r, g, score, rem, bal)
  }

  /** The remainder set of a combination is the first of the best ones. */
  ghost predicate FirstRest(free: NodeCounts, combo: seq<int>, n: int, g: int, score: Score, rem: seq<int>, bal: real) {
    && g > 0 && combo != [] && Covers(free, combo)
    && var after := After(free, combo, Share(n, |combo|, g));
       FirstRemainder(after, RemainderNodes(after, combo, g), Rest(n, |combo|, g), g, score, rem, bal)
  }

  /** Every candidate of the combinations before the given one scores more. */
  ghost predicate WorseCombos(free: NodeCounts, combos: seq<seq<int>>, n: int, g: int, score: Score, at: int, bal: real) {
    0 <= at <= |combos| &&
    forall i, rem, b :: 0 <= i < at && Candidate(free, combos[i], n, g, score, rem, b) ==> bal < b
  }

  /** The choice is the first of the best combinations of its size, with the first of the best
      remainder sets. */
  ghost predicate FirstPlan(free: NodeCounts, numas: seq<int>, n: int, g: int, score: Score, choice: Choice) {
    choice.Found? ==>
      && FirstRest(free, choice.combo, n, g, score, choice.remainder, choice.balance)
      && exists at :: 0 <= at < |Combos(numas, |choice.combo|)| && Combos(numas, |choice.combo|)[at] == choice.combo
                      && WorseCombos(free, Combos(numas, |choice.combo|), n, g, score, at, choice.balance)
  }

  /** The callback for one subset of the nodes that can give the remainder. */
  method ScoreSubset(after: NodeCounts, rc: seq<int>, subset: seq<int>, r: int, g: int, score: Score)
    returns (gives: bool, balance: real)
    requires Covers(after, rc) && NoDup(rc) && 1 <= |subset| <= |rc| && subset in Combos(rc, |subset|)
    requires g > 0 && r > 0 && r % g == 0 && SubsetsEnd(after, rc, r, g)
    ensures gives <==> Gives(after, rc, r, subset)
    ensures gives ==> balance == score(Spread(after, subset, r, g))
  {
    CombosElement(rc, |subset|, subset);
    SubsetCovered(after, rc, subset);
    if Sum(after, subset) < r {
      return false, 0.0;
    }
    assert Gives(after, rc, r, subset);
    var left := SpreadRemainder(after, subset, r, g);
    return true, score(left);
  }

  /** The callback over the subsets of one size of the nodes that can give the remainder. */
  method BestSubset(after: NodeCounts, rc: seq<int>, k: nat, r: int, g: int, score: Score, start: Local)
    returns (best: Local)
    requires Covers(after, rc) && NoDup(rc) && 1 <= k <= |rc|
    requires g > 0 && r > 0 && r % g == 0 && SubsetsEnd(after, rc, r, g)
    ensures best == start || GivesBest(after, rc, r, g, score, best)
    ensures start.Best? ==> NoWorse(best, start.balance)
    ensures forall rem :: (rem in Combos(rc, k) && Gives(after, rc, r, rem)
                           ==> NoWorse(best, score(Spread(after, rem, r, g))))
    ensures best == start || NewFirst(after, rc, k, r, g, score, start, best)
  {
    best := start;
    var subsets := Combos(rc, k);
    var at := -1;
    for idx := 0 to |subsets|
      invariant at < idx && if at < 0 then best == start else SubsetBest(after, rc, k, r, g, score, best, at)
      invariant start.Best? ==> NoWorse(best, start.balance)
      invariant at >= 0 ==> Improves(start, best) && WorseBefore(after, rc, r, g, score, k, at, best.balance)
      invariant forall j :: (0 <= j < idx && Gives(after, rc, r, subsets[j])
                             ==> NoWorse(best, score(Spread(after, subsets[j], r, g))))
    {
      CombosElement(rc, k, subsets[idx]);
      var gives, balance := ScoreSubset(after, rc, subsets[idx], r, g, score);
      if gives && (best.NoneYet? || balance < best.balance) {
        best, at := Best(balance, subsets[idx], subsets[idx]), idx;
      }
    }
    forall rem | rem in Combos(rc, k) && Gives(after, rc, r, rem)
      ensures NoWorse(best, score(Spread(after, rem, r, g)))
    {
      var j := IndexOf(subsets, rem);
    }
    if at >= 0 {
      SubsetHeld(after, rc, k, r, g, score, best, at);
      CombosElement(rc, k, best.remainder);
      best := best.(held := SharedSlices.Held(rc, k, at, |subsets|));
    }
  }

  ghost predicate Improves(start: Local, best: Local) {
    best.Best? && (start.Best? ==> best.balance < start.balance)
  }

  /** A set of size k better than all that came before it. */
  ghost predicate NewFirst(after: NodeCounts, rc: seq<int>, k: nat, r: int, g: int, score: Score, start: Local, best: Local) {
    && Improves(start, best) && |best.remainder| == k
    && FirstOfSize(after, rc, r, g, score, best.remainder, best.balance)
  }

  /** The best set of the walk so far is the subset at the given index. */
  ghost predicate SubsetBest(after: NodeCounts, rc: seq<int>, k: nat, r: int, g: int, score: Score, best: Local, at: int) {
    && 0 <= at < |Combos(rc, k)| && best.Best? && best.remainder == Combos(rc, k)[at]
    && Gives(after, rc, r, best.remainder) && best.balance == score(Spread(after, best.remainder, r, g))
  }

  /** The best set gives the remainder, and what its slice holds. */
  ghost predicate GivesBest(after: NodeCounts, rc: seq<int>, r: int, g: int, score: Score, best: Local) {
    && best.Best? && Gives(after, rc, r, best.remainder)
    && best.balance == score(Spread(after, best.remainder, r, g)) && RemainderHeld(rc, r, best.remainder, best.held)
  }

  lemma SubsetHeld(after: NodeCounts, rc: seq<int>, k: nat, r: int, g: int, score: Score, best: Local, at: int)
    requires k >= 1 && r > 0 && SubsetBest(after, rc, k, r, g, score, best, at)
    ensures GivesBest(after, rc, r, g, score, best.(held := SharedSlices.Held(rc, k, at, |Combos(rc, k)|)))
  {
    CombosElement(rc, k, best.remainder);
  }

  lemma SubsetCovered(after: NodeCounts, rc: seq<int>, subset: seq<int>)
    requires Covers(after, rc) && forall i :: 0 <= i < |subset| ==> subset[i] in rc
    ensures Covers(after, subset)
  {
    forall i | 0 <= i < |subset| ensures subset[i] in after {
      var j := IndexOf(rc, subset[i]);
    }
  }

  /** The number of free CPUs on each listed node. */
  function NodeFree(d: CPUDetails, numas: seq<int>): NodeCounts {
    map u | u in numas :: |Members(d, Numa, u)|
  }

  lemma {:induction false} UnionSize(d: CPUDetails, numas: seq<int>, combo: seq<int>)
    requires NoDup(combo) && Covers(NodeFree(d, numas), combo)
    ensures |MembersOf(d, Numa, Elements(combo))| == Sum(NodeFree(d, numas), combo)
  {
    if combo == [] {
      assert MembersOf(d, Numa, Elements(combo)) == {};
    } else {
      TailNoDup(combo);
      UnionSize(d, numas, combo[1..]);
      var head, tail := Members(d, Numa, combo[0]), MembersOf(d, Numa, Elements(combo[1..]));
      assert combo == [combo[0]] + combo[1..];
      assert MembersOf(d, Numa, Elements(combo)) == head + tail;
      assert head !! tail;
    }
  }

  /** The three checks at the head of the callback. */
  method Admits(d: CPUDetails, numas: seq<int>, combo: seq<int>, n: int, g: int) returns (ok: bool)
    requires g > 0 && combo != [] && NoDup(combo) && Covers(NodeFree(d, numas), combo)
    ensures ok <==> Passes(NodeFree(d, numas), combo, n, g)
  {
    ghost var free := NodeFree(d, numas);
    UnionSize(d, numas, combo);
    if |MembersOf(d, Numa, Elements(combo))| < n {
      return false;
    }
    var groups := 0;
    for i := 0 to |combo|
      invariant Covers(free, combo[i..])
      invariant groups + Groups(free, combo[i..], g) == Groups(free, combo, g)
    {
      assert combo[i..][1..] == combo[i + 1..];
      groups := groups + |Members(d, Numa, combo[i])| / g;
    }
    if groups * g < n {
      return false;
    }
    var share := Share(n, |combo|, g);
    for i := 0 to |combo|
      invariant forall j :: 0 <= j < i ==> free[combo[j]] >= share
    {
      if |Members(d, Numa, combo[i])| < share {
        return false;
      }
    }
    return true;
  }

  /** The counts once every node of the combination has given its even share. */
  method AfterShares(d: CPUDetails, numas: seq<int>, combo: seq<int>, share: int) returns (after: NodeCounts)
    requires NoDup(combo) && Covers(NodeFree(d, numas), combo)
    ensures after == After(NodeFree(d, numas), combo, share)
  {
    ghost var free := NodeFree(d, numas);
    after := map[];
    for i := 0 to |numas|
      invariant after.Keys == Elements(numas[..i])
      invariant forall u :: u in after ==> u in free && after[u] == free[u]
    {
      assert numas[..i + 1] == numas[..i] + [numas[i]];
      after := after[numas[i] := |Members(d, Numa, numas[i])|];
    }
    assert numas[..|numas|] == numas;
    assert after.Keys == free.Keys;
    for i := 0 to |combo|
      invariant after == After(free, combo[..i], share)
    {
      assert combo[..i + 1] == combo[..i] + [combo[i]];
      assert combo[i] !in combo[..i];
      assert combo[i] in free;
      after := after[combo[i] := after[combo[i]] - share];
    }
    assert combo[..|combo|] == combo;
  }

  /** No set of more than k nodes that could give the remainder scores better. */
  ghost predicate BeatsLarger(after: NodeCounts, rc: seq<int>, r: int, g: int, score: Score, k: int, best: Local) {
    forall rem :: Gives(after, rc, r, rem) && |rem| > k ==> NoWorse(best, score(Spread(after, rem, r, g)))
  }

  lemma OneSizeLess(after: NodeCounts, rc: seq<int>, r: int, g: int, score: Score, k: nat, before: Local, best: Local)
    requires BeatsLarger(after, rc, r, g, score, k, before)
    requires before.Best? ==> NoWorse(best, before.balance)
    requires forall rem :: (rem in Combos(rc, k) && Gives(after, rc, r, rem)
                            ==> NoWorse(best, score(Spread(after, rem, r, g))))
    ensures BeatsLarger(after, rc, r, g, score, k - 1, best)
  {
    forall rem | Gives(after, rc, r, rem) && |rem| > k - 1 ensures NoWorse(best, score(Spread(after, rem, r, g))) {
      if |rem| > k {
        assert NoWorse(before, score(Spread(after, rem, r, g)));
      }
    }
  }

  lemma LargerWorse(after: NodeCounts, rc: seq<int>, r: int, g: int, score: Score, k: nat, before: Local, best: Local)
    requires BeatsLarger(after, rc, r, g, score, k, before) && NewFirst(after, rc, k, r, g, score, before, best)
    ensures FirstRemainder(after, rc, r, g, score, best.remainder, best.balance)
  {
    forall other | Gives(after, rc, r, other) && |other| > k ensures best.balance < score(Spread(after, other, r, g)) {
      assert NoWorse(before, score(Spread(after, other, r, g)));
    }
  }

  /** The loop over subset sizes, from all nodes that can give down to one. */
  method BestRemainder(after: NodeCounts, rc: seq<int>, remainder: int, g: int, score: Score) returns (best: Local)
    requires Covers(after, rc) && NoDup(rc) && g > 0 && remainder >= 0 && remainder % g == 0
    requires remainder > 0 ==> SubsetsEnd(after, rc, remainder, g)
    ensures best.Best? ==> Achieves(after, rc, remainder, g, score, best.remainder, best.balance)
    ensures best.Best? ==> RemainderHeld(rc, remainder, best.remainder, best.held)
    ensures best.Best? ==> FirstRemainder(after, rc, remainder, g, score, best.remainder, best.balance)
    ensures forall rem, bal :: Achieves(after, rc, remainder, g, score, rem, bal) ==> NoWorse(best, bal)
  {
    if remainder == 0 {
      return Best(score(after), [], []);
    }
    best := NoneYet;
    var k := |rc|;
    while remainder > 0 && k >= 1
      invariant 0 <= k <= |rc|
      invariant best.Best? ==> Achieves(after, rc, remainder, g, score, best.remainder, best.balance)
      invariant best.Best? ==> RemainderHeld(rc, remainder, best.remainder, best.held)
      invariant best.Best? ==> FirstRemainder(after, rc, remainder, g, score, best.remainder, best.balance)
      invariant BeatsLarger(after, rc, remainder, g, score, k, best)
    {
      ghost var before := best;
      best := BestSubset(after, rc, k, remainder, g, score, best);
      if best != before {
        LargerWorse(after, rc, remainder, g, score, k, before, best);
      }
      OneSizeLess(after, rc, remainder, g, score, k, before, best);
      k := k - 1;
    }
  }

  /** The body of the callback for one combination: its best balance and remainder set. */
  method ScoreCombo(d: CPUDetails, numas: seq<int>, combo: seq<int>, n: int, g: int, score: Score) returns (best: Local)
    requires g > 0 && combo != [] && NoDup(combo) && Covers(NodeFree(d, numas), combo)
    requires n > 0 && n % g == 0 && ComboEnds(NodeFree(d, numas), combo, n, g)
    ensures best.Best? ==> Candidate(NodeFree(d, numas), combo, n, g, score, best.remainder, best.balance)
    ensures best.Best? ==> GivesRest(NodeFree(d, numas), combo, n, g, best.remainder, best.held)
    ensures best.Best? ==> FirstRest(NodeFree(d, numas), combo, n, g, score, best.remainder, best.balance)
    ensures forall rem, bal :: Candidate(NodeFree(d, numas), combo, n, g, score, rem, bal) ==> NoWorse(best, bal)
  {
    var ok := Admits(d, numas, combo, n, g);
    if !ok {
      return NoneYet;
    }
    ghost var free := NodeFree(d, numas);
    var share := Share(n, |combo|, g);
    var after := AfterShares(d, numas, combo, share);
    RemainderFacts(n, |combo|, g);
    SameCover(free, combo, share);
    var rc := RemainderNodes(after, combo, g);
    best := BestRemainder(after, rc, Rest(n, |combo|, g), g, score);
  }

  /** What is left of the set that gives what remains after the even shares of a combination. */
  ghost predicate GivesRest(free: NodeCounts, combo: seq<int>, n: int, g: int, rem: seq<int>, held: seq<int>) {
    && g > 0 && combo != [] && Covers(free, combo)
    && var after := After(free, combo, Share(n, |combo|, g));
       RemainderHeld(RemainderNodes(after, combo, g), Rest(n, |combo|, g), rem, held)
  }

  /** What the two slices of the choice hold when the search is over. */
  ghost predicate Holds(free: NodeCounts, numas: seq<int>, n: int, g: int, best: Choice) {
    best.Found? ==>
      && HeldAfter(numas, best.combo, best.balance == 0.0, best.held)
      && GivesRest(free, best.combo, n, g, best.remainder, best.heldRemainder)
  }

  lemma SameCover(free: NodeCounts, combo: seq<int>, share: int)
    requires Covers(free, combo)
    ensures Covers(After(free, combo, share), combo)
  {
  }

  ghost predicate Beaten(best: Choice, bal: real) {
    best.Found? && best.balance <= bal
  }

  /** The choice is a candidate of its own combination. */
  ghost predicate Chosen(free: NodeCounts, combos: seq<seq<int>>, n: int, g: int, score: Score, best: Choice) {
    best.Found? ==> best.combo in combos && Candidate(free, best.combo, n, g, score, best.remainder, best.balance)
  }

  /** No candidate of the given combinations scores better. */
  ghost predicate BeatsAll(free: NodeCounts, combos: seq<seq<int>>, n: int, g: int, score: Score, best: Choice) {
    forall combo, rem, bal :: combo in combos && Candidate(free, combo, n, g, score, rem, bal) ==> Beaten(best, bal)
  }

  lemma ZeroBeatsAll(free: NodeCounts, combos: seq<seq<int>>, n: int, g: int, score: Score, best: Choice)
    requires NonNegative(score) && best.Found? && best.balance == 0.0
    ensures BeatsAll(free, combos, n, g, score, best)
  {
    forall combo, rem, bal | combo in combos && Candidate(free, combo, n, g, score, rem, bal) ensures Beaten(best, bal) {
      ScoreNonNegative(free, combo, n, g, score, rem, bal);
    }
  }

  lemma OneMore(free: NodeCounts, combos: seq<seq<int>>, combo: seq<int>, n: int, g: int, score: Score,
                best: Choice, local: Local, next: Choice)
    requires BeatsAll(free, combos, n, g, score, best)
    requires forall rem, bal :: Candidate(free, combo, n, g, score, rem, bal) ==> NoWorse(local, bal)
    requires if local.Best? && (best.NotFound? || local.balance < best.balance)
             then next.Found? && next.balance == local.balance else next == best
    ensures BeatsAll(free, combos + [combo], n, g, score, next)
  {
    forall c, rem, bal | c in combos + [combo] && Candidate(free, c, n, g, score, rem, bal) ensures Beaten(next, bal) {
      if c == combo {
        assert NoWorse(local, bal);
      } else {
        assert c in combos;
        assert Beaten(best, bal);
      }
    }
  }

  lemma GetsHere(free: NodeCounts, combos: seq<seq<int>>, idx: int, n: int, g: int, score: Score, best: Choice)
    requires 0 <= idx < |combos| && Chosen(free, combos, n, g, score, best)
    requires BeatsAll(free, combos[..idx], n, g, score, best)
    requires NonNegative(score) && !(best.Found? && best.balance == 0.0)
    ensures NoZeroBefore(free, combos, idx, n, g, score)
  {
    forall i, rem, bal | 0 <= i < idx && Candidate(free, combos[i], n, g, score, rem, bal) ensures bal != 0.0 {
      assert combos[..idx][i] == combos[i];
      assert Beaten(best, bal);
      ScoreNonNegative(free, best.combo, n, g, score, best.remainder, best.balance);
    }
  }

  /** The best so far is the best of the first idx combinations. */
  ghost predicate BestUpTo(free: NodeCounts, combos: seq<seq<int>>, k: nat, n: int, g: int, score: Score, best: Choice,
                           at: int, idx: int)
    requires 0 <= idx <= |combos|
  {
    && SavedAt(free, combos, k, n, g, best, at, idx)
    && (best.Found? && best.balance == 0.0 ==> at == idx - 1)
    && Chosen(free, combos, n, g, score, best) && BeatsAll(free, combos[..idx], n, g, score, best)
    && (best.Found? ==> ComboEnds(free, best.combo, n, g))
  }

  /** What the callback finds for one combination. */
  ghost predicate Scored(free: NodeCounts, combo: seq<int>, n: int, g: int, score: Score, local: Local) {
    && (local.Best? ==> Candidate(free, combo, n, g, score, local.remainder, local.balance))
    && (local.Best? ==> GivesRest(free, combo, n, g, local.remainder, local.held))
    && forall rem, bal :: Candidate(free, combo, n, g, score, rem, bal) ==> NoWorse(local, bal)
  }

  lemma BestOneMore(free: NodeCounts, combos: seq<seq<int>>, k: nat, n: int, g: int, score: Score, best: Choice, at: int,
                    idx: int, local: Local)
    requires 0 <= idx < |combos| && BestUpTo(free, combos, k, n, g, score, best, at, idx)
    requires !(best.Found? && best.balance == 0.0) && |combos[idx]| == k && ComboEnds(free, combos[idx], n, g)
    requires Scored(free, combos[idx], n, g, score, local)
    ensures if local.Best? && (best.NotFound? || local.balance < best.balance)
            then BestUpTo(free, combos, k, n, g, score,
                          Found(local.balance, combos[idx], local.remainder, combos[idx], local.held), idx, idx + 1)
            else BestUpTo(free, combos, k, n, g, score, best, at, idx + 1)
  {
    assert combos[..idx + 1] == combos[..idx] + [combos[idx]];
    var better := local.Best? && (best.NotFound? || local.balance < best.balance);
    var next := if better then Found(local.balance, combos[idx], local.remainder, combos[idx], local.held) else best;
    OneMore(free, combos[..idx], combos[idx], n, g, score, best, local, next);
  }

  ghost predicate FirstUpTo(free: NodeCounts, combos: seq<seq<int>>, n: int, g: int, score: Score, best: Choice, at: int) {
    best.Found? ==>
      && FirstRest(free, best.combo, n, g, score, best.remainder, best.balance)
      && WorseCombos(free, combos, n, g, score, at, best.balance)
  }

  /** What beats the best so far beats all that came before it. */
  lemma EarlierWorse(free: NodeCounts, combos: seq<seq<int>>, n: int, g: int, score: Score, best: Choice, idx: int, local: Local)
    requires 0 <= idx < |combos| && BeatsAll(free, combos[..idx], n, g, score, best)
    ensures local.Best? && (best.NotFound? || local.balance < best.balance) ==>
      WorseCombos(free, combos, n, g, score, idx, local.balance)
  {
    if local.Best? && (best.NotFound? || local.balance < best.balance) {
      forall i, rem, b | 0 <= i < idx && Candidate(free, combos[i], n, g, score, rem, b) ensures local.balance < b {
        assert combos[..idx][i] == combos[i];
        assert Beaten(best, b);
      }
    }
  }

  lemma FirstIsPlan(free: NodeCounts, numas: seq<int>, k: nat, n: int, g: int, score: Score, best: Choice, at: int)
    requires best.Found? && |best.combo| == k && 0 <= at < |Combos(numas, k)| && Combos(numas, k)[at] == best.combo
    requires FirstUpTo(free, Combos(numas, k), n, g, score, best, at)
    ensures FirstPlan(free, numas, n, g, score, best)
  {
  }

  /** The search over all combinations of k nodes. It stops early at balance 0, which no
      non-negative score beats. */
  method SearchSize(d: CPUDetails, numas: seq<int>, k: nat, n: int, g: int, score: Score) returns (best: Choice)
    requires NoDup(numas) && k >= 1 && n > 0 && g > 0 && n % g == 0
    requires SizeEnds(NodeFree(d, numas), Combos(numas, k), n, g, score) && NonNegative(score)
    ensures Chosen(NodeFree(d, numas), Combos(numas, k), n, g, score, best)
    ensures best.Found? ==> ComboEnds(NodeFree(d, numas), best.combo, n, g)
    ensures BeatsAll(NodeFree(d, numas), Combos(numas, k), n, g, score, best)
    ensures Holds(NodeFree(d, numas), numas, n, g, best)
    ensures FirstPlan(NodeFree(d, numas), numas, n, g, score, best)
  {
    ghost var free := NodeFree(d, numas);
    best := NotFound;
    var combos := Combos(numas, k);
    var at := -1;
    for idx := 0 to |combos|
      invariant BestUpTo(free, combos, k, n, g, score, best, at, idx)
      invariant FirstUpTo(free, combos, n, g, score, best, at)
    {
      var combo := combos[idx];
      if best.Found? && best.balance == 0.0 {
        FirstIsPlan(free, numas, k, n, g, score, best, at);
        ZeroBeatsAll(free, combos, n, g, score, best);
        best := SaveHeld(free, numas, k, n, g, score, best, at, idx + 1);
        return;
      }
      CombosElement(numas, k, combo);
      SubsetCovered(free, numas, combo);
      GetsHere(free, combos, idx, n, g, score, best);
      var local := ScoreCombo(d, numas, combo, n, g, score);
      BestOneMore(free, combos, k, n, g, score, best, at, idx, local);
      EarlierWorse(free, combos, n, g, score, best, idx, local);
      if local.Best? && (best.NotFound? || local.balance < best.balance) {
        best, at := Found(local.balance, combo, local.remainder, combo, local.held), idx;
      }
    }
    assert combos[..|combos|] == combos;
    if best.Found? {
      FirstIsPlan(free, numas, k, n, g, score, best, at);
      best := SaveHeld(free, numas, k, n, g, score, best, at, |combos|);
    }
  }

  /** Reads what the slice of the best combination holds after v calls. */
  method SaveHeld(ghost free: NodeCounts, numas: seq<int>, k: nat, ghost n: int, ghost g: int, ghost score: Score,
                  best: Choice, at: nat, v: nat) returns (saved: Choice)
    requires k >= 1 && best.Found? && at < v <= |Combos(numas, k)|
    requires SavedAt(free, Combos(numas, k), k, n, g, best, at, |Combos(numas, k)|)
    requires v == |Combos(numas, k)| || (best.balance == 0.0 && v == at + 2)
    requires Chosen(free, Combos(numas, k), n, g, score, best) && BeatsAll(free, Combos(numas, k), n, g, score, best)
    ensures saved.Found? && saved == best.(held := saved.held) && Holds(free, numas, n, g, saved)
    ensures Chosen(free, Combos(numas, k), n, g, score, saved) && BeatsAll(free, Combos(numas, k), n, g, score, saved)
  {
    saved := best.(held := SharedSlices.Held(numas, k, at, v));
    SameBeats(free, Combos(numas, k), n, g, score, best, saved);
    HoldsNow(free, numas, n, g, saved, at, v);
  }

  lemma SameBeats(free: NodeCounts, combos: seq<seq<int>>, n: int, g: int, score: Score, best: Choice, saved: Choice)
    requires best.Found? && saved.Found? && saved == best.(held := saved.held)
    requires Chosen(free, combos, n, g, score, best) && BeatsAll(free, combos, n, g, score, best)
    ensures Chosen(free, combos, n, g, score, saved) && BeatsAll(free, combos, n, g, score, saved)
  {
    forall combo, rem, bal | combo in combos && Candidate(free, combo, n, g, score, rem, bal) ensures Beaten(saved, bal) {
      assert Beaten(best, bal);
    }
  }

  lemma HoldsNow(free: NodeCounts, numas: seq<int>, n: int, g: int, saved: Choice, at: nat, v: nat)
    requires saved.Found? && saved.combo != [] && at < v <= |Combos(numas, |saved.combo|)|
    requires saved.combo == Combos(numas, |saved.combo|)[at]
    requires v == |Combos(numas, |saved.combo|)| || (saved.balance == 0.0 && v == at + 2)
    requires saved.held == SharedSlices.Held(numas, |saved.combo|, at, v)
    requires GivesRest(free, saved.combo, n, g, saved.remainder, saved.heldRemainder)
    ensures Holds(free, numas, n, g, saved)
  {
  }

  /** The best so far is the combination at index `at`. */
  ghost predicate SavedAt(free: NodeCounts, combos: seq<seq<int>>, k: nat, n: int, g: int, best: Choice, at: int, idx: int)
  {
    best.Found? ==>
      && 0 <= at < idx <= |combos| && best.combo == combos[at] && |best.combo| == k
      && GivesRest(free, best.combo, n, g, best.remainder, best.heldRemainder)
  }

  lemma ScoreNonNegative(free: NodeCounts, combo: seq<int>, n: int, g: int, score: Score, rem: seq<int>, bal: real)
    requires NonNegative(score) && Candidate(free, combo, n, g, score, rem, bal)
    ensures bal >= 0.0
  {
  }
}
