/** When one cache that cuts NUMA nodes is the only unit wholly free, the shortfall of the
    packed allocator is decided by the size of the request alone. */
module LoneCut {
  import opened Sorting
  import opened Topology
  import opened UnitOrder
  import opened PackedModel
  import opened PackedExact

  /** Cache u is wholly free and cuts NUMA nodes; no NUMA node, socket or other cache is free. */
  ghost predicate Lone(t: CPUTopology, free: set<int>, u: int) {
    && u in Units(t.cpuDetails, Uncore) && Members(t.cpuDetails, Uncore, u) <= free && CutsNodes(t.cpuDetails, u)
    && (forall k :: k in Units(t.cpuDetails, Numa) ==> !(Members(t.cpuDetails, Numa, k) <= free))
    && (forall k :: k in Units(t.cpuDetails, Socket) ==> !(Members(t.cpuDetails, Socket, k) <= free))
    && (forall k :: k in Units(t.cpuDetails, Uncore) && k != u ==> !(Members(t.cpuDetails, Uncore, k) <= free))
  }

  lemma NothingTaken(t: CPUTopology, free: set<int>, l: Level, a: Acc)
    requires WellFormed(t) && Safe(t, free, a) && a.result == {}
    requires forall k :: k in Units(t.cpuDetails, l) ==> !(Members(t.cpuDetails, l, k) <= free)
    ensures TakeFull(t, l, a) == a
  {
    FreeUnitsExact(t, free, l, a);
    SafeKeys(t, free, a);
    var us := FreeUnits(t, l, a.details);
    if us != [] {
      HeadTail(us);
    }
  }

  // ---- the list of free caches names u at least twice and nothing else

  lemma {:induction false} WithinHolds(d: CPUDetails, parents: seq<int>, outer: Level, inner: Level, i: nat, u: int)
    requires i < |parents| && u in UnitsIn(d, inner, outer, parents[i])
    ensures u in SortWithin(d, parents, outer, inner)
    decreases i
  {
    if i > 0 {
      assert parents[1..][i - 1] == parents[i];
      WithinHolds(d, parents[1..], outer, inner, i - 1, u);
    }
  }

  lemma WithinFirst(d: CPUDetails, parents: seq<int>, outer: Level, inner: Level, j: nat, u: int)
    requires 0 < j < |parents|
    requires u in UnitsIn(d, inner, outer, parents[0]) && u in UnitsIn(d, inner, outer, parents[j])
    ensures Repeats(SortWithin(d, parents, outer, inner), u)
  {
    assert parents[1..][j - 1] == parents[j];
    WithinHolds(d, parents[1..], outer, inner, j - 1, u);
    RepeatsAcross(SortedIn(d, inner, outer, parents[0]), SortWithin(d, parents[1..], outer, inner), u);
  }

  /** A unit in two parents is listed once for each. */
  lemma {:induction false} WithinTwice(d: CPUDetails, parents: seq<int>, outer: Level, inner: Level, i: nat, j: nat, u: int)
    requires i < j < |parents|
    requires u in UnitsIn(d, inner, outer, parents[i]) && u in UnitsIn(d, inner, outer, parents[j])
    ensures Repeats(SortWithin(d, parents, outer, inner), u)
    decreases i
  {
    if i == 0 {
      WithinFirst(d, parents, outer, inner, j, u);
    } else {
      assert parents[1..][i - 1] == parents[i] && parents[1..][j - 1] == parents[j];
      WithinTwice(d, parents[1..], outer, inner, i - 1, j - 1, u);
      RepeatsAfter(SortedIn(d, inner, outer, parents[0]), SortWithin(d, parents[1..], outer, inner), u);
    }
  }

  lemma RepeatsAcross(head: seq<int>, rest: seq<int>, u: int)
    requires u in head && u in rest
    ensures Repeats(head + rest, u)
  {
    var x := IndexOf(head, u);
    var y := IndexOf(rest, u);
    assert (head + rest)[x] == (head + rest)[|head| + y] == u;
  }

  lemma RepeatsAfter(head: seq<int>, rest: seq<int>, u: int)
    requires Repeats(rest, u)
    ensures Repeats(head + rest, u)
  {
    var i, j :| 0 <= i < j < |rest| && rest[i] == rest[j] == u;
    assert (head + rest)[|head| + i] == (head + rest)[|head| + j] == u;
  }

  lemma {:induction false} FilterRepeatsToo(t: CPUTopology, l: Level, d: CPUDetails, us: seq<int>, u: int)
    requires Repeats(us, u) && IsFree(t, l, d, u)
    ensures Repeats(Filter(t, l, d, us), u)
    decreases |us|
  {
    var i, j :| 0 <= i < j < |us| && us[i] == us[j] == u;
    var rest := us[1..];
    var kept := Filter(t, l, d, rest);
    assert rest[j - 1] == u;
    if i == 0 {
      RepeatsAcross([u], kept, u);
    } else {
      assert rest[i - 1] == u;
      FilterRepeatsToo(t, l, d, rest, u);
      RepeatsAfter([us[0]], kept, u);
    }
  }

  lemma CutRepeats(t: CPUTopology, free: set<int>, a: Acc, u: int)
    requires WellFormed(t) && Safe(t, free, a) && u in Units(t.cpuDetails, Uncore)
    requires Members(t.cpuDetails, Uncore, u) <= a.details.Keys && !InOneNuma(t.cpuDetails, u)
    ensures Repeats(FreeUnits(t, Uncore, a.details), u)
  {
    var d := a.details;
    var nodes := SortAvailable(d, ChainOf(t, Numa));
    AvailableElements(d, ChainOf(t, Numa));
    var x, y :| x in Members(t.cpuDetails, Uncore, u) && y in Members(t.cpuDetails, Uncore, u)
                && UnitOf(t.cpuDetails, Numa, x) != UnitOf(t.cpuDetails, Numa, y);
    assert x in d && y in d && UnitOf(d, Numa, x) in Units(d, Numa) && UnitOf(d, Numa, y) in Units(d, Numa);
    assert UnitOf(d, Uncore, x) == u && UnitOf(d, Uncore, y) == u;
    var i := IndexOf(nodes, UnitOf(d, Numa, x));
    var j := IndexOf(nodes, UnitOf(d, Numa, y));
    WithinTwice(d, nodes, Numa, Uncore, if i < j then i else j, if i < j then j else i, u);
    CacheChain(t, d);
    FreeMeansWhole(t, free - a.result, Uncore, u);
    FilterRepeatsToo(t, Uncore, d, SortAvailable(d, ChainOf(t, Uncore)), u);
  }

  lemma CacheChain(t: CPUTopology, d: CPUDetails)
    ensures SortAvailable(d, ChainOf(t, Uncore)) == SortWithin(d, SortAvailable(d, ChainOf(t, Numa)), Numa, Uncore)
  {
    SortStep(d, ChainOf(t, Uncore), ChainOf(t, Numa));
  }

  // ---- what the pass claims of such a list

  lemma {:induction false} ClaimedOfOne(t: CPUTopology, l: Level, a: Acc, us: seq<int>, u: int)
    requires u in Units(t.cpuDetails, l) && forall i :: 0 <= i < |us| ==> us[i] == u
    ensures var claimed := Claimed(t, l, a, us);
      var size := |Members(t.cpuDetails, l, u)|;
      && (a.needed < size ==> claimed == [])
      && (size <= a.needed < 2 * size ==> |claimed| <= 1)
      && (a.needed >= 2 * size && |us| >= 2 ==> |claimed| >= 2 && claimed[0] == claimed[1])
    decreases |us|
  {
    if us != [] {
      var rest, cpus := us[1..], Members(t.cpuDetails, l, u);
      assert forall i :: 0 <= i < |rest| ==> rest[i] == us[i + 1];
      ClaimedOfOne(t, l, a, rest, u);
      ClaimedOfOne(t, l, Take(a, cpus), rest, u);
      if a.needed >= 2 * |cpus| && |us| >= 2 {
        assert rest[0] == u;
        assert Claimed(t, l, Take(a, cpus), rest)[0] == u;
      }
    }
  }

  /** With a single wholly free unit, a cache that cuts NUMA nodes, a request is served exactly
      if and only if it is smaller than an average cache or than twice this one. */
  lemma LoneCutIff(t: CPUTopology, available: set<int>, n: int, strategy: string, u: int)
    requires WellFormed(t) && 1 <= n <= |t.cpuDetails.Keys * available|
    requires Lone(t, t.cpuDetails.Keys * available, u)
    ensures Packed(t, available, n, strategy, true).Ok?
    ensures |Packed(t, available, n, strategy, true).cpus| == n
        <==> n < t.CPUsPerUncore() || n < 2 * |Members(t.cpuDetails, Uncore, u)|
  {
    PackedExactIff(t, available, n, strategy, true);
    LoneStart(t, available, n, u);
    LoneClaims(t, t.cpuDetails.Keys * available, NewAcc(t, available, n), u);
  }

  lemma LoneStart(t: CPUTopology, available: set<int>, n: int, u: int)
    requires WellFormed(t) && Lone(t, t.cpuDetails.Keys * available, u)
    ensures AtCaches(t, available, n) == NewAcc(t, available, n)
    ensures Safe(t, t.cpuDetails.Keys * available, NewAcc(t, available, n))
  {
    var free, a := t.cpuDetails.Keys * available, NewAcc(t, available, n);
    KeepMembers(t.cpuDetails, available, Cpu, 0);
    assert a.details == KeepOnly(t.cpuDetails, free - a.result);
    NothingTaken(t, free, FirstLevel(t), a);
    NothingTaken(t, free, SecondLevel(t), a);
  }

  lemma LoneClaims(t: CPUTopology, free: set<int>, a: Acc, u: int)
    requires WellFormed(t) && Safe(t, free, a) && a.result == {} && Lone(t, free, u)
    ensures NoDup(Claimed(t, Uncore, a, FreeUnits(t, Uncore, a.details)))
        <==> a.needed < 2 * |Members(t.cpuDetails, Uncore, u)|
  {
    var us := FreeUnits(t, Uncore, a.details);
    SafeKeys(t, free, a);
    FreeUnitsExact(t, free, Uncore, a);
    CutRepeats(t, free, a, u);
    forall i | 0 <= i < |us| ensures us[i] == u {
      var k := us[i];
      assert k in us;
    }
    ClaimedOfOne(t, Uncore, a, us, u);
  }
}
