/** Which CPUs packed allocation hands out, said of the result alone: whole units of the larger
    of socket and NUMA node first, then of the other, then cores, then single CPUs, and within
    each level in the order of free CPUs and ids from the outermost level down. */
module StageOrder {
  import opened Sorting
  import opened Topology
  import opened UnitOrder
  import opened PackedModel

  // ---- what it means for the result

  ghost predicate Whole(t: CPUTopology, l: Level, s: set<int>, u: int) {
    u in Units(t.cpuDetails, l) && Members(t.cpuDetails, l, u) <= s
  }

  /** The CPUs of the units that were wholly free and are handed out whole. */
  ghost function TakenWhole(t: CPUTopology, l: Level, free: set<int>, s: set<int>): set<int> {
    set c | c in t.cpuDetails && Whole(t, l, free * s, UnitOf(t.cpuDetails, l, c))
  }

  /** Those of them that come before unit u. */
  ghost function TakenBefore(t: CPUTopology, chain: seq<Level>, l: Level, free: set<int>, s: set<int>, u: int): set<int> {
    set c | c in TakenWhole(t, l, free, s)
            && UnitBefore(KeepOnly(t.cpuDetails, free), chain, l, UnitOf(t.cpuDetails, l, c), u)
  }

  /** A wholly free unit is handed out whole exactly when it fits into what the units before it
      leave of the n CPUs asked for. */
  ghost predicate TakenInOrder(t: CPUTopology, chain: seq<Level>, l: Level, free: set<int>, n: int, s: set<int>) {
    forall u :: Whole(t, l, free, u) ==>
      (Members(t.cpuDetails, l, u) <= s
       <==> |TakenBefore(t, chain, l, free, s, u)| + |Members(t.cpuDetails, l, u)| <= n)
  }

  /** The free CPUs that come before c. */
  ghost function FreeBefore(t: CPUTopology, chain: seq<Level>, free: set<int>, c: int): set<int>
    requires c in t.cpuDetails && c in free
  {
    set x | x in t.cpuDetails && x in free && PathBefore(KeepOnly(t.cpuDetails, free), chain, x, c)
  }

  /** The first n of the free CPUs are handed out. */
  ghost predicate FirstTaken(t: CPUTopology, chain: seq<Level>, free: set<int>, n: int, s: set<int>) {
    forall c :: c in t.cpuDetails && c in free ==> (c in s <==> |FreeBefore(t, chain, free, c)| < n)
  }

  /** Units of one level in order, then units of a second one from what is left. */
  ghost predicate TwoLevels(t: CPUTopology, outer: Level, inner: Level, free: set<int>, n: int, s: set<int>) {
    var taken := TakenWhole(t, outer, free, s);
    && TakenInOrder(t, [outer], outer, free, n, s)
    && TakenInOrder(t, [outer, inner], inner, free - taken, n - |taken|, s)
  }

  /** What is handed out of the given CPUs comes before what is not. */
  ghost predicate TakenEarlier(t: CPUTopology, chain: seq<Level>, free: set<int>, s: set<int>) {
    forall x, y :: x in free && y in free && x in s && y !in s && x in t.cpuDetails && y in t.cpuDetails
      ==> PathBefore(KeepOnly(t.cpuDetails, free), chain, x, y)
  }

  ghost predicate WholeUnitsFirst(t: CPUTopology, free: set<int>, n: int, s: set<int>) {
    if t.numSockets < t.numNUMANodes then TwoLevels(t, Socket, Numa, free, n, s)
    else TwoLevels(t, Numa, Socket, free, n, s)
  }

  // ---- one stage

  lemma {:induction false} TakeUnitsFrom(t: CPUTopology, l: Level, a: Acc, us: seq<int>)
    ensures forall c :: c in TakeUnits(t, l, a, us).result ==>
      c in a.result || (c in t.cpuDetails && UnitOf(t.cpuDetails, l, c) in us)
    decreases |us|
  {
    if us != [] {
      var cpus := Members(t.cpuDetails, l, us[0]);
      TakeUnitsFrom(t, l, if a.needed >= |cpus| then Take(a, cpus) else a, us[1..]);
    }
  }

  /** What the stage claims of the first i units of its list. */
  ghost function ClaimedOf(t: CPUTopology, l: Level, a: Acc, us: seq<int>, i: nat): set<int>
    requires i <= |us|
  {
    set c | c in TakeUnits(t, l, a, us).result && c !in a.result && c in t.cpuDetails
            && UnitOf(t.cpuDetails, l, c) in us[..i]
  }

  /** Different units of the level, none of which is claimed yet. */
  ghost predicate Unclaimed(t: CPUTopology, l: Level, result: set<int>, us: seq<int>) {
    && NoDup(us)
    && forall i :: 0 <= i < |us| ==> us[i] in Units(t.cpuDetails, l) && Members(t.cpuDetails, l, us[i]) !! result
  }

  lemma UnclaimedTail(t: CPUTopology, l: Level, a: Acc, us: seq<int>)
    requires us != [] && Unclaimed(t, l, a.result, us)
    ensures var cpus := Members(t.cpuDetails, l, us[0]);
      && Unclaimed(t, l, a.result, us[1..]) && Unclaimed(t, l, Take(a, cpus).result, us[1..]) && us[0] !in us[1..]
  {
    assert forall i :: 0 < i < |us| ==> us[1..][i - 1] == us[i];
  }

  /** The head of the list is claimed exactly when it fits. */
  lemma HeadClaimed(t: CPUTopology, l: Level, a: Acc, us: seq<int>)
    requires us != [] && Unclaimed(t, l, a.result, us)
    ensures var cpus, b := Members(t.cpuDetails, l, us[0]), TakeUnits(t, l, a, us);
      if a.needed >= |cpus| then cpus <= b.result else cpus !! b.result && !(cpus <= b.result)
  {
    var cpus := Members(t.cpuDetails, l, us[0]);
    var a' := if a.needed >= |cpus| then Take(a, cpus) else a;
    UnclaimedTail(t, l, a, us);
    TakeUnitsShrinks(t, l, a', us[1..]);
    TakeUnitsFrom(t, l, a', us[1..]);
    MembersNonEmpty(t.cpuDetails, l, us[0]);
    if a.needed < |cpus| {
      forall c | c in cpus ensures c !in TakeUnits(t, l, a, us).result {
        assert UnitOf(t.cpuDetails, l, c) == us[0];
      }
      var c := Pick(cpus);
      assert c !in TakeUnits(t, l, a, us).result;
    }
  }

  /** A unit is claimed exactly when it fits into what is claimed before it leaves. */
  lemma {:induction false} ClaimedIff(t: CPUTopology, l: Level, a: Acc, us: seq<int>, i: nat)
    requires i < |us| && Unclaimed(t, l, a.result, us)
    ensures Members(t.cpuDetails, l, us[i]) <= TakeUnits(t, l, a, us).result
      <==> |ClaimedOf(t, l, a, us, i)| + |Members(t.cpuDetails, l, us[i])| <= a.needed
    decreases |us|
  {
    HeadClaimed(t, l, a, us);
    if i == 0 {
      assert ClaimedOf(t, l, a, us, 0) == {};
    } else {
      var cpus := Members(t.cpuDetails, l, us[0]);
      var a' := if a.needed >= |cpus| then Take(a, cpus) else a;
      UnclaimedTail(t, l, a, us);
      ClaimedIff(t, l, a', us[1..], i - 1);
      ClaimedStep(t, l, a, us, i);
    }
  }

  lemma InPrefix(us: seq<int>, i: nat, u: int)
    requires 0 < i <= |us|
    ensures u in us[..i] <==> u == us[0] || u in us[1..][..i - 1]
  {
    assert us[..i] == [us[0]] + us[1..][..i - 1];
  }

  lemma ClaimedStep(t: CPUTopology, l: Level, a: Acc, us: seq<int>, i: nat)
    requires 0 < i < |us| && Unclaimed(t, l, a.result, us)
    ensures var cpus := Members(t.cpuDetails, l, us[0]);
      |ClaimedOf(t, l, a, us, i)|
      == if a.needed >= |cpus| then |ClaimedOf(t, l, Take(a, cpus), us[1..], i - 1)| + |cpus|
         else |ClaimedOf(t, l, a, us[1..], i - 1)|
  {
    var cpus := Members(t.cpuDetails, l, us[0]);
    HeadClaimed(t, l, a, us);
    UnclaimedTail(t, l, a, us);
    if a.needed >= |cpus| {
      ClaimedMore(t, l, a, us, i, cpus, ClaimedOf(t, l, Take(a, cpus), us[1..], i - 1));
    } else {
      ClaimedSame(t, l, a, us, i, cpus, ClaimedOf(t, l, a, us[1..], i - 1));
    }
  }

  lemma ClaimedMore(t: CPUTopology, l: Level, a: Acc, us: seq<int>, i: nat, cpus: set<int>, rest: set<int>)
    requires 0 < i < |us| && cpus == Members(t.cpuDetails, l, us[0]) && a.needed >= |cpus| && cpus !! a.result
    requires rest == ClaimedOf(t, l, Take(a, cpus), us[1..], i - 1) && cpus <= TakeUnits(t, l, a, us).result
    requires us[0] !in us[1..]
    ensures |ClaimedOf(t, l, a, us, i)| == |rest| + |cpus|
  {
    forall c ensures c in ClaimedOf(t, l, a, us, i) <==> c in rest || c in cpus {
      if c in t.cpuDetails {
        InPrefix(us, i, UnitOf(t.cpuDetails, l, c));
      }
    }
    forall c | c in rest ensures c !in cpus {
      assert c !in Take(a, cpus).result;
    }
    SumOfParts(ClaimedOf(t, l, a, us, i), rest, cpus);
  }

  lemma SumOfParts(all: set<int>, a: set<int>, b: set<int>)
    requires a !! b && forall c :: c in all <==> c in a || c in b
    ensures |all| == |a| + |b|
  {
    forall c ensures c in all <==> c in a + b {
      assert c in all <==> c in a || c in b;
    }
    assert all == a + b;
  }

  lemma ClaimedSame(t: CPUTopology, l: Level, a: Acc, us: seq<int>, i: nat, cpus: set<int>, rest: set<int>)
    requires 0 < i < |us| && cpus == Members(t.cpuDetails, l, us[0]) && a.needed < |cpus|
    requires rest == ClaimedOf(t, l, a, us[1..], i - 1) && cpus !! TakeUnits(t, l, a, us).result
    ensures ClaimedOf(t, l, a, us, i) == rest
  {
    forall c ensures c in ClaimedOf(t, l, a, us, i) <==> c in rest {
      if c in t.cpuDetails {
        InPrefix(us, i, UnitOf(t.cpuDetails, l, c));
        assert UnitOf(t.cpuDetails, l, c) == us[0] ==> c in cpus;
      }
    }
  }

  // ---- the list of a stage is in the order of its chain

  lemma BeforeOnce(w: map<int, int>, a: int, b: int)
    requires a in w && b in w && Before(w, a, b)
    ensures a != b && !Before(w, b, a)
  {
  }

  lemma PathOneWay(d: CPUDetails, chain: seq<Level>, a: int, b: int)
    requires a in d && b in d && PathBefore(d, chain, a, b)
    ensures !PathBefore(d, chain, b, a)
  {
    var k :| 0 <= k < |chain| && DiffersAt(d, chain, k, a, b);
    forall m | 0 <= m < |chain| ensures !DiffersAt(d, chain, m, b, a) {
      DiffersOneWay(d, chain, k, m, a, b);
    }
  }

  lemma DiffersOneWay(d: CPUDetails, chain: seq<Level>, k: nat, m: nat, a: int, b: int)
    requires a in d && b in d && k < |chain| && m < |chain| && DiffersAt(d, chain, k, a, b)
    ensures !DiffersAt(d, chain, m, b, a)
  {
    BeforeOnce(Counts(d, chain[k]), UnitOf(d, chain[k], a), UnitOf(d, chain[k], b));
  }

  lemma UnitOneWay(d: CPUDetails, chain: seq<Level>, l: Level, u: int, v: int)
    requires u in Units(d, l) && v in Units(d, l) && UnitBefore(d, chain, l, u, v)
    ensures u != v && !UnitBefore(d, chain, l, v, u)
  {
    MembersNonEmpty(d, l, u);
    MembersNonEmpty(d, l, v);
    var a := Pick(Members(d, l, u));
    var b := Pick(Members(d, l, v));
    PathOneWay(d, chain, a, b);
    PathIrreflexive(d, chain, a);
  }

  lemma FilterIn(t: CPUTopology, l: Level, d: CPUDetails, us: seq<int>, i: nat) returns (j: nat)
    requires i < |Filter(t, l, d, us)|
    ensures j < |us| && Filter(t, l, d, us)[i] == us[j]
  {
    j := IndexOf(us, Filter(t, l, d, us)[i]);
  }

  lemma {:induction false} FilterOrdered(t: CPUTopology, l: Level, d: CPUDetails, chain: seq<Level>, us: seq<int>)
    requires ListOrdered(d, chain, l, us)
    ensures ListOrdered(d, chain, l, Filter(t, l, d, us))
    decreases |us|
  {
    if us != [] {
      var rest, kept := us[1..], Filter(t, l, d, us[1..]);
      assert forall i :: 0 <= i < |rest| ==> rest[i] == us[i + 1];
      FilterOrdered(t, l, d, chain, rest);
      if IsFree(t, l, d, us[0]) {
        forall j | 0 <= j < |kept| ensures UnitBefore(d, chain, l, us[0], kept[j]) {
          var k := FilterIn(t, l, d, rest, j);
          assert rest[k] == us[k + 1];
        }
        HeadOrdered(d, chain, l, us[0], kept);
      }
    }
  }

  lemma HeadOrdered(d: CPUDetails, chain: seq<Level>, l: Level, u: int, rest: seq<int>)
    requires ListOrdered(d, chain, l, rest) && forall j :: 0 <= j < |rest| ==> UnitBefore(d, chain, l, u, rest[j])
    ensures ListOrdered(d, chain, l, [u] + rest)
  {
    var us := [u] + rest;
    forall i, j | 0 <= i < j < |us| ensures UnitBefore(d, chain, l, us[i], us[j]) {
      assert us[j] == rest[j - 1] && (i > 0 ==> us[i] == rest[i - 1]);
    }
  }

  /** The free units of a level, each once, in order. */
  ghost predicate StageList(t: CPUTopology, chain: seq<Level>, l: Level, free: set<int>, us: seq<int>) {
    && NoDup(us) && ListOrdered(KeepOnly(t.cpuDetails, free), chain, l, us)
    && (forall u :: u in us <==> Whole(t, l, free, u))
    && forall u :: u in us ==> u in Units(KeepOnly(t.cpuDetails, free), l)
  }

  /** Levels whose units are claimed whole, and listed once. */
  ghost predicate Staged(t: CPUTopology, l: Level) {
    l == Numa || l == Socket || l == Core || (l == Uncore && Nested(t.cpuDetails, Uncore, Numa))
  }

  lemma FreeList(t: CPUTopology, free: set<int>, l: Level, a: Acc)
    requires WellFormed(t) && Safe(t, free, a) && Staged(t, l)
    ensures StageList(t, ChainOf(t, l), l, free - a.result, FreeUnits(t, l, a.details))
  {
    var us, chain := FreeUnits(t, l, a.details), ChainOf(t, l);
    FreeUnitsExact(t, free, l, a);
    SafeKeys(t, free, a);
    ChainNested(t, l, free - a.result);
    AvailableNoDup(a.details, chain);
    AvailableOrdered(a.details, chain);
    AvailableElements(a.details, chain);
    FilterOrdered(t, l, a.details, chain, SortAvailable(a.details, chain));
  }

  // ---- what the stage leaves is not handed out whole later

  lemma {:induction false} AllOrNone(t: CPUTopology, l: Level, a: Acc, us: seq<int>, i: nat)
    requires i < |us| && Unclaimed(t, l, a.result, us)
    ensures var cpus, b := Members(t.cpuDetails, l, us[i]), TakeUnits(t, l, a, us);
      cpus <= b.result || cpus !! b.result
    decreases |us|
  {
    HeadClaimed(t, l, a, us);
    if i > 0 {
      UnclaimedTail(t, l, a, us);
      var cpus := Members(t.cpuDetails, l, us[0]);
      AllOrNone(t, l, if a.needed >= |cpus| then Take(a, cpus) else a, us[1..], i - 1);
    }
  }

  /** The result s grows out of state b, by no more CPUs than b needs. */
  ghost predicate Finishes(free: set<int>, b: Acc, s: set<int>) {
    b.result <= s <= free && |s - b.result| <= b.needed
  }

  /** The units claimed in the stage are the wholly free ones that are handed out whole. */
  lemma ClaimedFinal(t: CPUTopology, free: set<int>, l: Level, a: Acc, us: seq<int>, i: nat, s: set<int>)
    requires Safe(t, free, a) && Unclaimed(t, l, a.result, us) && i < |us|
    requires Members(t.cpuDetails, l, us[i]) <= free
    requires Safe(t, free, TakeUnits(t, l, a, us)) && Maximal(t, l, TakeUnits(t, l, a, us))
    requires Finishes(free, TakeUnits(t, l, a, us), s)
    ensures Members(t.cpuDetails, l, us[i]) <= s <==> Members(t.cpuDetails, l, us[i]) <= TakeUnits(t, l, a, us).result
  {
    var b, cpus := TakeUnits(t, l, a, us), Members(t.cpuDetails, l, us[i]);
    AllOrNone(t, l, a, us, i);
    SafeKeys(t, free, b);
    if cpus !! b.result && cpus <= s {
      assert cpus <= b.details.Keys;
      SubsetSize(cpus, s - b.result);
    }
  }

  lemma {:induction false} InPart(us: seq<int>, i: nat, u: int)
    requires i <= |us|
    ensures u in us[..i] <==> exists j :: 0 <= j < i && us[j] == u
  {
  }

  lemma BeforeIs(t: CPUTopology, chain: seq<Level>, l: Level, free: set<int>, a: Acc, us: seq<int>, i: nat, s: set<int>)
    requires i < |us| && StageList(t, chain, l, free, us) && Unclaimed(t, l, a.result, us) && free !! a.result
    requires TakeUnits(t, l, a, us).result <= s
    requires forall j :: 0 <= j < |us| ==>
      (Members(t.cpuDetails, l, us[j]) <= s <==> Members(t.cpuDetails, l, us[j]) <= TakeUnits(t, l, a, us).result)
    ensures TakenBefore(t, chain, l, free, s, us[i]) == ClaimedOf(t, l, a, us, i)
  {
    forall c ensures c in TakenBefore(t, chain, l, free, s, us[i]) <==> c in ClaimedOf(t, l, a, us, i) {
      if c in t.cpuDetails {
        BeforeIsAt(t, chain, l, free, a, us, i, s, c);
      }
    }
  }

  lemma BeforeIsAt(t: CPUTopology, chain: seq<Level>, l: Level, free: set<int>, a: Acc, us: seq<int>, i: nat, s: set<int>,
                   c: int)
    requires i < |us| && StageList(t, chain, l, free, us) && Unclaimed(t, l, a.result, us) && free !! a.result
    requires TakeUnits(t, l, a, us).result <= s && c in t.cpuDetails
    requires forall j :: 0 <= j < |us| ==>
      (Members(t.cpuDetails, l, us[j]) <= s <==> Members(t.cpuDetails, l, us[j]) <= TakeUnits(t, l, a, us).result)
    ensures c in TakenBefore(t, chain, l, free, s, us[i]) <==> c in ClaimedOf(t, l, a, us, i)
  {
    var v, d := UnitOf(t.cpuDetails, l, c), KeepOnly(t.cpuDetails, free);
    assert c in Members(t.cpuDetails, l, v);
    if c in TakenBefore(t, chain, l, free, s, us[i]) {
      assert Whole(t, l, free, v) && Members(t.cpuDetails, l, v) <= s;
      var j := IndexOf(us, v);
      EarlierIndex(d, chain, l, us, j, i);
      assert us[..i][j] == v;
    }
    if c in ClaimedOf(t, l, a, us, i) {
      var j := IndexOf(us[..i], v);
      AllOrNone(t, l, a, us, j);
      assert us[j] in us && UnitBefore(d, chain, l, us[j], us[i]);
      assert Members(t.cpuDetails, l, v) <= s && Whole(t, l, free, v);
      assert Whole(t, l, free * s, v);
    }
  }

  lemma EarlierIndex(d: CPUDetails, chain: seq<Level>, l: Level, us: seq<int>, j: nat, i: nat)
    requires j < |us| && i < |us| && ListOrdered(d, chain, l, us) && UnitBefore(d, chain, l, us[j], us[i])
    requires us[j] in Units(d, l) && us[i] in Units(d, l)
    ensures j < i
  {
    if i <= j {
      NotEarlier(d, chain, l, us, i, j);
    }
  }

  lemma NotEarlier(d: CPUDetails, chain: seq<Level>, l: Level, us: seq<int>, i: nat, j: nat)
    requires i <= j < |us| && ListOrdered(d, chain, l, us) && us[j] in Units(d, l) && us[i] in Units(d, l)
    ensures !UnitBefore(d, chain, l, us[j], us[i])
  {
    if i < j {
      UnitOneWay(d, chain, l, us[i], us[j]);
    } else if UnitBefore(d, chain, l, us[j], us[i]) {
      UnitOneWay(d, chain, l, us[j], us[i]);
    }
  }

  lemma TakenIs(t: CPUTopology, chain: seq<Level>, l: Level, free: set<int>, a: Acc, us: seq<int>, s: set<int>)
    requires StageList(t, chain, l, free, us) && Unclaimed(t, l, a.result, us) && free !! a.result
    requires TakeUnits(t, l, a, us).result <= s
    requires forall j :: 0 <= j < |us| ==>
      (Members(t.cpuDetails, l, us[j]) <= s <==> Members(t.cpuDetails, l, us[j]) <= TakeUnits(t, l, a, us).result)
    ensures TakenWhole(t, l, free, s) == TakeUnits(t, l, a, us).result - a.result
  {
    var b := TakeUnits(t, l, a, us);
    TakeUnitsFrom(t, l, a, us);
    forall c ensures c in TakenWhole(t, l, free, s) <==> c in b.result && c !in a.result {
      if c in t.cpuDetails {
        var v := UnitOf(t.cpuDetails, l, c);
        assert c in Members(t.cpuDetails, l, v);
        if c in b.result && c !in a.result {
          var j := IndexOf(us, v);
          AllOrNone(t, l, a, us, j);
          assert us[j] in us;
          assert Whole(t, l, free * s, v);
        }
        if c in TakenWhole(t, l, free, s) {
          assert Whole(t, l, free, v);
          var j := IndexOf(us, v);
        }
      }
    }
  }

  /** One stage: it hands out whole units in order, and they are the ones found so in the end. */
  lemma StageTaken(t: CPUTopology, free: set<int>, l: Level, a: Acc, s: set<int>)
    requires WellFormed(t) && Safe(t, free, a) && Staged(t, l)
    requires Finishes(free, TakeFull(t, l, a), s)
    ensures TakenInOrder(t, ChainOf(t, l), l, free - a.result, a.needed, s)
    ensures TakenWhole(t, l, free - a.result, s) == TakeFull(t, l, a).result - a.result
  {
    var us, chain, left := FreeUnits(t, l, a.details), ChainOf(t, l), free - a.result;
    FreeList(t, free, l, a);
    TakeFullSafe(t, free, l, a);
    TakeFullIsMaximal(t, free, l, a);
    forall i | 0 <= i < |us|
      ensures us[i] in Units(t.cpuDetails, l) && Members(t.cpuDetails, l, us[i]) <= left
    {
      assert us[i] in us;
    }
    forall i | 0 <= i < |us|
      ensures Members(t.cpuDetails, l, us[i]) <= s <==> Members(t.cpuDetails, l, us[i]) <= TakeFull(t, l, a).result
    {
      ClaimedFinal(t, free, l, a, us, i, s);
    }
    TakenIs(t, chain, l, left, a, us, s);
    forall u | Whole(t, l, left, u)
      ensures Members(t.cpuDetails, l, u) <= s
        <==> |TakenBefore(t, chain, l, left, s, u)| + |Members(t.cpuDetails, l, u)| <= a.needed
    {
      var i := IndexOf(us, u);
      ClaimedIff(t, l, a, us, i);
      BeforeIs(t, chain, l, left, a, us, i, s);
    }
  }

  // ---- the result grows out of every stage

  lemma {:induction false} SinglesGrow(a: Acc, cpus: seq<int>)
    ensures a.result <= TakeSingles(a, cpus).result
    decreases |cpus|
  {
    if cpus != [] {
      var b := Take(a, {cpus[0]});
      if !Satisfied(b) {
        SinglesGrow(b, cpus[1..]);
      }
    }
  }

  lemma {:induction false} UncoreLoopGrows(t: CPUTopology, a: Acc, us: seq<int>)
    requires t.CPUsPerCore() > 0 && a.needed >= 1
    ensures a.result <= TakeUncoreLoop(t, a, us).result
    decreases |us|
  {
    if us != [] {
      var b := if a.needed >= t.CPUsPerUncore() then TakeFull(t, Uncore, a) else a;
      TakeUnitsShrinks(t, Uncore, a, FreeUnits(t, Uncore, a.details));
      if !Satisfied(b) {
        var c := TakePartial(t, b, us[0]);
        if !Satisfied(c) {
          UncoreLoopGrows(t, c, us[1..]);
        }
      }
    }
  }

  /** The stages after the first two only add to what these claimed. */
  lemma LateStagesGrow(t: CPUTopology, a2: Acc, strategy: string, align: bool)
    requires t.CPUsPerCore() > 0 && !Satisfied(a2)
    ensures var a3 := if align then TakeUncore(t, a2) else a2;
      var a4 := if strategy != SPREAD then TakeFull(t, Core, a3) else a3;
      a2.result <= a3.result <= a4.result <= TakeRemaining(t, a4, strategy).result
  {
    UncoreLoopGrows(t, a2, SortAvailable(a2.details, ChainOf(t, Uncore)));
    var a3 := if align then TakeUncore(t, a2) else a2;
    TakeUnitsShrinks(t, Core, a3, FreeUnits(t, Core, a3.details));
    var a4 := if strategy != SPREAD then TakeFull(t, Core, a3) else a3;
    SinglesGrow(a4, SortAvailable(a4.details, CpuChain(t, strategy)));
  }

  /** Two stages of whole units: no need is left to the second if the first one met it. */
  lemma NothingNeeded(t: CPUTopology, free: set<int>, l: Level, a: Acc)
    requires WellFormed(t) && Safe(t, free, a) && a.needed == 0
    ensures TakeFull(t, l, a) == a
  {
    FreeUnitsExact(t, free, l, a);
    AllUnits(t, l, FreeUnits(t, l, a.details));
    NoneTaken(t, l, a, FreeUnits(t, l, a.details));
  }

  lemma {:induction false} NoneTaken(t: CPUTopology, l: Level, a: Acc, us: seq<int>)
    requires a.needed == 0 && forall i :: 0 <= i < |us| ==> us[i] in Units(t.cpuDetails, l)
    ensures TakeUnits(t, l, a, us) == a
    decreases |us|
  {
    if us != [] {
      MembersNonEmpty(t.cpuDetails, l, us[0]);
      assert forall i :: 0 < i < |us| ==> us[1..][i - 1] == us[i];
      NoneTaken(t, l, a, us[1..]);
    }
  }

  /** The states after the first stage and after the second, on the way to the result s. */
  ghost predicate OnTheWay(t: CPUTopology, free: set<int>, n: int, a1: Acc, a2: Acc, s: set<int>) {
    && Inv(t, free, n, a1) && Inv(t, free, n, a2)
    && Finishes(free, a1, s) && Finishes(free, a2, s)
  }

  lemma Rest(free: set<int>, n: int, a: Acc, s: set<int>)
    requires Counted(free, n, a) && a.result <= s <= free && |s| <= n
    ensures Finishes(free, a, s)
  {
    SubsetSize(a.result, s);
  }

  lemma ResultGrows(t: CPUTopology, free: set<int>, a: Acc, strategy: string, align: bool)
    requires WellFormed(t) && t.CPUsPerCore() > 0 && Stages(t, a, strategy, align).Ok?
    ensures var a1, s := TakeFull(t, FirstLevel(t), a), Stages(t, a, strategy, align).cpus;
      a1.result <= s && (Satisfied(a1) || TakeFull(t, SecondLevel(t), a1).result <= s)
  {
    var a1 := TakeFull(t, FirstLevel(t), a);
    var a2 := TakeFull(t, SecondLevel(t), a1);
    TakeUnitsShrinks(t, SecondLevel(t), a1, FreeUnits(t, SecondLevel(t), a1.details));
    if !Satisfied(a2) {
      LateStagesGrow(t, a2, strategy, align);
    }
  }

  lemma FirstTwo(t: CPUTopology, free: set<int>, n: int, a: Acc, strategy: string, align: bool)
    requires WellFormed(t) && t.CPUsPerCore() > 0 && Inv(t, free, n, a)
    ensures Stages(t, a, strategy, align).Ok?
    ensures var a1 := TakeFull(t, FirstLevel(t), a);
      OnTheWay(t, free, n, a1, TakeFull(t, SecondLevel(t), a1), Stages(t, a, strategy, align).cpus)
  {
    var a1 := TakeFull(t, FirstLevel(t), a);
    FirstStages(t, free, a);
    StagesSafe(t, free, n, a, strategy, align);
    ResultGrows(t, free, a, strategy, align);
    if Satisfied(a1) {
      NothingNeeded(t, free, SecondLevel(t), a1);
    }
    Rest(free, n, a1, Stages(t, a, strategy, align).cpus);
    Rest(free, n, TakeFull(t, SecondLevel(t), a1), Stages(t, a, strategy, align).cpus);
  }

  lemma ChainsAre(t: CPUTopology)
    ensures if t.numSockets < t.numNUMANodes
      then FirstLevel(t) == Socket && SecondLevel(t) == Numa
           && ChainOf(t, Socket) == [Socket] && ChainOf(t, Numa) == [Socket, Numa]
      else FirstLevel(t) == Numa && SecondLevel(t) == Socket
           && ChainOf(t, Numa) == [Numa] && ChainOf(t, Socket) == [Numa, Socket]
  {
  }

  /** On every well-formed machine, for every free set, request, strategy and cache flag: whole
      sockets come first where there are fewer sockets than NUMA nodes, and whole NUMA nodes
      otherwise, as many in order as fit; then the units of the other level likewise. */
  lemma PackedTakesWholeUnits(t: CPUTopology, available: set<int>, n: int, strategy: string, align: bool)
    requires WellFormed(t) && 1 <= n <= |t.cpuDetails.Keys * available|
    ensures Packed(t, available, n, strategy, align).Ok?
    ensures WholeUnitsFirst(t, t.cpuDetails.Keys * available, n, Packed(t, available, n, strategy, align).cpus)
  {
    var a, free := NewAcc(t, available, n), t.cpuDetails.Keys * available;
    StartsRight(t, available, n);
    FirstTwo(t, free, n, a, strategy, align);
    TwoStages(t, free, n, a, Stages(t, a, strategy, align).cpus);
  }

  lemma TwoStages(t: CPUTopology, free: set<int>, n: int, a: Acc, s: set<int>)
    requires WellFormed(t) && Inv(t, free, n, a) && a.result == {}
    requires var a1 := TakeFull(t, FirstLevel(t), a); OnTheWay(t, free, n, a1, TakeFull(t, SecondLevel(t), a1), s)
    ensures WholeUnitsFirst(t, free, n, s)
  {
    ChainsAre(t);
    LevelByLevel(t, free, n, a, FirstLevel(t), SecondLevel(t), s);
  }

  lemma LevelByLevel(t: CPUTopology, free: set<int>, n: int, a: Acc, outer: Level, inner: Level, s: set<int>)
    requires WellFormed(t) && Inv(t, free, n, a) && a.result == {}
    requires (outer == Numa || outer == Socket) && (inner == Numa || inner == Socket)
    requires ChainOf(t, outer) == [outer] && ChainOf(t, inner) == [outer, inner]
    requires var a1 := TakeFull(t, outer, a); OnTheWay(t, free, n, a1, TakeFull(t, inner, a1), s)
    ensures TwoLevels(t, outer, inner, free, n, s)
  {
    var a1 := TakeFull(t, outer, a);
    var taken := OuterAt(t, free, n, a, outer, s);
    LeftIs(free, a, a1, taken, n);
    StageAt(t, free, inner, [outer, inner], a1, free - taken, n - |taken|, s);
  }

  lemma OuterAt(t: CPUTopology, free: set<int>, n: int, a: Acc, outer: Level, s: set<int>) returns (taken: set<int>)
    requires WellFormed(t) && Safe(t, free, a) && a.result == {} && a.needed == n && (outer == Numa || outer == Socket)
    requires ChainOf(t, outer) == [outer] && Finishes(free, TakeFull(t, outer, a), s)
    ensures taken == TakenWhole(t, outer, free, s) == TakeFull(t, outer, a).result - a.result
    ensures TakenInOrder(t, [outer], outer, free, n, s)
  {
    assert free - a.result == free;
    StageAt(t, free, outer, [outer], a, free, n, s);
    taken := TakenWhole(t, outer, free, s);
  }

  lemma StageAt(t: CPUTopology, free: set<int>, l: Level, chain: seq<Level>, a: Acc, left: set<int>, n: int, s: set<int>)
    requires WellFormed(t) && Safe(t, free, a) && Staged(t, l)
    requires chain == ChainOf(t, l) && left == free - a.result && n == a.needed
    requires Finishes(free, TakeFull(t, l, a), s)
    ensures TakenInOrder(t, chain, l, left, n, s)
    ensures TakenWhole(t, l, left, s) == TakeFull(t, l, a).result - a.result
  {
    StageTaken(t, free, l, a, s);
  }

  lemma LeftIs(free: set<int>, a: Acc, a1: Acc, taken: set<int>, n: int)
    requires a.result == {} && Counted(free, n, a1) && taken == a1.result - a.result
    ensures free - a1.result == free - taken && a1.needed == n - |taken|
  {
    assert taken == a1.result;
  }

  // ---- cores and single CPUs, when the caches are not looked at

  /** The order of single CPUs: core by core in packed order, socket by socket otherwise. */
  ghost function SinglesChain(outer: Level, inner: Level, strategy: string): seq<Level> {
    if strategy == "packed" then [outer, inner, Core, Cpu]
    else if outer == Socket then [Socket, Cpu] else [Numa, Socket, Cpu]
  }

  /** Whole cores in order, unless CPUs are to be spread over cores, then the first CPUs left. */
  ghost predicate CoresAndSingles(t: CPUTopology, outer: Level, inner: Level, free: set<int>, n: int, strategy: string,
                                  s: set<int>)
  {
    var last := if strategy == "spread" then free else free - TakenWhole(t, Core, free, s);
    && (strategy != "spread" ==> TakenInOrder(t, [outer, inner, Core], Core, free, n, s))
    && FirstTaken(t, SinglesChain(outer, inner, strategy), last, n - (|free| - |last|), s)
    && TakenEarlier(t, SinglesChain(outer, inner, strategy), last, s)
  }

  /** What whole units of one level, then of the other, leave. */
  ghost function LeftOfUnits(t: CPUTopology, outer: Level, inner: Level, free: set<int>, s: set<int>): set<int> {
    var left := free - TakenWhole(t, outer, free, s);
    left - TakenWhole(t, inner, left, s)
  }

  /** Both from what the whole units leave. */
  ghost predicate SmallerLevels(t: CPUTopology, outer: Level, inner: Level, free: set<int>, n: int, strategy: string,
                                s: set<int>)
  {
    var rest := LeftOfUnits(t, outer, inner, free, s);
    CoresAndSingles(t, outer, inner, rest, n - (|free| - |rest|), strategy, s)
  }

  ghost predicate ThenCores(t: CPUTopology, free: set<int>, n: int, strategy: string, s: set<int>) {
    if t.numSockets < t.numNUMANodes then SmallerLevels(t, Socket, Numa, free, n, strategy, s)
    else SmallerLevels(t, Numa, Socket, free, n, strategy, s)
  }

  lemma StrategyNames()
    ensures PACKED == "packed" && SPREAD == "spread" && PACKED != SPREAD
  {
    assert PACKED[0] != SPREAD[0];
  }

  /** The state in which single CPUs are taken, and what comes out. */
  ghost predicate Ends(t: CPUTopology, free: set<int>, n: int, a4: Acc, strategy: string, s: set<int>) {
    && Inv(t, free, n, a4)
    && s == if a4.needed == 0 then a4.result else TakeRemaining(t, a4, strategy).result
  }

  ghost function AfterUnits(t: CPUTopology, a: Acc): Acc {
    TakeFull(t, SecondLevel(t), TakeFull(t, FirstLevel(t), a))
  }

  ghost function AfterCores(t: CPUTopology, a2: Acc, strategy: string): Acc {
    if strategy != SPREAD then TakeFull(t, Core, a2) else a2
  }

  lemma TailIs(t: CPUTopology, free: set<int>, n: int, a: Acc, strategy: string)
    requires WellFormed(t) && t.CPUsPerCore() > 0 && Inv(t, free, n, a)
    ensures Stages(t, a, strategy, false).Ok? && Inv(t, free, n, AfterUnits(t, a))
    ensures Ends(t, free, n, AfterCores(t, AfterUnits(t, a), strategy), strategy, Stages(t, a, strategy, false).cpus)
  {
    var a1 := TakeFull(t, FirstLevel(t), a);
    var a2 := AfterUnits(t, a);
    FirstStages(t, free, a);
    StagesSafe(t, free, n, a, strategy, false);
    TakeFullKeeps(t, free, n, Core, a2);
    if Satisfied(a1) {
      NothingNeeded(t, free, SecondLevel(t), a1);
    }
    if Satisfied(a2) {
      NothingNeeded(t, free, Core, a2);
    }
  }

  /** All free CPUs, each once, in the order of the chain. */
  ghost predicate CpuList(d: CPUDetails, chain: seq<Level>, cpus: seq<int>) {
    && NoDup(cpus) && Elements(cpus) == d.Keys
    && forall j, k :: (0 <= j < k < |cpus|
                       ==> cpus[j] in d && cpus[k] in d && PathBefore(d, chain, cpus[j], cpus[k]))
  }

  lemma FirstAre(d: CPUDetails, chain: seq<Level>, cpus: seq<int>, i: nat)
    requires i < |cpus| && CpuList(d, chain, cpus) && cpus[i] in d
    ensures (set x | x in d && PathBefore(d, chain, x, cpus[i])) == Elements(cpus[..i])
  {
    forall x | x in d ensures PathBefore(d, chain, x, cpus[i]) <==> x in Elements(cpus[..i]) {
      assert x in cpus;
      var j := IndexOf(cpus, x);
      PlaceOf(d, chain, cpus, i, j);
    }
    forall x | x in Elements(cpus[..i]) ensures x in d {
      var j := IndexOf(cpus[..i], x);
      assert cpus[j] in cpus;
    }
  }

  lemma PlaceOf(d: CPUDetails, chain: seq<Level>, cpus: seq<int>, i: nat, j: nat)
    requires i < |cpus| && j < |cpus| && CpuList(d, chain, cpus) && cpus[i] in d && cpus[j] in d
    ensures (PathBefore(d, chain, cpus[j], cpus[i]) <==> j < i) && (cpus[j] in cpus[..i] <==> j < i)
  {
    if j < i {
      assert cpus[..i][j] == cpus[j];
    } else if j == i {
      PathIrreflexive(d, chain, cpus[i]);
    } else {
      PathOneWay(d, chain, cpus[i], cpus[j]);
    }
    if cpus[j] in cpus[..i] {
      var k := IndexOf(cpus[..i], cpus[j]);
      assert cpus[k] == cpus[j];
    }
  }

  lemma ListIs(t: CPUTopology, free: set<int>, a: Acc, strategy: string)
    requires WellFormed(t) && Safe(t, free, a)
    ensures var chain := CpuChain(t, strategy); CpuList(a.details, chain, SortAvailable(a.details, chain))
    ensures a.details == KeepOnly(t.cpuDetails, free - a.result) && a.details.Keys == free - a.result
  {
    SafeKeys(t, free, a);
    ChainNested(t, Cpu, free - a.result);
    CpuListIsLexicographic(a.details, CpuChain(t, strategy));
  }

  lemma SinglesTaken(t: CPUTopology, free: set<int>, n: int, a4: Acc, strategy: string, s: set<int>)
    requires WellFormed(t) && Ends(t, free, n, a4, strategy, s)
    ensures FirstTaken(t, CpuChain(t, strategy), free - a4.result, a4.needed, s)
    ensures TakenEarlier(t, CpuChain(t, strategy), free - a4.result, s)
  {
    var chain := CpuChain(t, strategy);
    var cpus := SortAvailable(a4.details, chain);
    ListIs(t, free, a4, strategy);
    SafeKeys(t, free, a4);
    NoDupSize(cpus);
    if a4.needed > 0 {
      TakeRemainingKeeps(t, free, a4, strategy);
    }
    assert Elements(cpus[..0]) == {};
    AllTaken(t, chain, free - a4.result, cpus, a4, s);
  }

  lemma AllTaken(t: CPUTopology, chain: seq<Level>, left: set<int>, cpus: seq<int>, a: Acc, s: set<int>)
    requires CpuList(a.details, chain, cpus) && a.details == KeepOnly(t.cpuDetails, left) && a.details.Keys == left
    requires left !! a.result && 0 <= a.needed <= |cpus| && s == a.result + Elements(cpus[..a.needed])
    ensures FirstTaken(t, chain, left, a.needed, s) && TakenEarlier(t, chain, left, s)
  {
    forall x, y | x in left && y in left && x in s && y !in s && x in t.cpuDetails && y in t.cpuDetails
      ensures PathBefore(KeepOnly(t.cpuDetails, left), chain, x, y)
    {
      var i := IndexOf(cpus, x);
      var j := IndexOf(cpus, y);
      TakenPrefix(cpus, i, a, s);
      TakenPrefix(cpus, j, a, s);
    }
    forall c | c in t.cpuDetails && c in left ensures c in s <==> |FreeBefore(t, chain, left, c)| < a.needed {
      assert c in Elements(cpus);
      var i := IndexOf(cpus, c);
      FirstAre(a.details, chain, cpus, i);
      assert FreeBefore(t, chain, left, c) == Elements(cpus[..i]);
      PrefixSize(cpus, i);
      TakenPrefix(cpus, i, a, s);
    }
  }

  lemma TakenPrefix(cpus: seq<int>, i: nat, a: Acc, s: set<int>)
    requires i < |cpus| && NoDup(cpus) && cpus[i] !in a.result && 0 <= a.needed <= |cpus|
    requires s == a.result + Elements(cpus[..a.needed])
    ensures cpus[i] in s <==> i < a.needed
  {
    if i < a.needed {
      assert cpus[..a.needed][i] == cpus[i];
    }
    if cpus[i] in cpus[..a.needed] {
      var k := IndexOf(cpus[..a.needed], cpus[i]);
      assert cpus[k] == cpus[i];
    }
  }

  lemma LastChains(t: CPUTopology, strategy: string)
    ensures var outer, inner := FirstLevel(t), SecondLevel(t);
      ChainOf(t, Core) == [outer, inner, Core] && CpuChain(t, strategy) == SinglesChain(outer, inner, strategy)
  {
    StrategyNames();
  }

  lemma LeftAfter(free: set<int>, a: Acc, b: Acc, left: set<int>, taken: set<int>, n: int)
    requires Counted(free, n, a) && Counted(free, n, b) && a.result <= b.result <= free
    requires left == free - a.result && taken == b.result - a.result
    ensures left - taken == free - b.result && b.needed == n - (|free| - |left - taken|)
    ensures b.needed == a.needed - (|left| - |left - taken|)
  {
    SubsetSize(a.result, free);
    SubsetSize(b.result, free);
    assert left - taken == free - b.result;
  }

  /** Cores, then single CPUs, from the state in which the whole units have been taken. */
  lemma CoresTaken(t: CPUTopology, free: set<int>, n: int, a2: Acc, strategy: string, s: set<int>)
    requires WellFormed(t) && Inv(t, free, n, a2) && s <= free && |s| <= n
    requires Ends(t, free, n, AfterCores(t, a2, strategy), strategy, s)
    ensures CoresAndSingles(t, FirstLevel(t), SecondLevel(t), free - a2.result, a2.needed, strategy, s)
  {
    var a4, left := AfterCores(t, a2, strategy), free - a2.result;
    StrategyNames();
    LastChains(t, strategy);
    SinglesTaken(t, free, n, a4, strategy, s);
    SinglesGrow(a4, SortAvailable(a4.details, CpuChain(t, strategy)));
    if strategy != "spread" {
      Rest(free, n, a4, s);
      TakeUnitsShrinks(t, Core, a2, FreeUnits(t, Core, a2.details));
      StageAt(t, free, Core, ChainOf(t, Core), a2, left, a2.needed, s);
      LeftAfter(free, a2, a4, left, TakenWhole(t, Core, left, s), n);
    }
  }

  lemma UnitsLeft(t: CPUTopology, free: set<int>, n: int, a: Acc, outer: Level, inner: Level, s: set<int>)
    requires WellFormed(t) && Inv(t, free, n, a) && a.result == {} && outer == FirstLevel(t) && inner == SecondLevel(t)
    requires OnTheWay(t, free, n, TakeFull(t, outer, a), AfterUnits(t, a), s)
    ensures var rest := LeftOfUnits(t, outer, inner, free, s);
      rest == free - AfterUnits(t, a).result && AfterUnits(t, a).needed == n - (|free| - |rest|)
  {
    var a1, a2 := TakeFull(t, outer, a), AfterUnits(t, a);
    assert free - a.result == free;
    StageTaken(t, free, outer, a, s);
    var left := free - TakenWhole(t, outer, free, s);
    LeftAfter(free, a, a1, free, TakenWhole(t, outer, free, s), n);
    StageTaken(t, free, inner, a1, s);
    TakeUnitsShrinks(t, inner, a1, FreeUnits(t, inner, a1.details));
    LeftAfter(free, a1, a2, left, TakenWhole(t, inner, left, s), n);
  }

  lemma SmallerAre(t: CPUTopology, free: set<int>, n: int, a: Acc, outer: Level, inner: Level, strategy: string, s: set<int>)
    requires WellFormed(t) && Inv(t, free, n, a) && a.result == {} && outer == FirstLevel(t) && inner == SecondLevel(t)
    requires OnTheWay(t, free, n, TakeFull(t, outer, a), AfterUnits(t, a), s) && |s| <= n
    requires Ends(t, free, n, AfterCores(t, AfterUnits(t, a), strategy), strategy, s)
    ensures SmallerLevels(t, outer, inner, free, n, strategy, s)
  {
    UnitsLeft(t, free, n, a, outer, inner, s);
    CoresTaken(t, free, n, AfterUnits(t, a), strategy, s);
  }

  /** When the caches are not looked at, the CPUs handed out are determined level by level:
      whole units as above, then whole cores, unless they are to be spread, then single CPUs. */
  lemma PackedTakesCores(t: CPUTopology, available: set<int>, n: int, strategy: string)
    requires WellFormed(t) && 1 <= n <= |t.cpuDetails.Keys * available|
    ensures Packed(t, available, n, strategy, false).Ok?
    ensures ThenCores(t, t.cpuDetails.Keys * available, n, strategy, Packed(t, available, n, strategy, false).cpus)
  {
    StartsRight(t, available, n);
    StagesTakeCores(t, t.cpuDetails.Keys * available, n, NewAcc(t, available, n), strategy);
  }

  lemma StartsRight(t: CPUTopology, available: set<int>, n: int)
    requires WellFormed(t) && 1 <= n <= |t.cpuDetails.Keys * available|
    ensures t.CPUsPerCore() > 0 && Inv(t, t.cpuDetails.Keys * available, n, NewAcc(t, available, n))
    ensures forall strategy, align ::
      Packed(t, available, n, strategy, align) == Stages(t, NewAcc(t, available, n), strategy, align)
  {
    KeepMembers(t.cpuDetails, available, Cpu, 0);
    CoresNonEmpty(t);
    assert NewAcc(t, available, n).details == KeepOnly(t.cpuDetails, t.cpuDetails.Keys * available - {});
  }

  lemma StagesTakeCores(t: CPUTopology, free: set<int>, n: int, a: Acc, strategy: string)
    requires WellFormed(t) && t.CPUsPerCore() > 0 && Inv(t, free, n, a) && a.result == {}
    ensures Stages(t, a, strategy, false).Ok? && ThenCores(t, free, n, strategy, Stages(t, a, strategy, false).cpus)
  {
    FirstTwo(t, free, n, a, strategy, false);
    TailIs(t, free, n, a, strategy);
    StagesSafe(t, free, n, a, strategy, false);
    ChainsAre(t);
    SmallerAre(t, free, n, a, FirstLevel(t), SecondLevel(t), strategy, Stages(t, a, strategy, false).cpus);
  }
}
