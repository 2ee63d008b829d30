/** Which CPUs the cache-aligned stage of packed allocation hands out: whole caches in order
    while the need is at least an average cache, then the lowest cores of the first cache that
    can hold the rest. */
module CacheOrder {
  import opened Sorting
  import opened Arith
  import opened Topology
  import opened UnitOrder
  import opened PackedModel
  import opened PackedExact
  import opened StageOrder

  /** The cores of cache u that have a free CPU. */
  ghost function CoresOn(t: CPUTopology, free: set<int>, u: int): set<int> {
    set c | c in t.cpuDetails && c in free && UnitOf(t.cpuDetails, Uncore, c) == u :: UnitOf(t.cpuDetails, Core, c)
  }

  ghost function CoresBelow(t: CPUTopology, free: set<int>, u: int, k: int): set<int> {
    set j | j in CoresOn(t, free, u) && j < k
  }

  /** The free CPUs of the lowest cores of cache u, as many cores as n CPUs need. */
  ghost function LowestCPUs(t: CPUTopology, free: set<int>, u: int, n: int): set<int> {
    set c | c in t.cpuDetails && c in free && UnitOf(t.cpuDetails, Uncore, c) == u
            && |CoresBelow(t, free, u, UnitOf(t.cpuDetails, Core, c))| * t.CPUsPerCore() < n
  }

  /** They are n, or one more where an odd number is asked for of several threads a core. */
  ghost predicate FitsCache(t: CPUTopology, free: set<int>, u: int, n: int) {
    var size := |LowestCPUs(t, free, u, n)|;
    size == n || (n % 2 != 0 && t.CPUsPerCore() > 1 && size == n + 1)
  }

  /** The lowest n of the CPUs, all but at most one. */
  ghost predicate Trimmed(cpus: set<int>, n: int, s: set<int>) {
    s <= cpus && |s| == n && |cpus| <= n + 1 && forall x, y :: x in s && y in cpus && y !in s ==> x < y
  }

  /** The rest of the request lies on the lowest cores of one cache that it fits, the first one
      in the order of the chain. */
  ghost predicate OnOneCache(t: CPUTopology, chain: seq<Level>, before: set<int>, free: set<int>, n: int, s: set<int>) {
    exists u :: FitsCache(t, free, u, n) && Trimmed(LowestCPUs(t, free, u, n), n, free * s)
      && (Nested(t.cpuDetails, Uncore, Numa) ==> FirstFitting(t, chain, before, free, n, u))
  }

  ghost predicate FirstFitting(t: CPUTopology, chain: seq<Level>, before: set<int>, free: set<int>, n: int, u: int) {
    forall v :: FitsCache(t, free, v, n) && v != u ==> UnitBefore(KeepOnly(t.cpuDetails, before), chain, Uncore, u, v)
  }

  ghost predicate SomeFits(t: CPUTopology, free: set<int>, n: int) {
    exists u :: FitsCache(t, free, u, n)
  }

  function CacheChain(outer: Level): seq<Level> {
    if outer == Socket then [Socket, Numa, Uncore] else [Numa, Uncore]
  }

  /** One cache for the rest if it fits one, or else cores and single CPUs. */
  ghost predicate CacheOrCores(t: CPUTopology, outer: Level, inner: Level, before: set<int>, free: set<int>, n: int,
                               strategy: string, s: set<int>)
  {
    if n >= 1 && SomeFits(t, free, n) then OnOneCache(t, CacheChain(outer), before, free, n, s)
    else CoresAndSingles(t, outer, inner, free, n, strategy, s)
  }

  /** What whole caches leave, which are taken when the need is at least an average one. */
  ghost function LeftOfCaches(t: CPUTopology, free: set<int>, n: int, s: set<int>): set<int> {
    if n >= t.CPUsPerUncore() then free - TakenWhole(t, Uncore, free, s) else free
  }

  ghost predicate CachesNext(t: CPUTopology, outer: Level, inner: Level, free: set<int>, n: int, strategy: string,
                             s: set<int>)
  {
    var last := LeftOfCaches(t, free, n, s);
    && (n >= t.CPUsPerUncore() ==> TakenInOrder(t, CacheChain(outer), Uncore, free, n, s))
    && CacheOrCores(t, outer, inner, free, last, n - (|free| - |last|), strategy, s)
  }

  ghost predicate SmallerCaches(t: CPUTopology, outer: Level, inner: Level, free: set<int>, n: int, strategy: string,
                                s: set<int>)
  {
    var rest := LeftOfUnits(t, outer, inner, free, s);
    CachesKnown(t, outer, inner, rest, n - (|free| - |rest|), strategy, s)
  }

  ghost predicate CachesKnown(t: CPUTopology, outer: Level, inner: Level, free: set<int>, n: int, strategy: string,
                              s: set<int>)
  {
    n < t.CPUsPerUncore() || Nested(t.cpuDetails, Uncore, Numa) ==> CachesNext(t, outer, inner, free, n, strategy, s)
  }

  /** Whole units first; then, where every cache lies in one NUMA node or what remains is less
      than an average cache, the caches. */
  ghost predicate ThenCaches(t: CPUTopology, free: set<int>, n: int, strategy: string, s: set<int>) {
    if t.numSockets < t.numNUMANodes then SmallerCaches(t, Socket, Numa, free, n, strategy, s)
    else SmallerCaches(t, Numa, Socket, free, n, strategy, s)
  }

  // ---- part of one cache

  lemma LowestCores(cores: set<int>, n: nat, r: set<int>)
    requires r <= cores && |r| == (if |cores| <= n then |cores| else n)
    requires forall x, y :: x in r && y in cores - r ==> x < y
    ensures forall k :: k in cores ==> (k in r <==> |set j | j in cores && j < k| < n)
  {
    forall k | k in cores ensures k in r <==> |set j | j in cores && j < k| < n {
      RankOf(cores, n, r, k);
    }
  }

  lemma RankOf(cores: set<int>, n: nat, r: set<int>, k: int)
    requires k in cores && r <= cores && |r| == (if |cores| <= n then |cores| else n)
    requires forall x, y :: x in r && y in cores - r ==> x < y
    ensures k in r <==> |set j | j in cores && j < k| < n
  {
    var below := set j | j in cores && j < k;
    if k in r {
      forall j | j in below ensures j in r - {k} {
        assert j in cores - r ==> k < j;
      }
      SubsetSize(below, r - {k});
      SubsetSize({k}, r);
    } else {
      assert k in cores - r;
      assert forall x :: x in r ==> x in below;
      SubsetSize(r, below);
      SubsetSize(r + {k}, cores);
    }
  }

  lemma CeilRank(rank: int, n: int, size: int)
    requires size > 0 && n >= 1 && rank >= 0
    ensures (n + size - 1) / size >= 0 && (rank < (n + size - 1) / size <==> rank * size < n)
  {
    var m := (n + size - 1) / size;
    DivBounds(n + size - 1, size);
    DivMonotone(0, n + size - 1, size);
    if rank < m {
      MulMonotone(size, rank + 1, m);
    } else {
      MulMonotone(size, m, rank);
    }
  }

  lemma PartialIs(t: CPUTopology, free: set<int>, a: Acc, u: int)
    requires WellFormed(t) && t.CPUsPerCore() > 0 && Safe(t, free, a) && a.needed >= 1
    ensures PartialCpus(t, a, u) == LowestCPUs(t, free - a.result, u, a.needed)
  {
    SafeKeys(t, free, a);
    LowestAre(t, free - a.result, a.details, u, a.needed);
  }

  lemma LowestAre(t: CPUTopology, left: set<int>, d: CPUDetails, u: int, n: int)
    requires WellFormed(t) && t.CPUsPerCore() > 0 && d == KeepOnly(t.cpuDetails, left) && n >= 1
    ensures var m := (n + t.CPUsPerCore() - 1) / t.CPUsPerCore();
      m >= 0 && MembersOf(d, Core, CoresNeededInUncoreCache(d, m, u)) == LowestCPUs(t, left, u, n)
  {
    var m := (n + t.CPUsPerCore() - 1) / t.CPUsPerCore();
    CeilRank(0, n, t.CPUsPerCore());
    var cores := CoresNeededInUncoreCache(d, m, u);
    SameCores(t, left, d, u);
    LowestCores(CoresOn(t, left, u), m, cores);
    forall c ensures c in MembersOf(d, Core, cores) <==> c in LowestCPUs(t, left, u, n) {
      if c in d {
        InLowest(t, left, d, u, n, m, cores, c);
      }
    }
  }

  lemma SameCores(t: CPUTopology, left: set<int>, d: CPUDetails, u: int)
    requires d == KeepOnly(t.cpuDetails, left)
    ensures UnitsIn(d, Core, Uncore, u) == CoresOn(t, left, u)
  {
    forall k ensures k in UnitsIn(d, Core, Uncore, u) <==> k in CoresOn(t, left, u) {
      if k in UnitsIn(d, Core, Uncore, u) {
        var c :| c in d && UnitOf(d, Uncore, c) == u && UnitOf(d, Core, c) == k;
        assert c in t.cpuDetails && c in left && UnitOf(t.cpuDetails, Uncore, c) == u;
      }
      if k in CoresOn(t, left, u) {
        var c :| c in t.cpuDetails && c in left && UnitOf(t.cpuDetails, Uncore, c) == u && UnitOf(t.cpuDetails, Core, c) == k;
        assert c in d && UnitOf(d, Uncore, c) == u;
      }
    }
  }

  lemma InLowest(t: CPUTopology, left: set<int>, d: CPUDetails, u: int, n: int, m: nat, cores: set<int>, c: int)
    requires WellFormed(t) && t.CPUsPerCore() > 0 && d == KeepOnly(t.cpuDetails, left) && c in d && n >= 1
    requires m == (n + t.CPUsPerCore() - 1) / t.CPUsPerCore() && cores <= CoresOn(t, left, u)
    requires forall k :: k in CoresOn(t, left, u) ==> (k in cores <==> |set j | j in CoresOn(t, left, u) && j < k| < m)
    ensures UnitOf(d, Core, c) in cores <==> c in LowestCPUs(t, left, u, n)
  {
    var k := UnitOf(t.cpuDetails, Core, c);
    CeilRank(|CoresBelow(t, left, u, k)|, n, t.CPUsPerCore());
    assert CoresBelow(t, left, u, k) == set j | j in CoresOn(t, left, u) && j < k;
    if k in CoresOn(t, left, u) {
      var x :| x in t.cpuDetails && x in left && UnitOf(t.cpuDetails, Uncore, x) == u && UnitOf(t.cpuDetails, Core, x) == k;
      assert UnitOf(t.cpuDetails, Uncore, c) == u;
    }
  }

  lemma DropsHighest(cpus: set<int>)
    requires |cpus| > 0
    ensures forall x, y :: x in DropHighest(cpus) && y in cpus && y !in DropHighest(cpus) ==> x < y
  {
    var all, m := List(cpus), |cpus| - 1;
    forall x, y | x in DropHighest(cpus) && y in cpus && y !in DropHighest(cpus) ensures x < y {
      var i := IndexOf(all[..m], x);
      var j := IndexOf(all, y);
      assert all[i] == x;
      NotInPrefix(all, m, j);
    }
  }

  lemma NotInPrefix(all: seq<int>, m: nat, j: nat)
    requires m <= |all| && j < |all| && all[j] !in all[..m]
    ensures j >= m
  {
    assert forall i :: 0 <= i < m ==> all[..m][i] == all[i];
  }

  /** A cache takes the rest of the request exactly when it fits. */
  lemma ChoiceIs(t: CPUTopology, free: set<int>, a: Acc, u: int)
    requires WellFormed(t) && t.CPUsPerCore() > 0 && Safe(t, free, a) && a.needed >= 1
    ensures var cpus := LowestCPUs(t, free - a.result, u, a.needed);
      && (FitsCache(t, free - a.result, u, a.needed) <==> a.needed == |PartialChoice(t, a, u)|)
      && (a.needed == |PartialChoice(t, a, u)| ==> Trimmed(cpus, a.needed, PartialChoice(t, a, u)))
  {
    var cpus := PartialCpus(t, a, u);
    PartialIs(t, free, a, u);
    if a.needed % 2 != 0 && t.CPUsPerCore() > 1 && |cpus| > a.needed {
      DropsHighest(cpus);
    } else if a.needed == |cpus| {
      assert cpus - PartialChoice(t, a, u) == {};
    }
  }

  // ---- the loop over the caches

  ghost function AfterCaches(t: CPUTopology, a: Acc): Acc {
    if a.needed >= t.CPUsPerUncore() then TakeFull(t, Uncore, a) else a
  }

  /** Once whole caches are through, the loop stops at the first cache that fits. */
  lemma {:induction false} QuietLoopIs(t: CPUTopology, free: set<int>, b: Acc, us: seq<int>) returns (i: nat)
    requires WellFormed(t) && t.CPUsPerCore() > 0 && Safe(t, free, b) && Quiet(t, b) && b.needed >= 1
    ensures i <= |us| && forall j :: 0 <= j < i ==> !FitsCache(t, free - b.result, us[j], b.needed)
    ensures if i < |us| then FitsCache(t, free - b.result, us[i], b.needed)
                             && TakeUncoreLoop(t, b, us) == Take(b, PartialChoice(t, b, us[i]))
            else TakeUncoreLoop(t, b, us) == b
    decreases |us|
  {
    if us == [] {
      return 0;
    }
    OneTurn(t, free, b, us);
    if FitsCache(t, free - b.result, us[0], b.needed) {
      return 0;
    }
    var k := QuietLoopIs(t, free, b, us[1..]);
    assert forall j :: 0 < j < |us| ==> us[1..][j - 1] == us[j];
    return k + 1;
  }

  lemma OneTurn(t: CPUTopology, free: set<int>, b: Acc, us: seq<int>)
    requires WellFormed(t) && t.CPUsPerCore() > 0 && Safe(t, free, b) && Quiet(t, b) && b.needed >= 1 && us != []
    ensures TakeUncoreLoop(t, b, us)
         == if FitsCache(t, free - b.result, us[0], b.needed) then Take(b, PartialChoice(t, b, us[0]))
            else TakeUncoreLoop(t, b, us[1..])
  {
    if b.needed >= t.CPUsPerUncore() {
      QuietPass(t, free, b);
    }
    ChoiceIs(t, free, b, us[0]);
  }

  lemma FirstTurn(t: CPUTopology, a: Acc, us: seq<int>)
    requires t.CPUsPerCore() > 0 && a.needed >= 1 && us != []
    ensures var b := AfterCaches(t, a);
      Satisfied(b) ==> TakeUncoreLoop(t, a, us) == b
  {
  }

  lemma LaterTurns(t: CPUTopology, free: set<int>, a: Acc, us: seq<int>)
    requires WellFormed(t) && t.CPUsPerCore() > 0 && Safe(t, free, a) && a.needed >= 1 && us != []
    requires var b := AfterCaches(t, a); Safe(t, free, b) && Quiet(t, b) && !Satisfied(b)
    ensures TakeUncoreLoop(t, a, us) == TakeUncoreLoop(t, AfterCaches(t, a), us)
  {
    var b := AfterCaches(t, a);
    if b.needed >= t.CPUsPerUncore() {
      QuietPass(t, free, b);
    }
  }

  lemma CachesKept(t: CPUTopology, free: set<int>, n: int, a: Acc)
    requires WellFormed(t) && Inv(t, free, n, a) && (a.needed < t.CPUsPerUncore() || Nested(t.cpuDetails, Uncore, Numa))
    ensures Inv(t, free, n, AfterCaches(t, a)) && Quiet(t, AfterCaches(t, a))
    ensures a.result <= AfterCaches(t, a).result && AfterCaches(t, a).details.Keys <= a.details.Keys
  {
    if a.needed >= t.CPUsPerUncore() {
      var us := FreeUnits(t, Uncore, a.details);
      FreeUnitsExact(t, free, Uncore, a);
      FreeList(t, free, Uncore, a);
      TakeUnitsKeeps(t, free, n, Uncore, a, us);
      TakeFullIsMaximal(t, free, Uncore, a);
      TakeUnitsShrinks(t, Uncore, a, us);
    }
  }

  lemma AverageIsPositive(t: CPUTopology)
    requires WellFormed(t) && t.cpuDetails.Keys != {}
    ensures t.CPUsPerUncore() >= 1
  {
    var d := t.cpuDetails;
    var us := Units(d, Uncore);
    var c := Pick(d.Keys);
    assert UnitOf(d, Uncore, c) in us;
    UnitsAtMost(d, Uncore, us);
    assert MembersOf(d, Uncore, us) == d.Keys;
    DivMonotone(|us|, |d.Keys|, |us|);
    DivModUnique(|us|, 1, 0);
  }

  lemma {:induction false} UnitsAtMost(d: CPUDetails, l: Level, us: set<int>)
    requires us <= Units(d, l)
    ensures |us| <= |MembersOf(d, l, us)|
    decreases |us|
  {
    if us != {} {
      var u := Pick(us);
      UnitsAtMost(d, l, us - {u});
      MembersNonEmpty(d, l, u);
      assert MembersOf(d, l, us) == MembersOf(d, l, us - {u}) + Members(d, l, u);
      assert MembersOf(d, l, us - {u}) !! Members(d, l, u);
    }
  }

  /** A cache that fits has a free CPU, so it is on the list. */
  lemma FittingListed(t: CPUTopology, free: set<int>, a: Acc, b: Acc, v: int)
    requires Safe(t, free, b) && b.details.Keys <= a.details.Keys && b.needed >= 1
    requires a.details.Keys <= t.cpuDetails.Keys && forall c :: c in a.details ==> a.details[c] == t.cpuDetails[c]
    requires FitsCache(t, free - b.result, v, b.needed)
    ensures v in SortAvailable(a.details, ChainOf(t, Uncore))
  {
    SafeKeys(t, free, b);
    AvailableElements(a.details, ChainOf(t, Uncore));
    var c := Pick(LowestCPUs(t, free - b.result, v, b.needed));
    assert c in a.details && UnitOf(a.details, Uncore, c) == v;
  }

  lemma ListInOrder(t: CPUTopology, free: set<int>, a: Acc)
    requires WellFormed(t) && Safe(t, free, a) && Nested(t.cpuDetails, Uncore, Numa)
    ensures ListOrdered(a.details, ChainOf(t, Uncore), Uncore, SortAvailable(a.details, ChainOf(t, Uncore)))
  {
    ChainNested(t, Uncore, free - a.result);
    AvailableOrdered(a.details, ChainOf(t, Uncore));
  }

  lemma FirstInOrder(t: CPUTopology, free: set<int>, a: Acc, b: Acc, us: seq<int>, i: nat)
    requires WellFormed(t) && Safe(t, free, a) && Safe(t, free, b) && b.details.Keys <= a.details.Keys && b.needed >= 1
    requires us == SortAvailable(a.details, ChainOf(t, Uncore)) && i < |us|
    requires forall j :: 0 <= j < i ==> !FitsCache(t, free - b.result, us[j], b.needed)
    ensures Nested(t.cpuDetails, Uncore, Numa) ==>
      FirstFitting(t, ChainOf(t, Uncore), free - a.result, free - b.result, b.needed, us[i])
  {
    if Nested(t.cpuDetails, Uncore, Numa) {
      ListInOrder(t, free, a);
      forall v | FitsCache(t, free - b.result, v, b.needed) && v != us[i]
        ensures UnitBefore(KeepOnly(t.cpuDetails, free - a.result), ChainOf(t, Uncore), Uncore, us[i], v)
      {
        FittingListed(t, free, a, b, v);
        var j := IndexOf(us, v);
        assert j > i;
      }
    }
  }

  lemma ListNotEmpty(t: CPUTopology, free: set<int>, n: int, a: Acc)
    requires WellFormed(t) && Inv(t, free, n, a) && a.needed >= 1
    ensures SortAvailable(a.details, ChainOf(t, Uncore)) != []
  {
    SafeKeys(t, free, a);
    AvailableElements(a.details, ChainOf(t, Uncore));
    var c := Pick(a.details.Keys);
    assert UnitOf(a.details, Uncore, c) in Units(a.details, Uncore);
    assert UnitOf(a.details, Uncore, c) in SortAvailable(a.details, ChainOf(t, Uncore));
  }

  /** The stage ends with the whole caches, or with part of the first cache that fits the rest. */
  lemma StageIs(t: CPUTopology, free: set<int>, n: int, a: Acc)
    requires WellFormed(t) && t.CPUsPerCore() > 0 && Inv(t, free, n, a) && a.needed >= 1
    requires a.needed < t.CPUsPerUncore() || Nested(t.cpuDetails, Uncore, Numa)
    ensures var b := AfterCaches(t, a);
      if b.needed >= 1 && SomeFits(t, free - b.result, b.needed)
      then TakeUncore(t, a).needed == 0
           && OnOneCache(t, ChainOf(t, Uncore), free - a.result, free - b.result, b.needed, TakeUncore(t, a).result)
      else TakeUncore(t, a) == b
    ensures AfterCaches(t, a).result <= TakeUncore(t, a).result
  {
    var b, us := AfterCaches(t, a), SortAvailable(a.details, ChainOf(t, Uncore));
    CachesKept(t, free, n, a);
    ListNotEmpty(t, free, n, a);
    FirstTurn(t, a, us);
    if b.needed >= 1 {
      LaterTurns(t, free, a, us);
      var i := QuietLoopIs(t, free, b, us);
      if i < |us| {
        FirstInOrder(t, free, a, b, us, i);
        PartTaken(t, free, a, b, us[i]);
        assert SomeFits(t, free - b.result, b.needed);
      } else {
        NoneFits(t, free, a, b, us);
      }
    }
  }

  lemma PartTaken(t: CPUTopology, free: set<int>, a: Acc, b: Acc, u: int)
    requires WellFormed(t) && t.CPUsPerCore() > 0 && Safe(t, free, b) && b.needed >= 1
    requires FitsCache(t, free - b.result, u, b.needed)
    requires Nested(t.cpuDetails, Uncore, Numa) ==>
      FirstFitting(t, ChainOf(t, Uncore), free - a.result, free - b.result, b.needed, u)
    ensures Take(b, PartialChoice(t, b, u)).needed == 0
    ensures OnOneCache(t, ChainOf(t, Uncore), free - a.result, free - b.result, b.needed,
                       Take(b, PartialChoice(t, b, u)).result)
  {
    var choice, left := PartialChoice(t, b, u), free - b.result;
    ChoiceIs(t, free, b, u);
    assert choice <= left by {
      assert LowestCPUs(t, left, u, b.needed) <= left;
    }
    assert left * (b.result + choice) == choice;
  }

  lemma NoneFits(t: CPUTopology, free: set<int>, a: Acc, b: Acc, us: seq<int>)
    requires WellFormed(t) && Safe(t, free, a) && Safe(t, free, b) && b.details.Keys <= a.details.Keys && b.needed >= 1
    requires us == SortAvailable(a.details, ChainOf(t, Uncore))
    requires forall j :: 0 <= j < |us| ==> !FitsCache(t, free - b.result, us[j], b.needed)
    ensures !SomeFits(t, free - b.result, b.needed)
  {
    forall v ensures !FitsCache(t, free - b.result, v, b.needed) {
      if FitsCache(t, free - b.result, v, b.needed) {
        FittingListed(t, free, a, b, v);
        var j := IndexOf(us, v);
      }
    }
  }

  // ---- the whole allocator, aligned to caches

  /** What comes of the state in which the whole units have been taken. */
  ghost function Aligned(t: CPUTopology, a2: Acc, strategy: string): set<int>
    requires t.CPUsPerCore() > 0
  {
    var a3 := if a2.needed >= 1 then TakeUncore(t, a2) else a2;
    var a4 := AfterCores(t, a3, strategy);
    if a3.needed <= 0 then a3.result else if a4.needed <= 0 then a4.result else TakeRemaining(t, a4, strategy).result
  }

  lemma AlignedIs(t: CPUTopology, free: set<int>, n: int, a: Acc, strategy: string)
    requires WellFormed(t) && t.CPUsPerCore() > 0 && Inv(t, free, n, a)
    ensures Stages(t, a, strategy, true).Ok? && Inv(t, free, n, AfterUnits(t, a))
    ensures Stages(t, a, strategy, true).cpus == Aligned(t, AfterUnits(t, a), strategy)
  {
    var a1 := TakeFull(t, FirstLevel(t), a);
    FirstStages(t, free, a);
    StagesSafe(t, free, n, a, strategy, true);
    if Satisfied(a1) {
      NothingNeeded(t, free, SecondLevel(t), a1);
    }
  }

  lemma TailOf(t: CPUTopology, free: set<int>, n: int, b: Acc, strategy: string)
    requires WellFormed(t) && Inv(t, free, n, b)
    ensures var a4 := AfterCores(t, b, strategy);
      && Inv(t, free, n, a4)
      && (b.needed == 0 ==> a4 == b)
  {
    TakeFullKeeps(t, free, n, Core, b);
    if b.needed == 0 {
      NothingNeeded(t, free, Core, b);
    }
  }

  lemma ChainIs(t: CPUTopology)
    ensures ChainOf(t, Uncore) == CacheChain(FirstLevel(t))
  {
  }

  lemma AlignedGrows(t: CPUTopology, free: set<int>, n: int, a2: Acc, strategy: string)
    requires WellFormed(t) && t.CPUsPerCore() > 0 && Inv(t, free, n, a2) && a2.needed >= 1
    requires a2.needed < t.CPUsPerUncore() || Nested(t.cpuDetails, Uncore, Numa)
    ensures AfterCaches(t, a2).result <= Aligned(t, a2, strategy)
  {
    var a3 := TakeUncore(t, a2);
    StageIs(t, free, n, a2);
    TakeUnitsShrinks(t, Core, a3, FreeUnits(t, Core, a3.details));
    var a4 := AfterCores(t, a3, strategy);
    SinglesGrow(a4, SortAvailable(a4.details, CpuChain(t, strategy)));
  }

  lemma WholeCaches(t: CPUTopology, free: set<int>, n: int, a2: Acc, strategy: string, s: set<int>)
    requires WellFormed(t) && t.CPUsPerCore() > 0 && Inv(t, free, n, a2) && a2.needed >= 1
    requires a2.needed >= t.CPUsPerUncore() && Nested(t.cpuDetails, Uncore, Numa)
    requires s == Aligned(t, a2, strategy) && s <= free && |s| <= n
    ensures TakenInOrder(t, CacheChain(FirstLevel(t)), Uncore, free - a2.result, a2.needed, s)
    ensures TakenWhole(t, Uncore, free - a2.result, s) == AfterCaches(t, a2).result - a2.result
  {
    CachesKept(t, free, n, a2);
    AlignedGrows(t, free, n, a2, strategy);
    Rest(free, n, AfterCaches(t, a2), s);
    ChainIs(t);
    StageTaken(t, free, Uncore, a2, s);
  }

  /** What the whole caches leave. */
  lemma LastIs(t: CPUTopology, free: set<int>, n: int, a2: Acc, strategy: string, s: set<int>)
    requires WellFormed(t) && t.CPUsPerCore() > 0 && Inv(t, free, n, a2) && t.CPUsPerUncore() >= 1
    requires a2.needed < t.CPUsPerUncore() || Nested(t.cpuDetails, Uncore, Numa)
    requires s == Aligned(t, a2, strategy) && s <= free && |s| <= n
    ensures var b, left := AfterCaches(t, a2), free - a2.result;
      var last := LeftOfCaches(t, left, a2.needed, s);
      last == free - b.result && b.needed == a2.needed - (|left| - |last|)
    ensures a2.needed >= t.CPUsPerUncore() ==>
      TakenInOrder(t, CacheChain(FirstLevel(t)), Uncore, free - a2.result, a2.needed, s)
  {
    if a2.needed >= t.CPUsPerUncore() {
      CachesKept(t, free, n, a2);
      WholeCaches(t, free, n, a2, strategy, s);
      LeftAfter(free, a2, AfterCaches(t, a2), free - a2.result, TakenWhole(t, Uncore, free - a2.result, s), n);
    }
  }

  lemma RestTaken(t: CPUTopology, free: set<int>, n: int, a2: Acc, strategy: string, s: set<int>)
    requires WellFormed(t) && t.CPUsPerCore() > 0 && Inv(t, free, n, a2)
    requires a2.needed < t.CPUsPerUncore() || Nested(t.cpuDetails, Uncore, Numa)
    requires a2.needed >= 1 || AfterCaches(t, a2) == a2
    requires s == Aligned(t, a2, strategy) && s <= free && |s| <= n
    ensures var b := AfterCaches(t, a2);
      CacheOrCores(t, FirstLevel(t), SecondLevel(t), free - a2.result, free - b.result, b.needed, strategy, s)
  {
    var b := AfterCaches(t, a2);
    CachesKept(t, free, n, a2);
    ChainIs(t);
    TailOf(t, free, n, b, strategy);
    if a2.needed >= 1 {
      StageIs(t, free, n, a2);
    }
    if !(b.needed >= 1 && SomeFits(t, free - b.result, b.needed)) {
      CoresTaken(t, free, n, b, strategy, s);
    }
  }

  lemma CachesTaken(t: CPUTopology, free: set<int>, n: int, a2: Acc, strategy: string, s: set<int>)
    requires WellFormed(t) && t.CPUsPerCore() > 0 && Inv(t, free, n, a2) && t.CPUsPerUncore() >= 1
    requires a2.needed < t.CPUsPerUncore() || Nested(t.cpuDetails, Uncore, Numa)
    requires s == Aligned(t, a2, strategy) && s <= free && |s| <= n
    ensures CachesNext(t, FirstLevel(t), SecondLevel(t), free - a2.result, a2.needed, strategy, s)
  {
    LastIs(t, free, n, a2, strategy, s);
    RestTaken(t, free, n, a2, strategy, s);
    var b := AfterCaches(t, a2);
    Assembled(t, FirstLevel(t), SecondLevel(t), free - a2.result, a2.needed, free - b.result, b.needed, strategy, s);
  }

  lemma Assembled(t: CPUTopology, outer: Level, inner: Level, free: set<int>, n: int, last: set<int>, m: int,
                  strategy: string, s: set<int>)
    requires last == LeftOfCaches(t, free, n, s) && m == n - (|free| - |last|)
    requires n >= t.CPUsPerUncore() ==> TakenInOrder(t, CacheChain(outer), Uncore, free, n, s)
    requires CacheOrCores(t, outer, inner, free, last, m, strategy, s)
    ensures CachesNext(t, outer, inner, free, n, strategy, s)
  {
  }

  /** Aligned to caches, whole units come first; then whole caches, then part of one cache. */
  lemma PackedTakesCaches(t: CPUTopology, available: set<int>, n: int, strategy: string)
    requires WellFormed(t) && 1 <= n <= |t.cpuDetails.Keys * available|
    ensures Packed(t, available, n, strategy, true).Ok?
    ensures ThenCaches(t, t.cpuDetails.Keys * available, n, strategy, Packed(t, available, n, strategy, true).cpus)
  {
    StartsRight(t, available, n);
    StagesTakeCaches(t, t.cpuDetails.Keys * available, n, NewAcc(t, available, n), strategy);
  }

  lemma StagesTakeCaches(t: CPUTopology, free: set<int>, n: int, a: Acc, strategy: string)
    requires WellFormed(t) && t.CPUsPerCore() > 0 && Inv(t, free, n, a) && a.result == {} && n >= 1
    ensures Stages(t, a, strategy, true).Ok? && ThenCaches(t, free, n, strategy, Stages(t, a, strategy, true).cpus)
  {
    FirstTwo(t, free, n, a, strategy, true);
    AlignedIs(t, free, n, a, strategy);
    StagesSafe(t, free, n, a, strategy, true);
    ChainsAre(t);
    assert free != {};
    AverageIsPositive(t);
    KnownFrom(t, free, n, AfterUnits(t, a), strategy, Stages(t, a, strategy, true).cpus);
    SmallerCachesAre(t, free, n, a, FirstLevel(t), SecondLevel(t), strategy, Stages(t, a, strategy, true).cpus);
  }

  lemma SmallerCachesAre(t: CPUTopology, free: set<int>, n: int, a: Acc, outer: Level, inner: Level, strategy: string,
                         s: set<int>)
    requires WellFormed(t) && Inv(t, free, n, a) && a.result == {} && outer == FirstLevel(t) && inner == SecondLevel(t)
    requires OnTheWay(t, free, n, TakeFull(t, outer, a), AfterUnits(t, a), s)
    requires CachesKnown(t, outer, inner, free - AfterUnits(t, a).result, AfterUnits(t, a).needed, strategy, s)
    ensures SmallerCaches(t, outer, inner, free, n, strategy, s)
  {
    UnitsLeft(t, free, n, a, outer, inner, s);
    FromRest(t, outer, inner, free, n, strategy, s, free - AfterUnits(t, a).result, AfterUnits(t, a).needed);
  }

  lemma FromRest(t: CPUTopology, outer: Level, inner: Level, free: set<int>, n: int, strategy: string, s: set<int>,
                 rest: set<int>, m: int)
    requires rest == LeftOfUnits(t, outer, inner, free, s) && m == n - (|free| - |rest|)
    requires CachesKnown(t, outer, inner, rest, m, strategy, s)
    ensures SmallerCaches(t, outer, inner, free, n, strategy, s)
  {
    hide *;
    assert n - (|free| - |LeftOfUnits(t, outer, inner, free, s)|) == m;
    Folded(t, outer, inner, free, n, strategy, s);
  }

  lemma Folded(t: CPUTopology, outer: Level, inner: Level, free: set<int>, n: int, strategy: string, s: set<int>)
    requires CachesKnown(t, outer, inner, LeftOfUnits(t, outer, inner, free, s),
                         n - (|free| - |LeftOfUnits(t, outer, inner, free, s)|), strategy, s)
    ensures SmallerCaches(t, outer, inner, free, n, strategy, s)
  {
  }

  lemma KnownFrom(t: CPUTopology, free: set<int>, n: int, a2: Acc, strategy: string, s: set<int>)
    requires WellFormed(t) && t.CPUsPerCore() > 0 && Inv(t, free, n, a2) && t.CPUsPerUncore() >= 1
    requires s == Aligned(t, a2, strategy) && s <= free && |s| <= n
    ensures CachesKnown(t, FirstLevel(t), SecondLevel(t), free - a2.result, a2.needed, strategy, s)
  {
    if a2.needed < t.CPUsPerUncore() || Nested(t.cpuDetails, Uncore, Numa) {
      CachesTaken(t, free, n, a2, strategy, s);
    }
  }

  /** Which CPUs are handed out: whole units first, then caches if the call is aligned to them
      and cores if not, then single CPUs. */
  ghost predicate InOrder(t: CPUTopology, free: set<int>, n: int, strategy: string, align: bool, s: set<int>) {
    && WholeUnitsFirst(t, free, n, s)
    && if align then ThenCaches(t, free, n, strategy, s) else ThenCores(t, free, n, strategy, s)
  }

  lemma PackedInOrder(t: CPUTopology, available: set<int>, n: int, strategy: string, align: bool)
    requires WellFormed(t) && 1 <= n <= |t.cpuDetails.Keys * available|
    ensures Packed(t, available, n, strategy, align).Ok?
    ensures InOrder(t, t.cpuDetails.Keys * available, n, strategy, align, Packed(t, available, n, strategy, align).cpus)
  {
    hide ThenCaches, ThenCores, WholeUnitsFirst;
    PackedTakesWholeUnits(t, available, n, strategy, align);
    if align {
      PackedTakesCaches(t, available, n, strategy);
    } else {
      PackedTakesCores(t, available, n, strategy);
    }
  }
}
