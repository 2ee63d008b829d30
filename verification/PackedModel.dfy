/** The packed allocator as functions on accumulator values. The class CpuAccumulator is
    proved to compute exactly these; the properties of the allocator are proved here. */
module PackedModel {
  import opened Sorting
  import opened Topology
  import opened UnitOrder

  const PACKED := "packed"
  const SPREAD := "spread"

  /** The free CPUs still claimable, how many are still needed, and those claimed. */
  datatype Acc = Acc(details: CPUDetails, needed: int, result: set<int>)

  datatype Result = Ok(cpus: set<int>) | NotEnough | Failed

  function NewAcc(t: CPUTopology, available: set<int>, n: int): Acc {
    Acc(KeepOnly(t.cpuDetails, available), n, {})
  }

  predicate Satisfied(a: Acc) {
    a.needed < 1
  }

  function Take(a: Acc, cpus: set<int>): Acc {
    var result := a.result + cpus;
    Acc(KeepOnly(a.details, a.details.Keys - result), a.needed - |cpus|, result)
  }

  /** isNUMANodeFree and isUncoreCacheFree compare with the real unit, isSocketFree and
      isCoreFree with the machine's average. */
  predicate IsFree(t: CPUTopology, l: Level, d: CPUDetails, u: int) {
    var size := |Members(d, l, u)|;
    match l
    case Numa => size == |Members(t.cpuDetails, Numa, u)|
    case Socket => size == t.CPUsPerSocket()
    case Uncore => size == |Members(t.cpuDetails, Uncore, u)|
    case Core => size == t.CPUsPerCore()
    case Cpu => size == 1
  }

  function Filter(t: CPUTopology, l: Level, d: CPUDetails, us: seq<int>): (r: seq<int>)
    ensures forall u :: u in r <==> u in us && IsFree(t, l, d, u)
    ensures NoDup(us) ==> NoDup(r)
  {
    if us == [] then []
    else
      var rest := Filter(t, l, d, us[1..]);
      assert forall i :: 0 < i < |us| ==> us[1..][i - 1] == us[i];
      if IsFree(t, l, d, us[0]) then [us[0]] + rest else rest
  }

  lemma FilterStep(t: CPUTopology, l: Level, d: CPUDetails, us: seq<int>, i: nat)
    requires i < |us|
    ensures Filter(t, l, d, us[i..]) == (if IsFree(t, l, d, us[i]) then [us[i]] else []) + Filter(t, l, d, us[i + 1..])
  {
    assert us[i..][1..] == us[i + 1..];
  }

  /** freeNUMANodes, freeSockets, freeUncoreCache and freeCores. */
  function FreeUnits(t: CPUTopology, l: Level, d: CPUDetails): seq<int> {
    Filter(t, l, d, SortAvailable(d, ChainOf(t, l)))
  }

  /** One pass over a list of units: each is claimed whole if that many CPUs are needed. */
  function TakeUnits(t: CPUTopology, l: Level, a: Acc, us: seq<int>): Acc
    decreases |us|
  {
    if us == [] then a
    else
      var cpus := Members(t.cpuDetails, l, us[0]);
      TakeUnits(t, l, if a.needed >= |cpus| then Take(a, cpus) else a, us[1..])
  }

  /** takeFullNUMANodes, takeFullSockets, takeFullUncore and takeFullCores. */
  function TakeFull(t: CPUTopology, l: Level, a: Acc): Acc {
    TakeUnits(t, l, a, FreeUnits(t, l, a.details))
  }

  function DropHighest(cpus: set<int>): (r: set<int>)
    requires |cpus| > 0
    ensures r <= cpus && |r| == |cpus| - 1
  {
    var all := List(cpus);
    NoDupSize(all[..|cpus| - 1]);
    assert forall x :: x in all[..|cpus| - 1] ==> x in all;
    Elements(all[..|cpus| - 1])
  }

  /** The free CPUs of just enough cores of one cache. */
  function PartialCpus(t: CPUTopology, a: Acc, u: int): set<int>
    requires t.CPUsPerCore() > 0 && a.needed >= 1
  {
    var cores := CoresNeededInUncoreCache(a.details, (a.needed + t.CPUsPerCore() - 1) / t.CPUsPerCore(), u);
    MembersOf(a.details, Core, cores)
  }

  /** The CPUs takePartialUncore tries to claim: those, less the highest-numbered one when an
      odd request does not need it. */
  function PartialChoice(t: CPUTopology, a: Acc, u: int): (r: set<int>)
    requires t.CPUsPerCore() > 0 && a.needed >= 1
    ensures r <= PartialCpus(t, a, u) <= a.details.Keys
    ensures r == PartialCpus(t, a, u) || |r| == |PartialCpus(t, a, u)| - 1
  {
    var cpus := PartialCpus(t, a, u);
    if a.needed % 2 != 0 && t.CPUsPerCore() > 1 && |cpus| > a.needed then DropHighest(cpus) else cpus
  }

  function TakePartial(t: CPUTopology, a: Acc, u: int): Acc
    requires t.CPUsPerCore() > 0 && a.needed >= 1
  {
    var cpus := PartialChoice(t, a, u);
    if a.needed == |cpus| then Take(a, cpus) else a
  }

  function TakeUncoreLoop(t: CPUTopology, a: Acc, us: seq<int>): Acc
    requires t.CPUsPerCore() > 0
    decreases |us|
  {
    if us == [] then a
    else
      var b := if a.needed >= t.CPUsPerUncore() then TakeFull(t, Uncore, a) else a;
      if Satisfied(b) then b
      else
        var c := TakePartial(t, b, us[0]);
        if Satisfied(c) then c else TakeUncoreLoop(t, c, us[1..])
  }

  function TakeUncore(t: CPUTopology, a: Acc): Acc
    requires t.CPUsPerCore() > 0
  {
    TakeUncoreLoop(t, a, SortAvailable(a.details, ChainOf(t, Uncore)))
  }

  function TakeSingles(a: Acc, cpus: seq<int>): Acc
    decreases |cpus|
  {
    if cpus == [] then a
    else
      var b := Take(a, {cpus[0]});
      if Satisfied(b) then b else TakeSingles(b, cpus[1..])
  }

  function CpuChain(t: CPUTopology, strategy: string): (chain: seq<Level>)
    ensures |chain| > 0 && chain[|chain| - 1] == Cpu
  {
    if strategy == PACKED then ChainOf(t, Cpu) else SpreadChain(t)
  }

  function TakeRemaining(t: CPUTopology, a: Acc, strategy: string): Acc {
    TakeSingles(a, SortAvailable(a.details, CpuChain(t, strategy)))
  }

  function FirstLevel(t: CPUTopology): Level {
    if t.numSockets >= t.numNUMANodes then Numa else Socket
  }

  function SecondLevel(t: CPUTopology): Level {
    if t.numSockets >= t.numNUMANodes then Socket else Numa
  }

  /** The stages of takeByTopologyNUMAPacked after its two early exits. */
  function Stages(t: CPUTopology, a: Acc, strategy: string, align: bool): Result
    requires t.CPUsPerCore() > 0
  {
    var a1 := TakeFull(t, FirstLevel(t), a);
    if Satisfied(a1) then Ok(a1.result) else
    var a2 := TakeFull(t, SecondLevel(t), a1);
    if Satisfied(a2) then Ok(a2.result) else
    var a3 := if align then TakeUncore(t, a2) else a2;
    if Satisfied(a3) then Ok(a3.result) else
    var a4 := if strategy != SPREAD then TakeFull(t, Core, a3) else a3;
    if Satisfied(a4) then Ok(a4.result) else
    var a5 := TakeRemaining(t, a4, strategy);
    if Satisfied(a5) then Ok(a5.result) else Failed
  }

  lemma CoresNonEmpty(t: CPUTopology)
    requires WellFormed(t) && t.cpuDetails.Keys != {}
    ensures t.CPUsPerCore() > 0
  {
    var c := Pick(t.cpuDetails.Keys);
    var u := UnitOf(t.cpuDetails, Core, c);
    assert u in Units(t.cpuDetails, Core);
    MembersNonEmpty(t.cpuDetails, Core, u);
  }

  function Packed(t: CPUTopology, available: set<int>, n: int, strategy: string, align: bool): Result
    requires WellFormed(t)
  {
    var a := NewAcc(t, available, n);
    if Satisfied(a) then Ok(a.result)
    else if a.needed > |a.details.Keys| then NotEnough
    else
      KeepMembers(t.cpuDetails, available, Cpu, 0);
      CoresNonEmpty(t);
      Stages(t, a, strategy, align)
  }

  // ---- what every step keeps

  /** The claimable CPUs are the initially free ones less the claimed ones. */
  ghost predicate Safe(t: CPUTopology, free: set<int>, a: Acc) {
    && free <= t.cpuDetails.Keys
    && a.result <= free
    && a.details == KeepOnly(t.cpuDetails, free - a.result)
  }

  /** Claimed and needed CPUs add up to the request, which the free CPUs can serve. */
  ghost predicate Counted(free: set<int>, n: int, a: Acc) {
    |a.result| + a.needed == n <= |free| && 0 <= a.needed
  }

  ghost predicate Inv(t: CPUTopology, free: set<int>, n: int, a: Acc) {
    Safe(t, free, a) && Counted(free, n, a)
  }

  lemma SafeKeys(t: CPUTopology, free: set<int>, a: Acc)
    requires Safe(t, free, a)
    ensures a.details.Keys == free - a.result
    ensures |a.details.Keys| == |free| - |a.result|
  {
    SubsetSize(a.result, free);
    KeepMembers(t.cpuDetails, free - a.result, Cpu, 0);
  }

  lemma TakeSafe(t: CPUTopology, free: set<int>, a: Acc, cpus: set<int>)
    requires Safe(t, free, a) && cpus <= free
    ensures Safe(t, free, Take(a, cpus))
    ensures Take(a, cpus).details.Keys == a.details.Keys - cpus
  {
    SafeKeys(t, free, a);
    var b := Take(a, cpus);
    assert a.details.Keys - b.result == free - b.result;
    KeepTwice(t.cpuDetails, free - a.result, free - b.result);
    SafeKeys(t, free, b);
  }

  lemma KeepTwice(d: CPUDetails, s: set<int>, r: set<int>)
    requires r <= s
    ensures KeepOnly(KeepOnly(d, s), r) == KeepOnly(d, r)
  {
  }

  lemma TakeKeeps(t: CPUTopology, free: set<int>, n: int, a: Acc, cpus: set<int>)
    requires Inv(t, free, n, a) && cpus <= a.details.Keys && |cpus| <= a.needed
    ensures Inv(t, free, n, Take(a, cpus))
  {
    SafeKeys(t, free, a);
    TakeSafe(t, free, a, cpus);
    assert a.result !! cpus;
  }

  /** Claiming only shrinks the need and the claimable CPUs. */
  lemma {:induction false} TakeUnitsShrinks(t: CPUTopology, l: Level, a: Acc, us: seq<int>)
    ensures var b := TakeUnits(t, l, a, us);
      b.needed <= a.needed && b.details.Keys <= a.details.Keys && a.result <= b.result
    decreases |us|
  {
    if us == [] {
    } else {
      var cpus := Members(t.cpuDetails, l, us[0]);
      TakeUnitsShrinks(t, l, if a.needed >= |cpus| then Take(a, cpus) else a, us[1..]);
    }
  }

  lemma {:induction false} TakeUnitsSafe(t: CPUTopology, free: set<int>, l: Level, a: Acc, us: seq<int>)
    requires Safe(t, free, a)
    requires forall u :: u in us ==> Members(t.cpuDetails, l, u) <= free
    ensures Safe(t, free, TakeUnits(t, l, a, us))
    decreases |us|
  {
    if us == [] {
    } else {
      var cpus := Members(t.cpuDetails, l, us[0]);
      TakeSafe(t, free, a, cpus);
      TakeUnitsSafe(t, free, l, if a.needed >= |cpus| then Take(a, cpus) else a, us[1..]);
    }
  }

  /** Each listed unit is wholly claimable or larger than the need, and no unit that could be
      claimed twice over is listed twice. */
  ghost predicate Claimable(t: CPUTopology, l: Level, a: Acc, us: seq<int>) {
    && (forall i :: 0 <= i < |us| ==> Members(t.cpuDetails, l, us[i]) <= a.details.Keys
                                      || |Members(t.cpuDetails, l, us[i])| > a.needed)
    && (forall i, j :: 0 <= i < j < |us| && us[i] == us[j] ==> 2 * |Members(t.cpuDetails, l, us[i])| > a.needed)
  }

  lemma ClaimableTail(t: CPUTopology, free: set<int>, l: Level, a: Acc, us: seq<int>)
    requires Safe(t, free, a) && us != [] && Claimable(t, l, a, us)
    ensures var cpus := Members(t.cpuDetails, l, us[0]);
      if a.needed >= |cpus| then cpus <= a.details.Keys && Claimable(t, l, Take(a, cpus), us[1..])
      else Claimable(t, l, a, us[1..])
  {
    var cpus, rest := Members(t.cpuDetails, l, us[0]), us[1..];
    assert forall i :: 0 <= i < |rest| ==> rest[i] == us[i + 1];
    if a.needed >= |cpus| {
      SafeKeys(t, free, a);
      TakeSafe(t, free, a, cpus);
      forall i | 0 <= i < |rest|
        ensures Members(t.cpuDetails, l, rest[i]) <= Take(a, cpus).details.Keys
                || |Members(t.cpuDetails, l, rest[i])| > Take(a, cpus).needed
      {
        if rest[i] == us[0] {
          assert 2 * |Members(t.cpuDetails, l, us[0])| > a.needed;
        } else {
          assert Members(t.cpuDetails, l, rest[i]) !! cpus;
        }
      }
    }
  }

  /** Whole units are claimed without double counting. */
  lemma {:induction false} TakeUnitsKeeps(t: CPUTopology, free: set<int>, n: int, l: Level, a: Acc, us: seq<int>)
    requires Inv(t, free, n, a) && Claimable(t, l, a, us)
    ensures Inv(t, free, n, TakeUnits(t, l, a, us))
    decreases |us|
  {
    if us == [] {
    } else {
      var cpus := Members(t.cpuDetails, l, us[0]);
      ClaimableTail(t, free, l, a, us);
      if a.needed >= |cpus| {
        TakeKeeps(t, free, n, a, cpus);
        TakeUnitsKeeps(t, free, n, l, Take(a, cpus), us[1..]);
      } else {
        TakeUnitsKeeps(t, free, n, l, a, us[1..]);
      }
    }
  }

  // ---- free units

  /** IsFree means wholly free, also where it compares with the average. */
  lemma FreeMeansWhole(t: CPUTopology, s: set<int>, l: Level, u: int)
    requires WellFormed(t) && u in Units(KeepOnly(t.cpuDetails, s), l)
    ensures u in Units(t.cpuDetails, l)
    ensures IsFree(t, l, KeepOnly(t.cpuDetails, s), u)
      <==> Members(t.cpuDetails, l, u) <= KeepOnly(t.cpuDetails, s).Keys
  {
    var d := KeepOnly(t.cpuDetails, s);
    var c :| c in d && UnitOf(d, l, c) == u;
    assert UnitOf(t.cpuDetails, l, c) == u;
    var whole := Members(t.cpuDetails, l, u);
    KeepMembers(t.cpuDetails, s, l, u);
    SubsetSize(whole * s, whole);
    if l == Cpu {
      assert whole == {u};
    }
    assert whole <= d.Keys <==> whole * s == whole;
  }

  /** The list of free units names exactly the wholly free units. */
  lemma FreeUnitsExact(t: CPUTopology, free: set<int>, l: Level, a: Acc)
    requires WellFormed(t) && Safe(t, free, a)
    ensures forall u :: (u in FreeUnits(t, l, a.details)
                         <==> u in Units(t.cpuDetails, l) && Members(t.cpuDetails, l, u) <= a.details.Keys)
  {
    var d := a.details;
    AvailableElements(d, ChainOf(t, l));
    forall u ensures u in FreeUnits(t, l, d)
      <==> u in Units(t.cpuDetails, l) && Members(t.cpuDetails, l, u) <= d.Keys
    {
      if u in Units(d, l) {
        FreeMeansWhole(t, free - a.result, l, u);
      } else if u in Units(t.cpuDetails, l) {
        MembersNonEmpty(t.cpuDetails, l, u);
        var c := Pick(Members(t.cpuDetails, l, u));
        assert forall x :: x in d ==> UnitOf(d, l, x) in Units(d, l);
        assert c !in d;
      }
    }
  }

  /** No wholly free unit of the level is small enough to be claimed. */
  ghost predicate Maximal(t: CPUTopology, l: Level, a: Acc) {
    forall u :: u in Units(t.cpuDetails, l) && Members(t.cpuDetails, l, u) <= a.details.Keys
      ==> |Members(t.cpuDetails, l, u)| > a.needed
  }

  lemma {:induction false} TakeUnitsMaximal(t: CPUTopology, free: set<int>, l: Level, a: Acc, us: seq<int>)
    requires Safe(t, free, a)
    requires forall u :: u in us ==> u in Units(t.cpuDetails, l) && Members(t.cpuDetails, l, u) <= free
    ensures var b := TakeUnits(t, l, a, us);
      forall u :: u in us && Members(t.cpuDetails, l, u) <= b.details.Keys ==> |Members(t.cpuDetails, l, u)| > b.needed
    decreases |us|
  {
    if us == [] {
    } else {
      var cpus := Members(t.cpuDetails, l, us[0]);
      var a' := if a.needed >= |cpus| then Take(a, cpus) else a;
      assert us[0] in us;
      TakeSafe(t, free, a, cpus);
      TakeUnitsMaximal(t, free, l, a', us[1..]);
      TakeUnitsShrinks(t, l, a', us[1..]);
      MembersNonEmpty(t.cpuDetails, l, us[0]);
      var c := Pick(cpus);
      assert a.needed >= |cpus| ==> c !in a'.details.Keys;
      assert forall u :: u in us ==> u == us[0] || u in us[1..];
    }
  }

  /** Each full-level take is greedily maximal, although its list of free units is computed
      once, before the loop. */
  lemma TakeFullIsMaximal(t: CPUTopology, free: set<int>, l: Level, a: Acc)
    requires WellFormed(t) && Safe(t, free, a)
    ensures Maximal(t, l, TakeFull(t, l, a))
  {
    FreeUnitsExact(t, free, l, a);
    SafeKeys(t, free, a);
    var us := FreeUnits(t, l, a.details);
    TakeUnitsMaximal(t, free, l, a, us);
    TakeUnitsShrinks(t, l, a, us);
    var b := TakeFull(t, l, a);
    forall u | u in Units(t.cpuDetails, l) && Members(t.cpuDetails, l, u) <= b.details.Keys
      ensures |Members(t.cpuDetails, l, u)| > b.needed
    {
      assert u in us;
    }
  }

  /** A full-level take claims free CPUs only. */
  lemma TakeFullSafe(t: CPUTopology, free: set<int>, l: Level, a: Acc)
    requires WellFormed(t) && Safe(t, free, a)
    ensures Safe(t, free, TakeFull(t, l, a))
    ensures TakeFull(t, l, a).needed <= a.needed
    ensures TakeFull(t, l, a).details.Keys <= a.details.Keys
  {
    FreeUnitsExact(t, free, l, a);
    SafeKeys(t, free, a);
    TakeUnitsSafe(t, free, l, a, FreeUnits(t, l, a.details));
    TakeUnitsShrinks(t, l, a, FreeUnits(t, l, a.details));
  }

  /** A full-level take counts right when its level nests in the chain it is sorted by, ... */
  lemma TakeFullKeeps(t: CPUTopology, free: set<int>, n: int, l: Level, a: Acc)
    requires WellFormed(t) && Inv(t, free, n, a)
    requires l == Numa || l == Socket || l == Core
    ensures Inv(t, free, n, TakeFull(t, l, a))
  {
    FreeUnitsExact(t, free, l, a);
    ChainNested(t, l, free - a.result);
    AvailableNoDup(a.details, ChainOf(t, l));
    assert NoDup(FreeUnits(t, l, a.details));
    TakeUnitsKeeps(t, free, n, l, a, FreeUnits(t, l, a.details));
  }

  // ---- cache-aligned mode

  lemma {:induction false} FilterRepeats(t: CPUTopology, l: Level, d: CPUDetails, us: seq<int>, u: int)
    requires Repeats(Filter(t, l, d, us), u)
    ensures Repeats(us, u)
  {
    var rest := us[1..];
    var head := if IsFree(t, l, d, us[0]) then [us[0]] else [];
    assert Filter(t, l, d, us) == head + Filter(t, l, d, rest);
    RepeatsInConcat(head, Filter(t, l, d, rest), u);
    assert forall k :: 0 < k < |us| ==> rest[k - 1] == us[k];
    if Repeats(Filter(t, l, d, rest), u) {
      FilterRepeats(t, l, d, rest, u);
      var i, j :| 0 <= i < j < |rest| && rest[i] == rest[j] == u;
      assert us[i + 1] == us[j + 1] == u;
    } else {
      assert us[0] == u && u in rest;
      var j :| 0 <= j < |rest| && rest[j] == u;
      assert us[0] == us[j + 1] == u;
    }
  }

  /** Unit u of one level has CPUs in two units of another level. */
  ghost predicate Straddles(d: CPUDetails, inner: Level, outer: Level, u: int) {
    exists a, b :: a in Members(d, inner, u) && b in Members(d, inner, u) && UnitOf(d, outer, a) != UnitOf(d, outer, b)
  }

  lemma StraddlesIfInBoth(d: CPUDetails, inner: Level, outer: Level, p: int, rest: seq<int>, u: int)
    requires p !in rest
    requires u in UnitsIn(d, inner, outer, p) && u in SortWithin(d, rest, outer, inner)
    ensures Straddles(d, inner, outer, u)
  {
    WithinElements(d, rest, outer, inner);
    var a :| a in d && UnitOf(d, outer, a) == p && UnitOf(d, inner, a) == u;
    var b :| b in d && UnitOf(d, outer, b) in rest && UnitOf(d, inner, b) == u;
    assert a in Members(d, inner, u) && b in Members(d, inner, u);
  }

  ghost predicate Repeats(s: seq<int>, u: int) {
    exists i, j :: 0 <= i < j < |s| && s[i] == s[j] == u
  }

  lemma RepeatsInConcat(s: seq<int>, r: seq<int>, u: int)
    requires Repeats(s + r, u) && NoDup(s)
    ensures Repeats(r, u) || (u in s && u in r)
  {
    var i, j :| 0 <= i < j < |s + r| && (s + r)[i] == (s + r)[j] == u;
    if i >= |s| {
      assert r[i - |s|] == r[j - |s|] == u;
    } else {
      assert s[i] == u && j >= |s|;
      assert r[j - |s|] == u;
    }
  }

  /** The per-parent concatenation lists a unit twice only if it lies in two parents. */
  lemma {:induction false} WithinRepeats(d: CPUDetails, parents: seq<int>, outer: Level, inner: Level, u: int)
    requires NoDup(parents) && Repeats(SortWithin(d, parents, outer, inner), u)
    ensures Straddles(d, inner, outer, u)
    decreases |parents|
  {
    var head := SortedIn(d, inner, outer, parents[0]);
    var rest := parents[1..];
    SortedNoDup(Counts(d, inner), head);
    RepeatsInConcat(head, SortWithin(d, rest, outer, inner), u);
    assert forall k :: 0 < k < |parents| ==> rest[k - 1] == parents[k];
    if Repeats(SortWithin(d, rest, outer, inner), u) {
      WithinRepeats(d, rest, outer, inner, u);
    } else {
      StraddlesIfInBoth(d, inner, outer, parents[0], rest, u);
    }
  }

  /** No free cache that cuts NUMA nodes is so small that the request could claim it twice. */
  ghost predicate CountsOnce(t: CPUTopology, free: set<int>, n: int) {
    forall u :: u in Units(t.cpuDetails, Uncore) && CutsNodes(t.cpuDetails, u) && Members(t.cpuDetails, Uncore, u) <= free
      ==> 2 * |Members(t.cpuDetails, Uncore, u)| > n
  }

  /** Once no free NUMA node fits, a wholly free cache that holds one does not fit either. */
  lemma HoldingCacheIsLarge(t: CPUTopology, a: Acc, u: int)
    requires Maximal(t, Numa, a) && HoldsNode(t.cpuDetails, u)
    requires Members(t.cpuDetails, Uncore, u) <= a.details.Keys
    ensures |Members(t.cpuDetails, Uncore, u)| > a.needed
  {
    var k :| k in Units(t.cpuDetails, Numa) && Members(t.cpuDetails, Numa, k) <= Members(t.cpuDetails, Uncore, u);
    SubsetSize(Members(t.cpuDetails, Numa, k), Members(t.cpuDetails, Uncore, u));
  }

  /** A cache that the list of free caches repeats lies in several NUMA nodes. */
  lemma RepeatedCacheStraddles(t: CPUTopology, free: set<int>, a: Acc, u: int)
    requires WellFormed(t) && Safe(t, free, a)
    requires Repeats(FreeUnits(t, Uncore, a.details), u)
    ensures u in Units(t.cpuDetails, Uncore) && Members(t.cpuDetails, Uncore, u) <= a.details.Keys
    ensures !InOneNuma(t.cpuDetails, u)
  {
    var d, chain := a.details, ChainOf(t, Uncore);
    assert u in FreeUnits(t, Uncore, d);
    FreeUnitsExact(t, free, Uncore, a);
    FilterRepeats(t, Uncore, d, SortAvailable(d, chain), u);
    assert chain[..|chain| - 1] == ChainOf(t, Numa);
    ChainNested(t, Numa, free - a.result);
    AvailableNoDup(d, ChainOf(t, Numa));
    WithinRepeats(d, SortAvailable(d, ChainOf(t, Numa)), Numa, Uncore, u);
    StraddlesWhole(t, free, a, u);
  }

  lemma StraddlesWhole(t: CPUTopology, free: set<int>, a: Acc, u: int)
    requires Safe(t, free, a) && Straddles(a.details, Uncore, Numa, u)
    ensures !InOneNuma(t.cpuDetails, u)
  {
    var d := a.details;
    var x, y :| x in Members(d, Uncore, u) && y in Members(d, Uncore, u) && UnitOf(d, Numa, x) != UnitOf(d, Numa, y);
    assert x in Members(t.cpuDetails, Uncore, u) && y in Members(t.cpuDetails, Uncore, u);
  }

  /** So it holds a NUMA node and is larger than the need, or it cuts its nodes. */
  lemma RepeatedCacheIsLarge(t: CPUTopology, free: set<int>, n: int, a: Acc, u: int)
    requires WellFormed(t) && CountsOnce(t, free, n) && Inv(t, free, n, a) && Maximal(t, Numa, a)
    requires Repeats(FreeUnits(t, Uncore, a.details), u)
    ensures 2 * |Members(t.cpuDetails, Uncore, u)| > a.needed
  {
    RepeatedCacheStraddles(t, free, a, u);
    SafeKeys(t, free, a);
    if HoldsNode(t.cpuDetails, u) {
      HoldingCacheIsLarge(t, a, u);
    }
  }

  lemma TakeFullUncoreKeeps(t: CPUTopology, free: set<int>, n: int, a: Acc)
    requires WellFormed(t) && CountsOnce(t, free, n) && Inv(t, free, n, a) && Maximal(t, Numa, a)
    ensures Inv(t, free, n, TakeFull(t, Uncore, a))
  {
    FreeUnitsExact(t, free, Uncore, a);
    var us := FreeUnits(t, Uncore, a.details);
    forall i, j | 0 <= i < j < |us| && us[i] == us[j] ensures 2 * |Members(t.cpuDetails, Uncore, us[i])| > a.needed {
      RepeatedCacheIsLarge(t, free, n, a, us[i]);
    }
    TakeUnitsKeeps(t, free, n, Uncore, a, us);
  }

  lemma TakePartialKeeps(t: CPUTopology, free: set<int>, a: Acc, u: int)
    requires t.CPUsPerCore() > 0 && a.needed >= 1 && Safe(t, free, a)
    ensures Safe(t, free, TakePartial(t, a, u))
    ensures forall n :: Inv(t, free, n, a) ==> Inv(t, free, n, TakePartial(t, a, u))
    ensures TakePartial(t, a, u).needed <= a.needed
    ensures TakePartial(t, a, u).details.Keys <= a.details.Keys
  {
    var cpus := PartialChoice(t, a, u);
    assert cpus <= a.details.Keys;
    SafeKeys(t, free, a);
    TakeSafe(t, free, a, cpus);
    forall n | Inv(t, free, n, a) ensures Inv(t, free, n, TakePartial(t, a, u)) {
      if a.needed == |cpus| {
        TakeKeeps(t, free, n, a, cpus);
      }
    }
  }

  lemma {:induction false} TakeUncoreLoopKeeps(t: CPUTopology, free: set<int>, a: Acc, us: seq<int>)
    requires WellFormed(t) && t.CPUsPerCore() > 0 && Safe(t, free, a) && Maximal(t, Numa, a) && !Satisfied(a)
    ensures Safe(t, free, TakeUncoreLoop(t, a, us))
    ensures forall n :: CountsOnce(t, free, n) && Inv(t, free, n, a) ==> Inv(t, free, n, TakeUncoreLoop(t, a, us))
    decreases |us|
  {
    if us == [] {
    } else {
      var b := if a.needed >= t.CPUsPerUncore() then TakeFull(t, Uncore, a) else a;
      TakeFullSafe(t, free, Uncore, a);
      forall n | CountsOnce(t, free, n) && Inv(t, free, n, a) ensures Inv(t, free, n, b) {
        TakeFullUncoreKeeps(t, free, n, a);
      }
      if !Satisfied(b) {
        TakePartialKeeps(t, free, b, us[0]);
        var c := TakePartial(t, b, us[0]);
        if !Satisfied(c) {
          TakeUncoreLoopKeeps(t, free, c, us[1..]);
        }
      }
    }
  }

  // ---- single threads

  /** takeRemainingCPUs claims exactly the first CPUs of its list, as many as are needed. */
  lemma {:induction false} TakeSinglesExact(t: CPUTopology, free: set<int>, a: Acc, cpus: seq<int>)
    requires Safe(t, free, a) && NoDup(cpus) && Elements(cpus) <= a.details.Keys
    requires 1 <= a.needed <= |cpus|
    ensures var b := TakeSingles(a, cpus);
      && Safe(t, free, b) && b.needed == 0
      && b.result == a.result + Elements(cpus[..a.needed])
    decreases |cpus|
  {
    var b := Take(a, {cpus[0]});
    HeadTail(cpus);
    SafeKeys(t, free, a);
    TakeSafe(t, free, a, {cpus[0]});
    if a.needed == 1 {
      assert cpus[..1] == [cpus[0]];
      assert Elements([cpus[0]]) == {cpus[0]};
    } else {
      TakeSinglesExact(t, free, b, cpus[1..]);
      PrefixElements(cpus, a.needed);
      AddAll(a.result, {cpus[0]}, Elements(cpus[1..][..a.needed - 1]));
    }
  }

  lemma AddAll(done: set<int>, one: set<int>, rest: set<int>)
    ensures (done + one) + rest == done + (one + rest)
  {
  }

  lemma PrefixElements(s: seq<int>, k: nat)
    requires 1 <= k <= |s|
    ensures Elements(s[..k]) == {s[0]} + Elements(s[1..][..k - 1])
  {
    HeadTail(s[..k]);
    assert s[..k][1..] == s[1..][..k - 1];
  }

  lemma SortedCpus(t: CPUTopology, free: set<int>, a: Acc, strategy: string)
    requires WellFormed(t) && Safe(t, free, a)
    ensures var cpus := SortAvailable(a.details, CpuChain(t, strategy));
      NoDup(cpus) && Elements(cpus) == a.details.Keys && |cpus| == |a.details.Keys|
  {
    var chain := CpuChain(t, strategy);
    ChainNested(t, Cpu, free - a.result);
    CpuListIsLexicographic(a.details, chain);
    NoDupSize(SortAvailable(a.details, chain));
  }

  lemma TakeRemainingKeeps(t: CPUTopology, free: set<int>, a: Acc, strategy: string)
    requires WellFormed(t) && Safe(t, free, a) && 1 <= a.needed <= |a.details.Keys|
    ensures var cpus := SortAvailable(a.details, CpuChain(t, strategy));
      var b := TakeRemaining(t, a, strategy);
      && |cpus| == |a.details.Keys|
      && Safe(t, free, b) && b.needed == 0
      && b.result == a.result + Elements(cpus[..a.needed])
  {
    SortedCpus(t, free, a, strategy);
    TakeSinglesExact(t, free, a, SortAvailable(a.details, CpuChain(t, strategy)));
  }

  lemma TakeRemainingCounts(t: CPUTopology, free: set<int>, n: int, a: Acc, strategy: string)
    requires WellFormed(t) && Inv(t, free, n, a) && !Satisfied(a)
    ensures Inv(t, free, n, TakeRemaining(t, a, strategy)) && TakeRemaining(t, a, strategy).needed == 0
  {
    var cpus := SortAvailable(a.details, CpuChain(t, strategy));
    SafeKeys(t, free, a);
    TakeRemainingKeeps(t, free, a, strategy);
    SortedCpus(t, free, a, strategy);
    PrefixSize(cpus, a.needed);
    assert a.result !! Elements(cpus[..a.needed]);
  }

  lemma PrefixSize(s: seq<int>, k: nat)
    requires NoDup(s) && k <= |s|
    ensures |Elements(s[..k])| == k && Elements(s[..k]) <= Elements(s)
  {
    NoDupSize(s[..k]);
    forall x | x in Elements(s[..k]) ensures x in Elements(s) {
      var i := IndexOf(s[..k], x);
      assert s[i] == x;
    }
  }

  // ---- the packed allocator

  /** The state handed to the cache-aligned stage. */
  lemma FirstStages(t: CPUTopology, free: set<int>, a: Acc)
    requires WellFormed(t) && Safe(t, free, a)
    ensures var a1 := TakeFull(t, FirstLevel(t), a);
      var a2 := TakeFull(t, SecondLevel(t), a1);
      && Safe(t, free, a1) && Safe(t, free, a2) && Maximal(t, Numa, a2)
      && forall n :: Inv(t, free, n, a) ==> Inv(t, free, n, a1) && Inv(t, free, n, a2)
  {
    var a1 := TakeFull(t, FirstLevel(t), a);
    TakeFullSafe(t, free, FirstLevel(t), a);
    TakeFullSafe(t, free, SecondLevel(t), a1);
    TakeFullIsMaximal(t, free, FirstLevel(t), a);
    TakeFullIsMaximal(t, free, SecondLevel(t), a1);
    forall n | Inv(t, free, n, a)
      ensures Inv(t, free, n, a1) && Inv(t, free, n, TakeFull(t, SecondLevel(t), a1))
    {
      TakeFullKeeps(t, free, n, FirstLevel(t), a);
      TakeFullKeeps(t, free, n, SecondLevel(t), a1);
    }
  }

  /** The last two stages finish the request. */
  lemma LastStages(t: CPUTopology, free: set<int>, n: int, a3: Acc, strategy: string)
    requires WellFormed(t) && t.CPUsPerCore() > 0 && Inv(t, free, n, a3) && !Satisfied(a3)
    ensures var a4 := if strategy != SPREAD then TakeFull(t, Core, a3) else a3;
      && Inv(t, free, n, a4)
      && (!Satisfied(a4) ==> Inv(t, free, n, TakeRemaining(t, a4, strategy))
                             && TakeRemaining(t, a4, strategy).needed == 0)
  {
    var a4 := if strategy != SPREAD then TakeFull(t, Core, a3) else a3;
    TakeFullKeeps(t, free, n, Core, a3);
    SafeKeys(t, free, a4);
    if !Satisfied(a4) {
      TakeRemainingCounts(t, free, n, a4, strategy);
    }
  }

  lemma StagesCorrect(t: CPUTopology, free: set<int>, n: int, a: Acc, strategy: string, align: bool)
    requires WellFormed(t) && (align ==> CountsOnce(t, free, n))
    requires t.CPUsPerCore() > 0 && Inv(t, free, n, a)
    ensures var r := Stages(t, a, strategy, align);
      r.Ok? && r.cpus <= free && |r.cpus| == n
  {
    FirstStages(t, free, a);
    var a2 := TakeFull(t, SecondLevel(t), TakeFull(t, FirstLevel(t), a));
    if !Satisfied(a2) {
      TakeUncoreLoopKeeps(t, free, a2, SortAvailable(a2.details, ChainOf(t, Uncore)));
      var a3 := if align then TakeUncore(t, a2) else a2;
      assert Inv(t, free, n, a3);
      if !Satisfied(a3) {
        LastStages(t, free, n, a3, strategy);
      }
    }
  }

  /** Packed allocation is totally correct: for every free set, request, strategy and cache
      flag it returns exactly the requested number of CPUs, all of them free, when there are
      that many, and reports the shortage otherwise. Aligned to caches this needs that no
      wholly free cache that cuts NUMA nodes has half the request or less. */
  lemma PackedCorrect(t: CPUTopology, available: set<int>, n: int, strategy: string, align: bool)
    requires WellFormed(t) && (align ==> CountsOnce(t, t.cpuDetails.Keys * available, n))
    ensures var free := t.cpuDetails.Keys * available;
      var r := Packed(t, available, n, strategy, align);
      if n > |free| then r == NotEnough
      else r.Ok? && r.cpus <= free && |r.cpus| == if n < 1 then 0 else n
  {
    var a := NewAcc(t, available, n);
    var free := t.cpuDetails.Keys * available;
    KeepMembers(t.cpuDetails, available, Cpu, 0);
    if !Satisfied(a) && n <= |free| {
      CoresNonEmpty(t);
      assert a.details == KeepOnly(t.cpuDetails, free - a.result);
      StagesCorrect(t, free, n, a, strategy, align);
    }
  }

  // ---- whatever the caches look like

  /** The count kept even when a cache may be claimed twice: the need never exceeds what the
      claimed CPUs leave of the request. */
  ghost predicate Under(free: set<int>, n: int, a: Acc) {
    |a.result| + a.needed <= n <= |free| && 0 <= a.needed
  }

  lemma {:induction false} TakeUnitsUnder(t: CPUTopology, free: set<int>, n: int, l: Level, a: Acc, us: seq<int>)
    requires Under(free, n, a)
    ensures Under(free, n, TakeUnits(t, l, a, us))
    decreases |us|
  {
    if us == [] {
    } else {
      var cpus := Members(t.cpuDetails, l, us[0]);
      assert |a.result + cpus| <= |a.result| + |cpus| by {
        assert a.result + cpus == a.result + (cpus - a.result);
        SubsetSize(cpus - a.result, cpus);
      }
      TakeUnitsUnder(t, free, n, l, if a.needed >= |cpus| then Take(a, cpus) else a, us[1..]);
    }
  }

  lemma {:induction false} TakeUncoreLoopUnder(t: CPUTopology, free: set<int>, n: int, a: Acc, us: seq<int>)
    requires WellFormed(t) && t.CPUsPerCore() > 0 && Safe(t, free, a) && Under(free, n, a) && !Satisfied(a)
    ensures Under(free, n, TakeUncoreLoop(t, a, us))
    decreases |us|
  {
    if us == [] {
    } else {
      var b := if a.needed >= t.CPUsPerUncore() then TakeFull(t, Uncore, a) else a;
      TakeFullSafe(t, free, Uncore, a);
      TakeUnitsUnder(t, free, n, Uncore, a, FreeUnits(t, Uncore, a.details));
      if !Satisfied(b) {
        TakePartialKeeps(t, free, b, us[0]);
        var c := TakePartial(t, b, us[0]);
        assert Under(free, n, c) by {
          assert PartialChoice(t, b, us[0]) !! b.result by {
            SafeKeys(t, free, b);
          }
        }
        if !Satisfied(c) {
          TakeUncoreLoopUnder(t, free, n, c, us[1..]);
        }
      }
    }
  }

  /** The last two stages finish a request however it was counted before. */
  lemma LastStagesSafe(t: CPUTopology, free: set<int>, n: int, a3: Acc, strategy: string)
    requires WellFormed(t) && Safe(t, free, a3) && Under(free, n, a3) && !Satisfied(a3)
    ensures var a4 := if strategy != SPREAD then TakeFull(t, Core, a3) else a3;
      && Safe(t, free, a4) && Under(free, n, a4)
      && (!Satisfied(a4) ==> var a5 := TakeRemaining(t, a4, strategy);
                             a5.needed == 0 && a5.result <= free && |a5.result| <= n)
  {
    var a4 := if strategy != SPREAD then TakeFull(t, Core, a3) else a3;
    TakeFullSafe(t, free, Core, a3);
    TakeUnitsUnder(t, free, n, Core, a3, FreeUnits(t, Core, a3.details));
    if !Satisfied(a4) {
      RemainingUnder(t, free, n, a4, strategy);
    }
  }

  lemma RemainingUnder(t: CPUTopology, free: set<int>, n: int, a: Acc, strategy: string)
    requires WellFormed(t) && Safe(t, free, a) && Under(free, n, a) && !Satisfied(a)
    ensures var b := TakeRemaining(t, a, strategy);
      b.needed == 0 && b.result <= free && |b.result| <= n
  {
    SafeKeys(t, free, a);
    TakeRemainingKeeps(t, free, a, strategy);
    ElementsAtMost(SortAvailable(a.details, CpuChain(t, strategy))[..a.needed]);
  }

  lemma FirstStagesUnder(t: CPUTopology, free: set<int>, n: int, a: Acc)
    requires WellFormed(t) && Safe(t, free, a) && Under(free, n, a)
    ensures var a1 := TakeFull(t, FirstLevel(t), a);
      Under(free, n, a1) && Under(free, n, TakeFull(t, SecondLevel(t), a1))
  {
    var a1 := TakeFull(t, FirstLevel(t), a);
    TakeUnitsUnder(t, free, n, FirstLevel(t), a, FreeUnits(t, FirstLevel(t), a.details));
    TakeUnitsUnder(t, free, n, SecondLevel(t), a1, FreeUnits(t, SecondLevel(t), a1.details));
  }

  lemma StagesSafe(t: CPUTopology, free: set<int>, n: int, a: Acc, strategy: string, align: bool)
    requires WellFormed(t) && t.CPUsPerCore() > 0 && Safe(t, free, a) && Under(free, n, a)
    ensures var r := Stages(t, a, strategy, align);
      r.Ok? && r.cpus <= free && |r.cpus| <= n
  {
    FirstStages(t, free, a);
    FirstStagesUnder(t, free, n, a);
    var a2 := TakeFull(t, SecondLevel(t), TakeFull(t, FirstLevel(t), a));
    if !Satisfied(a2) {
      var us := SortAvailable(a2.details, ChainOf(t, Uncore));
      TakeUncoreLoopKeeps(t, free, a2, us);
      TakeUncoreLoopUnder(t, free, n, a2, us);
      var a3 := if align then TakeUncore(t, a2) else a2;
      if !Satisfied(a3) {
        LastStagesSafe(t, free, n, a3, strategy);
      }
    }
  }

  lemma {:induction false} ElementsAtMost(s: seq<int>)
    ensures |Elements(s)| <= |s|
  {
    if s == [] {
      assert Elements(s) == {};
    } else {
      ElementsAtMost(s[1..]);
      assert s == [s[0]] + s[1..];
      assert Elements(s) == {s[0]} + Elements(s[1..]);
    }
  }

  /** Without any assumption on the caches the allocator still succeeds exactly when there are
      enough free CPUs and never hands out a CPU that is not free, nor too many. */
  lemma PackedSafe(t: CPUTopology, available: set<int>, n: int, strategy: string, align: bool)
    requires WellFormed(t)
    ensures var free := t.cpuDetails.Keys * available;
      var r := Packed(t, available, n, strategy, align);
      if n > |free| then r == NotEnough
      else r.Ok? && r.cpus <= free && |r.cpus| <= if n < 1 then 0 else n
  {
    var a := NewAcc(t, available, n);
    var free := t.cpuDetails.Keys * available;
    KeepMembers(t.cpuDetails, available, Cpu, 0);
    if !Satisfied(a) && n <= |free| {
      CoresNonEmpty(t);
      assert a.details == KeepOnly(t.cpuDetails, free - a.result);
      StagesSafe(t, free, n, a, strategy, align);
    }
  }

  // ---- a served request is not served with nothing

  ghost predicate Started(n: int, a: Acc) {
    a.result == {} ==> a.needed == n
  }

  lemma {:induction false} TakeUnitsStarted(t: CPUTopology, n: int, l: Level, a: Acc, us: seq<int>)
    requires Started(n, a) && forall i :: 0 <= i < |us| ==> us[i] in Units(t.cpuDetails, l)
    ensures Started(n, TakeUnits(t, l, a, us))
    decreases |us|
  {
    if us == [] {
    } else {
      var cpus := Members(t.cpuDetails, l, us[0]);
      MembersNonEmpty(t.cpuDetails, l, us[0]);
      assert a.result + cpus != {};
      TakeUnitsStarted(t, n, l, if a.needed >= |cpus| then Take(a, cpus) else a, us[1..]);
    }
  }

  lemma TakeFullStarted(t: CPUTopology, free: set<int>, n: int, l: Level, a: Acc)
    requires WellFormed(t) && Safe(t, free, a) && Started(n, a)
    ensures Started(n, TakeFull(t, l, a))
  {
    FreeUnitsExact(t, free, l, a);
    AllUnits(t, l, FreeUnits(t, l, a.details));
    TakeUnitsStarted(t, n, l, a, FreeUnits(t, l, a.details));
  }

  lemma AllUnits(t: CPUTopology, l: Level, us: seq<int>)
    requires forall u :: u in us ==> u in Units(t.cpuDetails, l)
    ensures forall i :: 0 <= i < |us| ==> us[i] in Units(t.cpuDetails, l)
  {
    forall i | 0 <= i < |us| ensures us[i] in Units(t.cpuDetails, l) {
      var u := us[i];
      assert u in us;
      assert u in Units(t.cpuDetails, l);
    }
  }

  lemma {:induction false} TakeUncoreLoopStarted(t: CPUTopology, free: set<int>, n: int, a: Acc, us: seq<int>)
    requires WellFormed(t) && t.CPUsPerCore() > 0 && Safe(t, free, a) && Started(n, a) && !Satisfied(a)
    ensures Started(n, TakeUncoreLoop(t, a, us))
    decreases |us|
  {
    if us == [] {
    } else {
      var b := if a.needed >= t.CPUsPerUncore() then TakeFull(t, Uncore, a) else a;
      TakeFullSafe(t, free, Uncore, a);
      TakeFullStarted(t, free, n, Uncore, a);
      if !Satisfied(b) {
        TakePartialKeeps(t, free, b, us[0]);
        var c := TakePartial(t, b, us[0]);
        PartialStarted(t, n, b, us[0]);
        if !Satisfied(c) {
          TakeUncoreLoopStarted(t, free, n, c, us[1..]);
        }
      }
    }
  }

  lemma PartialStarted(t: CPUTopology, n: int, a: Acc, u: int)
    requires t.CPUsPerCore() > 0 && a.needed >= 1 && Started(n, a)
    ensures Started(n, TakePartial(t, a, u))
  {
    var cpus := PartialChoice(t, a, u);
    if a.needed == |cpus| {
      assert a.result + cpus != {};
    }
  }

  lemma StagesNonEmpty(t: CPUTopology, free: set<int>, n: int, a: Acc, strategy: string, align: bool)
    requires WellFormed(t) && t.CPUsPerCore() > 0 && Safe(t, free, a) && Under(free, n, a)
    requires a.result == {} && a.needed == n >= 1
    ensures var r := Stages(t, a, strategy, align);
      r.Ok? && r.cpus != {}
  {
    StagesSafe(t, free, n, a, strategy, align);
    FirstStages(t, free, a);
    FirstStagesUnder(t, free, n, a);
    var a1 := TakeFull(t, FirstLevel(t), a);
    var a2 := TakeFull(t, SecondLevel(t), a1);
    TakeFullStarted(t, free, n, FirstLevel(t), a);
    TakeFullStarted(t, free, n, SecondLevel(t), a1);
    if !Satisfied(a2) {
      var us := SortAvailable(a2.details, ChainOf(t, Uncore));
      TakeUncoreLoopKeeps(t, free, a2, us);
      TakeUncoreLoopUnder(t, free, n, a2, us);
      TakeUncoreLoopStarted(t, free, n, a2, us);
      var a3 := if align then TakeUncore(t, a2) else a2;
      if !Satisfied(a3) {
        LastStagesNonEmpty(t, free, n, a3, strategy);
      }
    }
  }

  lemma LastStagesNonEmpty(t: CPUTopology, free: set<int>, n: int, a3: Acc, strategy: string)
    requires WellFormed(t) && Safe(t, free, a3) && Under(free, n, a3) && !Satisfied(a3) && Started(n, a3) && n >= 1
    ensures var a4 := if strategy != SPREAD then TakeFull(t, Core, a3) else a3;
      Started(n, a4) && (!Satisfied(a4) ==> TakeRemaining(t, a4, strategy).result != {})
  {
    var a4 := if strategy != SPREAD then TakeFull(t, Core, a3) else a3;
    TakeFullStarted(t, free, n, Core, a3);
    LastStagesSafe(t, free, n, a3, strategy);
    if !Satisfied(a4) {
      var cpus := SortAvailable(a4.details, CpuChain(t, strategy));
      SafeKeys(t, free, a4);
      TakeRemainingKeeps(t, free, a4, strategy);
      assert cpus[..a4.needed][0] in Elements(cpus[..a4.needed]);
    }
  }

  /** A positive request is never served with no CPU at all. */
  lemma PackedNonEmpty(t: CPUTopology, available: set<int>, n: int, strategy: string, align: bool)
    requires WellFormed(t) && 1 <= n <= |t.cpuDetails.Keys * available|
    ensures var r := Packed(t, available, n, strategy, align);
      r.Ok? && r.cpus != {}
  {
    var a := NewAcc(t, available, n);
    var free := t.cpuDetails.Keys * available;
    KeepMembers(t.cpuDetails, available, Cpu, 0);
    CoresNonEmpty(t);
    assert a.details == KeepOnly(t.cpuDetails, free - a.result);
    StagesNonEmpty(t, free, n, a, strategy, align);
  }
}
