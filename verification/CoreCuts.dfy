/** Packed allocation keeps physical cores together: of the free CPUs of a core it takes all or
    none, but for one core at most. */
module CoreCuts {
  import opened Sorting
  import opened Topology
  import opened UnitOrder
  import opened PackedModel

  /** s holds some but not all of the free CPUs of core k. */
  ghost predicate CutsCore(t: CPUTopology, free: set<int>, s: set<int>, k: int) {
    Members(t.cpuDetails, Core, k) * s != {} && !(Members(t.cpuDetails, Core, k) * free <= s)
  }

  ghost predicate AtMostOneCut(t: CPUTopology, free: set<int>, s: set<int>) {
    forall j, k :: CutsCore(t, free, s, j) && CutsCore(t, free, s, k) ==> j == k
  }

  ghost predicate NoCut(t: CPUTopology, free: set<int>, s: set<int>) {
    forall k :: !CutsCore(t, free, s, k)
  }

  /** Whole units added to uncut cores cut none. */
  lemma UnitCutsNone(t: CPUTopology, l: Level, free: set<int>, s: set<int>, u: int)
    requires Nested(t.cpuDetails, Core, l) && NoCut(t, free, s)
    ensures NoCut(t, free, s + Members(t.cpuDetails, l, u))
  {
    var unit := Members(t.cpuDetails, l, u);
    forall k ensures !CutsCore(t, free, s + unit, k) {
      var m := Members(t.cpuDetails, Core, k);
      assert !CutsCore(t, free, s, k);
      assert m * (s + unit) == m * s + m * unit;
      if m * unit != {} {
        var c := Pick(m * unit);
        assert m <= unit;
      }
    }
  }

  lemma {:induction false} TakeUnitsCutNone(t: CPUTopology, l: Level, free: set<int>, a: Acc, us: seq<int>)
    requires Nested(t.cpuDetails, Core, l) && NoCut(t, free, a.result)
    ensures NoCut(t, free, TakeUnits(t, l, a, us).result)
    decreases |us|
  {
    if us != [] {
      var cpus := Members(t.cpuDetails, l, us[0]);
      UnitCutsNone(t, l, free, a.result, us[0]);
      TakeUnitsCutNone(t, l, free, if a.needed >= |cpus| then Take(a, cpus) else a, us[1..]);
    }
  }

  /** All that is left free of some cores, added to uncut cores, cuts none either. */
  lemma CoresCutNone(t: CPUTopology, free: set<int>, s: set<int>, d: CPUDetails, cores: set<int>)
    requires d == KeepOnly(t.cpuDetails, free - s) && NoCut(t, free, s)
    ensures NoCut(t, free, s + MembersOf(d, Core, cores))
  {
    var cpus := MembersOf(d, Core, cores);
    forall k ensures !CutsCore(t, free, s + cpus, k) {
      var m := Members(t.cpuDetails, Core, k);
      assert !CutsCore(t, free, s, k);
      assert m * (s + cpus) == m * s + m * cpus;
      if m * cpus != {} {
        var c := Pick(m * cpus);
        assert k in cores;
        assert forall x :: x in m * free && x !in s ==> x in d && UnitOf(d, Core, x) == k;
      }
    }
  }

  /** One CPU fewer cuts one core at most. */
  lemma OneLessCuts(t: CPUTopology, free: set<int>, s: set<int>, cpus: set<int>, choice: set<int>)
    requires NoCut(t, free, s + cpus) && choice <= cpus && |choice| == |cpus| - 1
    ensures AtMostOneCut(t, free, s + choice)
  {
    SubsetSize(choice, cpus);
    var last := Pick(cpus - choice);
    SubsetSize(choice + {last}, cpus);
    assert cpus == choice + {last};
    forall k | CutsCore(t, free, s + choice, k) ensures last in Members(t.cpuDetails, Core, k) {
      var m := Members(t.cpuDetails, Core, k);
      assert !CutsCore(t, free, s + cpus, k);
      var c := Pick(m * (s + choice));
      assert c in m * (s + cpus);
      assert m * free <= s + cpus;
    }
  }

  lemma PartialCuts(t: CPUTopology, free: set<int>, a: Acc, u: int)
    requires t.CPUsPerCore() > 0 && a.needed >= 1 && Safe(t, free, a) && NoCut(t, free, a.result)
    ensures var b := TakePartial(t, a, u);
      NoCut(t, free, b.result) || (AtMostOneCut(t, free, b.result) && b.needed == 0)
  {
    PartialCpusCutNone(t, free, a, u);
    ChoiceCuts(t, free, a.result, PartialCpus(t, a, u), PartialChoice(t, a, u));
  }

  lemma PartialCpusCutNone(t: CPUTopology, free: set<int>, a: Acc, u: int)
    requires t.CPUsPerCore() > 0 && a.needed >= 1 && Safe(t, free, a) && NoCut(t, free, a.result)
    ensures NoCut(t, free, a.result + PartialCpus(t, a, u))
  {
    forall cores ensures NoCut(t, free, a.result + MembersOf(a.details, Core, cores)) {
      CoresCutNone(t, free, a.result, a.details, cores);
    }
  }

  lemma ChoiceCuts(t: CPUTopology, free: set<int>, s: set<int>, cpus: set<int>, choice: set<int>)
    requires NoCut(t, free, s + cpus) && (choice == cpus || (choice <= cpus && |choice| == |cpus| - 1))
    ensures NoCut(t, free, s + choice) || AtMostOneCut(t, free, s + choice)
    ensures choice == cpus ==> NoCut(t, free, s + choice)
  {
    if choice != cpus {
      OneLessCuts(t, free, s, cpus, choice);
    }
  }

  lemma {:induction false} UncoreLoopCuts(t: CPUTopology, free: set<int>, a: Acc, us: seq<int>)
    requires WellFormed(t) && t.CPUsPerCore() > 0 && !Satisfied(a) && Safe(t, free, a) && NoCut(t, free, a.result)
    ensures var b := TakeUncoreLoop(t, a, us);
      NoCut(t, free, b.result) || (AtMostOneCut(t, free, b.result) && Satisfied(b))
    decreases |us|
  {
    if us != [] {
      var b := if a.needed >= t.CPUsPerUncore() then TakeFull(t, Uncore, a) else a;
      TakeFullSafe(t, free, Uncore, a);
      TakeUnitsCutNone(t, Uncore, free, a, FreeUnits(t, Uncore, a.details));
      if !Satisfied(b) {
        TakePartialKeeps(t, free, b, us[0]);
        PartialCuts(t, free, b, us[0]);
        var c := TakePartial(t, b, us[0]);
        if !Satisfied(c) {
          UncoreLoopCuts(t, free, c, us[1..]);
        }
      }
    }
  }

  // ---- single CPUs, core by core

  lemma CpusOfCore(d: CPUDetails, k: int)
    ensures Elements(SortedIn(d, Cpu, Core, k)) == Members(d, Core, k)
  {
    forall x ensures x in UnitsIn(d, Cpu, Core, k) <==> x in Members(d, Core, k) {
      if x in Members(d, Core, k) {
        assert UnitOf(d, Cpu, x) == x;
      }
    }
  }

  ghost predicate AllOrNothing(d: CPUDetails, cores: seq<int>, p: set<int>, but: int) {
    forall k :: k in cores && k != but ==> Members(d, Core, k) <= p || Members(d, Core, k) !! p
  }

  lemma PrefixParts(head: seq<int>, rest: seq<int>, m: nat)
    requires m <= |head + rest|
    ensures if m <= |head| then (head + rest)[..m] == head[..m] && Elements((head + rest)[..m]) <= Elements(head)
            else Elements((head + rest)[..m]) == Elements(head) + Elements(rest[..m - |head|])
  {
    if m <= |head| {
      assert forall i :: 0 <= i < m ==> head[..m][i] == head[i];
    } else {
      assert (head + rest)[..m] == head + rest[..m - |head|];
    }
  }

  /** A first part of the list holds every core wholly or not at all, but for one. */
  lemma {:induction false} PrefixCuts(d: CPUDetails, cores: seq<int>, m: nat) returns (but: int)
    requires NoDup(cores) && m <= |SortWithin(d, cores, Core, Cpu)|
    ensures AllOrNothing(d, cores, Elements(SortWithin(d, cores, Core, Cpu)[..m]), but)
    decreases |cores|
  {
    if cores == [] {
      return 0;
    }
    var head, tail := SortedIn(d, Cpu, Core, cores[0]), cores[1..];
    var rest := SortWithin(d, tail, Core, Cpu);
    CpusOfCore(d, cores[0]);
    PrefixParts(head, rest, m);
    assert forall i :: 0 < i < |cores| ==> tail[i - 1] == cores[i];
    if m <= |head| {
      return cores[0];
    }
    but := PrefixCuts(d, tail, m - |head|);
    OneMoreCore(d, cores, Elements(rest[..m - |head|]), but);
  }

  lemma OneMoreCore(d: CPUDetails, cores: seq<int>, p: set<int>, but: int)
    requires cores != [] && AllOrNothing(d, cores[1..], p, but)
    ensures AllOrNothing(d, cores, Members(d, Core, cores[0]) + p, but)
  {
    forall k | k in cores && k != but
      ensures Members(d, Core, k) <= Members(d, Core, cores[0]) + p || Members(d, Core, k) !! Members(d, Core, cores[0]) + p
    {
      if k != cores[0] {
        assert k in cores[1..];
        assert Members(d, Core, k) !! Members(d, Core, cores[0]);
      }
    }
  }

  lemma RemainingCuts(t: CPUTopology, free: set<int>, a: Acc)
    requires WellFormed(t) && Safe(t, free, a) && NoCut(t, free, a.result) && 1 <= a.needed <= |a.details.Keys|
    ensures AtMostOneCut(t, free, TakeRemaining(t, a, PACKED).result)
  {
    var d, cores := a.details, SortAvailable(a.details, ChainOf(t, Core));
    TakeRemainingKeeps(t, free, a, PACKED);
    CoreByCore(t, free, a);
    SortedCpus(t, free, a, PACKED);
    var cpus := SortWithin(d, cores, Core, Cpu);
    PrefixSize(cpus, a.needed);
    var but := PrefixCuts(d, cores, a.needed);
    PrefixCutsOne(t, free, a, cores, Elements(cpus[..a.needed]), but);
  }

  lemma CoreByCore(t: CPUTopology, free: set<int>, a: Acc)
    requires WellFormed(t) && Safe(t, free, a)
    ensures var cores := SortAvailable(a.details, ChainOf(t, Core));
      && NoDup(cores) && (forall k :: k in Units(a.details, Core) ==> k in cores)
      && SortAvailable(a.details, CpuChain(t, PACKED)) == SortWithin(a.details, cores, Core, Cpu)
  {
    SortFromParent(t, a.details, Cpu);
    ChainNested(t, Core, free - a.result);
    AvailableNoDup(a.details, ChainOf(t, Core));
    AvailableElements(a.details, ChainOf(t, Core));
  }

  lemma Apart(m: set<int>, r: set<int>, f: set<int>)
    requires m * r == {}
    ensures m * f == m * (f - r)
  {
    assert forall x :: x in m && x in r ==> x in m * r;
  }

  lemma PrefixCutsOne(t: CPUTopology, free: set<int>, a: Acc, cores: seq<int>, p: set<int>, but: int)
    requires Safe(t, free, a) && NoCut(t, free, a.result) && AllOrNothing(a.details, cores, p, but)
    requires forall k :: k in Units(a.details, Core) ==> k in cores
    requires p <= a.details.Keys
    ensures AtMostOneCut(t, free, a.result + p)
  {
    forall k | k != but ensures !CutsCore(t, free, a.result + p, k) {
      var m := Members(t.cpuDetails, Core, k);
      assert !CutsCore(t, free, a.result, k);
      assert m * (a.result + p) == m * a.result + m * p;
      if m * a.result == {} && m * p != {} {
        var c := Pick(m * p);
        assert c in a.details && UnitOf(a.details, Core, c) == k && k in Units(a.details, Core);
        KeepMembers(t.cpuDetails, free - a.result, Core, k);
        assert c in Members(a.details, Core, k);
        Apart(m, a.result, free);
        assert m * free == Members(a.details, Core, k);
      }
    }
  }

  // ---- the whole allocator

  lemma StagesCut(t: CPUTopology, free: set<int>, n: int, a: Acc, align: bool)
    requires WellFormed(t) && t.CPUsPerCore() > 0 && Safe(t, free, a) && Under(free, n, a) && NoCut(t, free, a.result)
    ensures var r := Stages(t, a, PACKED, align);
      r.Ok? && AtMostOneCut(t, free, r.cpus)
  {
    StagesSafe(t, free, n, a, PACKED, align);
    FirstStages(t, free, a);
    FirstStagesUnder(t, free, n, a);
    var a1 := TakeFull(t, FirstLevel(t), a);
    var a2 := TakeFull(t, SecondLevel(t), a1);
    TakeUnitsCutNone(t, FirstLevel(t), free, a, FreeUnits(t, FirstLevel(t), a.details));
    TakeUnitsCutNone(t, SecondLevel(t), free, a1, FreeUnits(t, SecondLevel(t), a1.details));
    if !Satisfied(a2) {
      var us := SortAvailable(a2.details, ChainOf(t, Uncore));
      UncoreLoopCuts(t, free, a2, us);
      TakeUncoreLoopKeeps(t, free, a2, us);
      TakeUncoreLoopUnder(t, free, n, a2, us);
      var a3 := if align then TakeUncore(t, a2) else a2;
      if !Satisfied(a3) {
        CoresCut(t, free, n, a3);
      }
    }
  }

  lemma CoresCut(t: CPUTopology, free: set<int>, n: int, a3: Acc)
    requires WellFormed(t) && Safe(t, free, a3) && Under(free, n, a3) && NoCut(t, free, a3.result)
    ensures PACKED != SPREAD
    ensures var a4 := TakeFull(t, Core, a3);
      NoCut(t, free, a4.result) && (!Satisfied(a4) ==> AtMostOneCut(t, free, TakeRemaining(t, a4, PACKED).result))
  {
    var a4 := TakeFull(t, Core, a3);
    assert PACKED[0] != SPREAD[0];
    TakeFullSafe(t, free, Core, a3);
    TakeUnitsCutNone(t, Core, free, a3, FreeUnits(t, Core, a3.details));
    TakeUnitsUnder(t, free, n, Core, a3, FreeUnits(t, Core, a3.details));
    if !Satisfied(a4) {
      SafeKeys(t, free, a4);
      RemainingCuts(t, free, a4);
    }
  }

  /** Whatever is free, and whatever the caches look like: of the free CPUs of every core all or
      none are handed out, but for one core at most. */
  lemma PackedCutsAtMostOneCore(t: CPUTopology, available: set<int>, n: int, align: bool)
    requires WellFormed(t) && n <= |t.cpuDetails.Keys * available|
    ensures var r := Packed(t, available, n, PACKED, align);
      r.Ok? && AtMostOneCut(t, t.cpuDetails.Keys * available, r.cpus)
  {
    var a := NewAcc(t, available, n);
    var free := t.cpuDetails.Keys * available;
    KeepMembers(t.cpuDetails, available, Cpu, 0);
    assert NoCut(t, free, {});
    if !Satisfied(a) {
      CoresNonEmpty(t);
      assert a.details == KeepOnly(t.cpuDetails, free - a.result);
      StagesCut(t, free, n, a, align);
    }
  }
}
