/** Exactly by how much the cache-aligned packed allocator falls short, on every machine. */
module PackedExact {
  import opened Sorting
  import opened Arith
  import opened Topology
  import opened UnitOrder
  import opened PackedModel

  /** The CPUs one pass over a list of units counts although they are claimed already. */
  function Overcount(t: CPUTopology, l: Level, a: Acc, us: seq<int>): nat
    decreases |us|
  {
    if us == [] then 0
    else
      var cpus := Members(t.cpuDetails, l, us[0]);
      if a.needed >= |cpus| then |cpus * a.result| + Overcount(t, l, Take(a, cpus), us[1..])
      else Overcount(t, l, a, us[1..])
  }

  /** The units a pass claims, in order. */
  function Claimed(t: CPUTopology, l: Level, a: Acc, us: seq<int>): seq<int>
    decreases |us|
  {
    if us == [] then []
    else
      var cpus := Members(t.cpuDetails, l, us[0]);
      if a.needed >= |cpus| then [us[0]] + Claimed(t, l, Take(a, cpus), us[1..]) else Claimed(t, l, a, us[1..])
  }

  /** Claimed and needed CPUs go down by just what is counted twice. */
  lemma {:induction false} TakeUnitsAccount(t: CPUTopology, l: Level, a: Acc, us: seq<int>)
    ensures var b := TakeUnits(t, l, a, us);
      |b.result| + b.needed == |a.result| + a.needed - Overcount(t, l, a, us)
    decreases |us|
  {
    if us != [] {
      var cpus := Members(t.cpuDetails, l, us[0]);
      UnionSize(a.result, cpus);
      TakeUnitsAccount(t, l, if a.needed >= |cpus| then Take(a, cpus) else a, us[1..]);
    }
  }

  lemma UnionSize(a: set<int>, b: set<int>)
    ensures |a + b| == |a| + |b| - |b * a|
  {
    assert a + b == a + (b - a);
    assert b == b * a + (b - a);
  }

  lemma {:induction false} TakeUnitsNeeds(t: CPUTopology, l: Level, a: Acc, us: seq<int>)
    requires a.needed >= 0
    ensures TakeUnits(t, l, a, us).needed >= 0
    decreases |us|
  {
    if us != [] {
      var cpus := Members(t.cpuDetails, l, us[0]);
      TakeUnitsNeeds(t, l, if a.needed >= |cpus| then Take(a, cpus) else a, us[1..]);
    }
  }

  // ---- after the first pass over the caches nothing is counted twice

  /** Another pass over the caches would claim nothing. */
  ghost predicate Quiet(t: CPUTopology, a: Acc) {
    Maximal(t, Uncore, a) || a.needed < t.CPUsPerUncore()
  }

  lemma {:induction false} TakeUnitsIdle(t: CPUTopology, l: Level, a: Acc, us: seq<int>)
    requires forall i :: 0 <= i < |us| ==> |Members(t.cpuDetails, l, us[i])| > a.needed
    ensures TakeUnits(t, l, a, us) == a
    decreases |us|
  {
    if us != [] {
      assert forall i :: 0 <= i < |us[1..]| ==> us[1..][i] == us[i + 1];
      TakeUnitsIdle(t, l, a, us[1..]);
    }
  }

  lemma QuietPass(t: CPUTopology, free: set<int>, a: Acc)
    requires WellFormed(t) && Safe(t, free, a) && Maximal(t, Uncore, a)
    ensures TakeFull(t, Uncore, a) == a
  {
    var us := FreeUnits(t, Uncore, a.details);
    FreeUnitsExact(t, free, Uncore, a);
    forall i | 0 <= i < |us| ensures |Members(t.cpuDetails, Uncore, us[i])| > a.needed {
      var u := us[i];
      assert u in us;
    }
    TakeUnitsIdle(t, Uncore, a, us);
  }

  lemma StaysQuiet(t: CPUTopology, a: Acc, b: Acc)
    requires Quiet(t, a) && b.needed <= a.needed && b.details.Keys <= a.details.Keys
    ensures Quiet(t, b)
  {
  }

  lemma {:induction false} QuietLoop(t: CPUTopology, free: set<int>, n: int, a: Acc, us: seq<int>)
    requires WellFormed(t) && t.CPUsPerCore() > 0 && Inv(t, free, n, a) && Quiet(t, a) && !Satisfied(a)
    ensures Inv(t, free, n, TakeUncoreLoop(t, a, us))
    decreases |us|
  {
    if us != [] {
      if a.needed >= t.CPUsPerUncore() {
        QuietPass(t, free, a);
      }
      var c := TakePartial(t, a, us[0]);
      TakePartialKeeps(t, free, a, us[0]);
      StaysQuiet(t, a, c);
      if !Satisfied(c) {
        QuietLoop(t, free, n, c, us[1..]);
      }
    }
  }

  /** What the cache-aligned stage counts twice: nothing, or what its first pass does. */
  function StageOvercount(t: CPUTopology, a: Acc): nat {
    if a.needed >= t.CPUsPerUncore() && SortAvailable(a.details, ChainOf(t, Uncore)) != []
    then Overcount(t, Uncore, a, FreeUnits(t, Uncore, a.details)) else 0
  }

  lemma TakeUncoreAccount(t: CPUTopology, free: set<int>, n: int, a: Acc)
    requires WellFormed(t) && t.CPUsPerCore() > 0 && Inv(t, free, n, a) && !Satisfied(a)
    ensures Inv(t, free, n - StageOvercount(t, a), TakeUncore(t, a))
  {
    var us := SortAvailable(a.details, ChainOf(t, Uncore));
    var m := n - StageOvercount(t, a);
    if us != [] {
      var b := if a.needed >= t.CPUsPerUncore() then TakeFull(t, Uncore, a) else a;
      FirstPass(t, free, n, a);
      assert Inv(t, free, m, b) && Quiet(t, b);
      if !Satisfied(b) {
        var c := TakePartial(t, b, us[0]);
        TakePartialKeeps(t, free, b, us[0]);
        StaysQuiet(t, b, c);
        if !Satisfied(c) {
          QuietLoop(t, free, m, c, us[1..]);
        }
      }
    }
  }

  lemma FirstPass(t: CPUTopology, free: set<int>, n: int, a: Acc)
    requires WellFormed(t) && Inv(t, free, n, a)
    ensures var b := TakeFull(t, Uncore, a);
      Inv(t, free, n - Overcount(t, Uncore, a, FreeUnits(t, Uncore, a.details)), b) && Maximal(t, Uncore, b)
  {
    var us := FreeUnits(t, Uncore, a.details);
    TakeFullSafe(t, free, Uncore, a);
    TakeFullIsMaximal(t, free, Uncore, a);
    TakeUnitsAccount(t, Uncore, a, us);
    TakeUnitsNeeds(t, Uncore, a, us);
  }

  // ---- the whole allocator

  /** The state in which the cache-aligned stage begins. */
  function AtCaches(t: CPUTopology, available: set<int>, n: int): Acc {
    TakeFull(t, SecondLevel(t), TakeFull(t, FirstLevel(t), NewAcc(t, available, n)))
  }

  /** The CPUs a call counts twice. */
  function Miscount(t: CPUTopology, available: set<int>, n: int, align: bool): nat {
    if n < 1 || !align || Satisfied(AtCaches(t, available, n)) then 0 else StageOvercount(t, AtCaches(t, available, n))
  }

  lemma StagesExactly(t: CPUTopology, free: set<int>, n: int, a: Acc, strategy: string, align: bool)
    requires WellFormed(t) && t.CPUsPerCore() > 0 && Inv(t, free, n, a)
    ensures var a2 := TakeFull(t, SecondLevel(t), TakeFull(t, FirstLevel(t), a));
      var r := Stages(t, a, strategy, align);
      r.Ok? && r.cpus <= free && |r.cpus| == n - (if align && !Satisfied(a2) then StageOvercount(t, a2) else 0)
  {
    FirstStages(t, free, a);
    var a1 := TakeFull(t, FirstLevel(t), a);
    var a2 := TakeFull(t, SecondLevel(t), a1);
    if Satisfied(a1) {
      TakeUnitsShrinks(t, SecondLevel(t), a1, FreeUnits(t, SecondLevel(t), a1.details));
    } else if !Satisfied(a2) {
      var m := n - (if align then StageOvercount(t, a2) else 0);
      if align {
        TakeUncoreAccount(t, free, n, a2);
      }
      var a3 := if align then TakeUncore(t, a2) else a2;
      assert Inv(t, free, m, a3);
      if !Satisfied(a3) {
        LastStages(t, free, m, a3, strategy);
      }
    }
  }

  /** On every well-formed machine, whatever its caches: a request the free CPUs can serve gets
      exactly what it asks for less the CPUs the cache-aligned stage counts twice. */
  lemma PackedExactly(t: CPUTopology, available: set<int>, n: int, strategy: string, align: bool)
    requires WellFormed(t) && 1 <= n <= |t.cpuDetails.Keys * available|
    ensures var r := Packed(t, available, n, strategy, align);
      r.Ok? && r.cpus <= t.cpuDetails.Keys * available && |r.cpus| == n - Miscount(t, available, n, align)
  {
    var a := NewAcc(t, available, n);
    var free := t.cpuDetails.Keys * available;
    KeepMembers(t.cpuDetails, available, Cpu, 0);
    CoresNonEmpty(t);
    assert a.details == KeepOnly(t.cpuDetails, free - a.result);
    StagesExactly(t, free, n, a, strategy, align);
  }

  // ---- when nothing is counted twice

  /** The pass counts nothing twice exactly when the units it claims are pairwise different. */
  lemma {:induction false} OvercountIff(t: CPUTopology, l: Level, a: Acc, us: seq<int>, claimed: seq<int>)
    requires forall i :: 0 <= i < |us| ==> us[i] in Units(t.cpuDetails, l)
    requires NoDup(claimed)
    requires forall i :: 0 <= i < |us| ==> (us[i] in claimed <==> Members(t.cpuDetails, l, us[i]) * a.result != {})
    ensures Overcount(t, l, a, us) == 0 <==> NoDup(claimed + Claimed(t, l, a, us))
    decreases |us|
  {
    if us == [] {
      assert claimed + [] == claimed;
    } else {
      var u, rest := us[0], us[1..];
      var cpus := Members(t.cpuDetails, l, u);
      assert forall i :: 0 <= i < |rest| ==> rest[i] == us[i + 1];
      if a.needed < |cpus| {
        OvercountIff(t, l, a, rest, claimed);
      } else if u in claimed {
        DuplicateAhead(claimed, u, Claimed(t, l, Take(a, cpus), rest));
        assert |cpus * a.result| > 0;
      } else {
        assert cpus * a.result == {};
        ClaimedGrows(t, l, a, rest, claimed, u);
        OvercountIff(t, l, Take(a, cpus), rest, claimed + [u]);
        AppendMoves(claimed, [u], Claimed(t, l, Take(a, cpus), rest));
      }
    }
  }

  lemma DuplicateAhead(claimed: seq<int>, u: int, rest: seq<int>)
    requires u in claimed
    ensures !NoDup(claimed + ([u] + rest))
  {
    var i := IndexOf(claimed, u);
    var all := claimed + ([u] + rest);
    assert all[i] == all[|claimed|];
  }

  lemma ClaimedGrows(t: CPUTopology, l: Level, a: Acc, rest: seq<int>, claimed: seq<int>, u: int)
    requires u in Units(t.cpuDetails, l) && u !in claimed && NoDup(claimed)
    requires forall i :: 0 <= i < |rest| ==> rest[i] in Units(t.cpuDetails, l)
    requires forall i :: 0 <= i < |rest| ==> (rest[i] in claimed <==> Members(t.cpuDetails, l, rest[i]) * a.result != {})
    ensures NoDup(claimed + [u])
    ensures var b := Take(a, Members(t.cpuDetails, l, u));
      forall i :: 0 <= i < |rest| ==> (rest[i] in claimed + [u] <==> Members(t.cpuDetails, l, rest[i]) * b.result != {})
  {
    var cpus := Members(t.cpuDetails, l, u);
    forall i | 0 <= i < |rest|
      ensures rest[i] in claimed + [u] <==> Members(t.cpuDetails, l, rest[i]) * (a.result + cpus) != {}
    {
      var m := Members(t.cpuDetails, l, rest[i]);
      MembersNonEmpty(t.cpuDetails, l, u);
      assert m * (a.result + cpus) == m * a.result + m * cpus;
      assert rest[i] == u ==> m * cpus == cpus;
      assert rest[i] != u ==> m * cpus == {};
    }
  }

  /** Packed allocation is exact for a call precisely when it does not reach the cache-aligned
      stage with a need of at least an average cache, or the caches its first pass claims are
      pairwise different. */
  lemma PackedExactIff(t: CPUTopology, available: set<int>, n: int, strategy: string, align: bool)
    requires WellFormed(t) && 1 <= n <= |t.cpuDetails.Keys * available|
    ensures var a := AtCaches(t, available, n);
      Packed(t, available, n, strategy, align).Ok?
      && (|Packed(t, available, n, strategy, align).cpus| == n
          <==> !align || Satisfied(a) || a.needed < t.CPUsPerUncore()
               || NoDup(Claimed(t, Uncore, a, FreeUnits(t, Uncore, a.details))))
  {
    PackedExactly(t, available, n, strategy, align);
    if align && !Satisfied(AtCaches(t, available, n)) {
      StageExactIff(t, available, n);
    }
  }

  lemma StageExactIff(t: CPUTopology, available: set<int>, n: int)
    requires WellFormed(t) && 1 <= n <= |t.cpuDetails.Keys * available|
    ensures var a := AtCaches(t, available, n);
      StageOvercount(t, a) == 0
      <==> a.needed < t.CPUsPerUncore() || NoDup(Claimed(t, Uncore, a, FreeUnits(t, Uncore, a.details)))
  {
    var free, a := t.cpuDetails.Keys * available, AtCaches(t, available, n);
    KeepMembers(t.cpuDetails, available, Cpu, 0);
    assert NewAcc(t, available, n).details == KeepOnly(t.cpuDetails, free - {});
    FirstStages(t, free, NewAcc(t, available, n));
    PassExactIff(t, free, a);
    if SortAvailable(a.details, ChainOf(t, Uncore)) == [] {
      assert FreeUnits(t, Uncore, a.details) == [];
    }
  }

  lemma PassExactIff(t: CPUTopology, free: set<int>, a: Acc)
    requires WellFormed(t) && Safe(t, free, a)
    ensures var us := FreeUnits(t, Uncore, a.details);
      Overcount(t, Uncore, a, us) == 0 <==> NoDup(Claimed(t, Uncore, a, us))
  {
    var us := FreeUnits(t, Uncore, a.details);
    FreeUnitsExact(t, free, Uncore, a);
    SafeKeys(t, free, a);
    forall i | 0 <= i < |us|
      ensures us[i] in Units(t.cpuDetails, Uncore) && Members(t.cpuDetails, Uncore, us[i]) * a.result == {}
    {
      var u := us[i];
      assert u in us;
    }
    OvercountIff(t, Uncore, a, us, []);
    assert [] + Claimed(t, Uncore, a, us) == Claimed(t, Uncore, a, us);
  }

  // ---- caches of one size

  function Least(a: nat, b: nat): nat {
    if a < b then a else b
  }

  /** Of units of one size the pass claims the first so many, without looking further. */
  lemma {:induction false} ClaimedPrefix(t: CPUTopology, l: Level, a: Acc, us: seq<int>, size: int)
    requires size > 0 && a.needed >= 0 && forall i :: 0 <= i < |us| ==> |Members(t.cpuDetails, l, us[i])| == size
    ensures a.needed / size >= 0 && Claimed(t, l, a, us) == us[..Least(a.needed / size, |us|)]
    decreases |us|
  {
    DivMonotone(0, a.needed, size);
    if us != [] {
      var cpus, rest := Members(t.cpuDetails, l, us[0]), us[1..];
      assert forall i :: 0 <= i < |rest| ==> rest[i] == us[i + 1];
      if a.needed >= size {
        ClaimedPrefix(t, l, Take(a, cpus), rest, size);
        DivLessOne(a.needed, size);
        assert us[..Least(a.needed / size, |us|)] == [us[0]] + rest[..Least(a.needed / size - 1, |rest|)];
      } else {
        ClaimedPrefix(t, l, a, rest, size);
        DivUnique(size, 0, a.needed);
      }
    }
  }

  ghost predicate Fit(k: int, needed: int, size: int) {
    k * size <= needed
  }

  /** The first entries of the list, as many as units of that size fit into the need, are
      pairwise different. */
  ghost predicate FirstDiffer(us: seq<int>, needed: int, size: int) {
    forall k :: 0 <= k <= |us| && Fit(k, needed, size) ==> NoDup(us[..k])
  }

  lemma PrefixDiffers(us: seq<int>, needed: int, size: int)
    requires size > 0 && needed >= 0 && needed / size >= 0
    ensures NoDup(us[..Least(needed / size, |us|)]) <==> FirstDiffer(us, needed, size)
  {
    var m := Least(needed / size, |us|);
    FitIff(m, needed, size);
    forall k | 0 <= k <= |us| && Fit(k, needed, size) ensures k <= m {
      FitIff(k, needed, size);
    }
    if NoDup(us[..m]) {
      forall k | 0 <= k <= |us| && Fit(k, needed, size) ensures NoDup(us[..k]) {
        assert us[..k] == us[..m][..k];
      }
    }
  }

  lemma FitIff(k: int, needed: int, size: int)
    requires size > 0
    ensures Fit(k, needed, size) <==> k <= needed / size
  {
    DivBounds(needed, size);
    if k <= needed / size {
      MulMonotone(size, k, needed / size);
    } else {
      MulMonotone(size, needed / size + 1, k);
    }
  }

  lemma EqualCaches(t: CPUTopology, size: int)
    requires WellFormed(t) && t.cpuDetails.Keys != {} && Uniform(t.cpuDetails, Uncore, size)
    ensures size > 0 && t.CPUsPerUncore() == size
  {
    var d := t.cpuDetails;
    var us := Units(d, Uncore);
    var c := Pick(d.Keys);
    assert UnitOf(d, Uncore, c) in us;
    MembersNonEmpty(d, Uncore, UnitOf(d, Uncore, c));
    UniformTotal(d, Uncore, us, size);
    assert MembersOf(d, Uncore, us) == d.Keys;
    DivModUnique(|us|, size, 0);
  }

  /** On a machine with caches of one size packed allocation is exact for a call precisely when
      the cache-aligned stage is not reached or the first entries of its list of free caches,
      as many as fit into the need, are pairwise different. */
  lemma EqualCachesIff(t: CPUTopology, available: set<int>, n: int, strategy: string, align: bool, size: int)
    requires WellFormed(t) && 1 <= n <= |t.cpuDetails.Keys * available| && Uniform(t.cpuDetails, Uncore, size)
    ensures var a := AtCaches(t, available, n);
      Packed(t, available, n, strategy, align).Ok?
      && (|Packed(t, available, n, strategy, align).cpus| == n
          <==> !align || Satisfied(a) || FirstDiffer(FreeUnits(t, Uncore, a.details), a.needed, size))
  {
    var a := AtCaches(t, available, n);
    PackedExactIff(t, available, n, strategy, align);
    if !Satisfied(a) {
      FreeAtCaches(t, available, n, size);
      EqualCaches(t, size);
      ClaimsDiffer(t, a, FreeUnits(t, Uncore, a.details), size);
    }
  }

  lemma ClaimsDiffer(t: CPUTopology, a: Acc, us: seq<int>, size: int)
    requires size > 0 && a.needed >= 1 && forall i :: 0 <= i < |us| ==> |Members(t.cpuDetails, Uncore, us[i])| == size
    ensures a.needed < size || NoDup(Claimed(t, Uncore, a, us)) <==> FirstDiffer(us, a.needed, size)
  {
    ClaimedPrefix(t, Uncore, a, us, size);
    PrefixDiffers(us, a.needed, size);
    if a.needed < size {
      DivUnique(size, 0, a.needed);
    }
  }

  lemma FreeAtCaches(t: CPUTopology, available: set<int>, n: int, size: int)
    requires WellFormed(t) && 1 <= n <= |t.cpuDetails.Keys * available| && Uniform(t.cpuDetails, Uncore, size)
    ensures var us := FreeUnits(t, Uncore, AtCaches(t, available, n).details);
      forall i :: 0 <= i < |us| ==> |Members(t.cpuDetails, Uncore, us[i])| == size
  {
    var free, us := t.cpuDetails.Keys * available, FreeUnits(t, Uncore, AtCaches(t, available, n).details);
    KeepMembers(t.cpuDetails, available, Cpu, 0);
    assert NewAcc(t, available, n).details == KeepOnly(t.cpuDetails, free - {});
    FirstStages(t, free, NewAcc(t, available, n));
    FreeUnitsExact(t, free, Uncore, AtCaches(t, available, n));
    forall i | 0 <= i < |us| ensures |Members(t.cpuDetails, Uncore, us[i])| == size {
      var u := us[i];
      assert u in us;
    }
  }
}
