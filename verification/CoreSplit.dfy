/** Packed allocation keeps physical cores together. */
module CoreSplit {
  import opened Sorting
  import opened Topology
  import opened PackedModel
  import opened PackedExact
  import opened CoreCuts
  import opened Arith

  /** s is a union of whole cores. */
  ghost predicate WholeCores(t: CPUTopology, s: set<int>) {
    && s <= t.cpuDetails.Keys
    && forall k :: !SplitsCore(t, s, k)
  }

  /** s holds some but not all CPUs of core k. */
  ghost predicate SplitsCore(t: CPUTopology, s: set<int>, k: int) {
    Members(t.cpuDetails, Core, k) * s != {} && !(Members(t.cpuDetails, Core, k) <= s)
  }

  ghost predicate AtMostOneSplit(t: CPUTopology, s: set<int>) {
    forall j, k :: SplitsCore(t, s, j) && SplitsCore(t, s, k) ==> j == k
  }

  lemma UnitIsWhole(t: CPUTopology, l: Level, u: int)
    requires Nested(t.cpuDetails, Core, l)
    ensures WholeCores(t, Members(t.cpuDetails, l, u))
  {
    var s := Members(t.cpuDetails, l, u);
    forall k ensures !SplitsCore(t, s, k) {
      var m := Members(t.cpuDetails, Core, k);
      if m * s != {} {
        var c := Pick(m * s);
        assert m <= s;
      }
    }
  }

  lemma WholeUnion(t: CPUTopology, r: set<int>, s: set<int>)
    requires WholeCores(t, r) && WholeCores(t, s)
    ensures WholeCores(t, r + s) && WholeCores(t, r - s)
  {
    forall k ensures !SplitsCore(t, r + s, k) {
      assert !SplitsCore(t, r, k) && !SplitsCore(t, s, k);
      assert Members(t.cpuDetails, Core, k) * (r + s)
          == Members(t.cpuDetails, Core, k) * r + Members(t.cpuDetails, Core, k) * s;
    }
    forall k ensures !SplitsCore(t, r - s, k) {
      var m := Members(t.cpuDetails, Core, k);
      assert !SplitsCore(t, r, k) && !SplitsCore(t, s, k);
      if m * s == {} {
        assert forall c :: c in m && c in s ==> c in m * s;
        assert m * (r - s) == m * r;
      } else {
        assert m * (r - s) == {};
      }
    }
  }

  lemma {:induction false} TakeUnitsWhole(t: CPUTopology, l: Level, a: Acc, us: seq<int>)
    requires Nested(t.cpuDetails, Core, l) && WholeCores(t, a.result)
    ensures WholeCores(t, TakeUnits(t, l, a, us).result)
    decreases |us|
  {
    if us == [] {
    } else {
      var cpus := Members(t.cpuDetails, l, us[0]);
      UnitIsWhole(t, l, us[0]);
      WholeUnion(t, a.result, cpus);
      TakeUnitsWhole(t, l, if a.needed >= |cpus| then Take(a, cpus) else a, us[1..]);
    }
  }

  /** One whole core taken out of a union of whole cores. */
  lemma TakeOutCore(t: CPUTopology, s: set<int>, c: int, size: int)
    requires Uniform(t.cpuDetails, Core, size) && WholeCores(t, s) && c in s
    ensures var m := Members(t.cpuDetails, Core, UnitOf(t.cpuDetails, Core, c));
      c in m && m <= s && |m| == size && WholeCores(t, s - m)
  {
    var k := UnitOf(t.cpuDetails, Core, c);
    var m := Members(t.cpuDetails, Core, k);
    assert c in m * s && k in Units(t.cpuDetails, Core);
    assert !SplitsCore(t, s, k);
    UnitIsWhole(t, Core, k);
    WholeUnion(t, s, m);
  }

  /** A union of whole cores has a multiple of threads-per-core CPUs, ... */
  lemma {:induction false} WholeCoresSize(t: CPUTopology, s: set<int>, size: int)
    requires Uniform(t.cpuDetails, Core, size) && WholeCores(t, s) && size > 0
    ensures |s| % size == 0
    decreases |s|
  {
    if s == {} {
    } else {
      var c := Pick(s);
      var m := Members(t.cpuDetails, Core, UnitOf(t.cpuDetails, Core, c));
      TakeOutCore(t, s, c, size);
      SubsetSize(m, s);
      WholeCoresSize(t, s - m, size);
      ModAddMultiple(|s - m|, size, size);
    }
  }

  /** ... and a set that splits a single core has not. */
  lemma SplitSize(t: CPUTopology, s: set<int>, k: int, size: int)
    requires Uniform(t.cpuDetails, Core, size) && s <= t.cpuDetails.Keys && size > 0
    requires AtMostOneSplit(t, s) && SplitsCore(t, s, k)
    ensures |s| % size != 0
  {
    var m := Members(t.cpuDetails, Core, k);
    RestIsWhole(t, s, k);
    WholeCoresSize(t, s - m, size);
    PartialCore(t, s, k, size);
    ModAddMultiple(|s - m|, |m * s|, size);
  }

  lemma PartialCore(t: CPUTopology, s: set<int>, k: int, size: int)
    requires Uniform(t.cpuDetails, Core, size) && SplitsCore(t, s, k)
    ensures var m := Members(t.cpuDetails, Core, k);
      0 < |m * s| < size && |s| == |s - m| + |m * s|
  {
    var m := Members(t.cpuDetails, Core, k);
    var c := Pick(m * s);
    assert k in Units(t.cpuDetails, Core);
    SubsetSize(m * s, m);
    SubsetSize(m * s, s);
    assert s - m * s == s - m;
  }

  lemma RestIsWhole(t: CPUTopology, s: set<int>, k: int)
    requires s <= t.cpuDetails.Keys && AtMostOneSplit(t, s) && SplitsCore(t, s, k)
    ensures WholeCores(t, s - Members(t.cpuDetails, Core, k))
  {
    var m := Members(t.cpuDetails, Core, k);
    forall j ensures !SplitsCore(t, s - m, j) {
      var mj := Members(t.cpuDetails, Core, j);
      if j == k {
        assert mj * (s - m) == {};
      } else {
        assert !SplitsCore(t, s, j);
        assert mj * m == {};
        assert mj * (s - m) == mj * s;
        assert forall c :: c in mj ==> c !in m;
      }
    }
  }

  /** Packed allocation breaks at most one physical core: from a free set made of whole cores
      at most one core is partly taken, whatever the caches look like, ... */
  lemma PackedBreaksAtMostOneCore(t: CPUTopology, available: set<int>, n: int, align: bool)
    requires WellFormed(t) && WholeCores(t, t.cpuDetails.Keys * available)
    requires n <= |t.cpuDetails.Keys * available|
    ensures var r := Packed(t, available, n, PACKED, align);
      r.Ok? && AtMostOneSplit(t, r.cpus)
  {
    var free, s := t.cpuDetails.Keys * available, Packed(t, available, n, PACKED, align);
    PackedCutsAtMostOneCore(t, available, n, align);
    PackedSafe(t, available, n, PACKED, align);
    SplitsAreCuts(t, free, s.cpus);
  }

  /** Of whole cores, what is split is what is cut. */
  lemma SplitsAreCuts(t: CPUTopology, free: set<int>, s: set<int>)
    requires WholeCores(t, free) && s <= free
    ensures forall k :: SplitsCore(t, s, k) <==> CutsCore(t, free, s, k)
  {
    forall k ensures SplitsCore(t, s, k) <==> CutsCore(t, free, s, k) {
      var m := Members(t.cpuDetails, Core, k);
      assert !SplitsCore(t, free, k);
      if m * s != {} {
        var c := Pick(m * s);
        assert c in m * free && m * free == m;
      }
    }
  }

  lemma WholeMeet(t: CPUTopology, r: set<int>, s: set<int>)
    requires WholeCores(t, r) && WholeCores(t, s)
    ensures WholeCores(t, r * s)
  {
    WholeUnion(t, r, s);
    WholeUnion(t, r, r - s);
    assert r * s == r - (r - s);
  }

  lemma ClaimWhole(t: CPUTopology, l: Level, result: set<int>, u: int, size: int)
    requires Nested(t.cpuDetails, Core, l) && Uniform(t.cpuDetails, Core, size) && size > 0
    requires WholeCores(t, result)
    ensures WholeCores(t, result + Members(t.cpuDetails, l, u))
    ensures |Members(t.cpuDetails, l, u) * result| % size == 0
  {
    var cpus := Members(t.cpuDetails, l, u);
    UnitIsWhole(t, l, u);
    WholeMeet(t, cpus, result);
    WholeCoresSize(t, cpus * result, size);
    WholeUnion(t, result, cpus);
  }

  /** Units are whole cores, so whole cores are counted twice, if anything is. */
  lemma {:induction false} OvercountWhole(t: CPUTopology, l: Level, a: Acc, us: seq<int>, size: int)
    requires Nested(t.cpuDetails, Core, l) && Uniform(t.cpuDetails, Core, size) && size > 0
    requires WholeCores(t, a.result)
    ensures Overcount(t, l, a, us) % size == 0
    decreases |us|
  {
    if us != [] {
      var cpus := Members(t.cpuDetails, l, us[0]);
      if a.needed >= |cpus| {
        ClaimWhole(t, l, a.result, us[0], size);
        OvercountWhole(t, l, Take(a, cpus), us[1..], size);
      } else {
        OvercountWhole(t, l, a, us[1..], size);
      }
      OvercountStep(t, l, a, us, size);
    }
  }

  lemma OvercountStep(t: CPUTopology, l: Level, a: Acc, us: seq<int>, size: int)
    requires us != [] && size > 0
    requires var cpus := Members(t.cpuDetails, l, us[0]);
      if a.needed >= |cpus|
      then |cpus * a.result| % size == 0 && Overcount(t, l, Take(a, cpus), us[1..]) % size == 0
      else Overcount(t, l, a, us[1..]) % size == 0
    ensures Overcount(t, l, a, us) % size == 0
  {
    var cpus := Members(t.cpuDetails, l, us[0]);
    if a.needed >= |cpus| {
      ModAddMultiple(|cpus * a.result|, Overcount(t, l, Take(a, cpus), us[1..]), size);
    }
  }

  lemma MiscountWhole(t: CPUTopology, available: set<int>, n: int, align: bool)
    requires WellFormed(t) && t.CPUsPerCore() > 0
    ensures Miscount(t, available, n, align) % t.CPUsPerCore() == 0
  {
    var a := NewAcc(t, available, n);
    var a1, a2 := TakeFull(t, FirstLevel(t), a), AtCaches(t, available, n);
    assert WholeCores(t, {});
    TakeUnitsWhole(t, FirstLevel(t), a, FreeUnits(t, FirstLevel(t), a.details));
    TakeUnitsWhole(t, SecondLevel(t), a1, FreeUnits(t, SecondLevel(t), a1.details));
    OvercountWhole(t, Uncore, a2, FreeUnits(t, Uncore, a2.details), t.CPUsPerCore());
    MultipleOfNone(t.CPUsPerCore());
  }

  lemma MultipleOfNone(size: int)
    requires size > 0
    ensures 0 % size == 0
  {
  }

  /** ... and none when a multiple of threads-per-core is asked for, also where the allocator
      falls short: what it counts twice are whole cores. */
  lemma PackedKeepsWholeCores(t: CPUTopology, available: set<int>, n: int, align: bool)
    requires WellFormed(t) && WholeCores(t, t.cpuDetails.Keys * available)
    requires t.CPUsPerCore() > 0 && n % t.CPUsPerCore() == 0 && n <= |t.cpuDetails.Keys * available|
    ensures var r := Packed(t, available, n, PACKED, align);
      r.Ok? && WholeCores(t, r.cpus)
  {
    var r := Packed(t, available, n, PACKED, align);
    PackedBreaksAtMostOneCore(t, available, n, align);
    PackedSafe(t, available, n, PACKED, align);
    WholeSize(t, available, n, align);
    forall k ensures !SplitsCore(t, r.cpus, k) {
      if SplitsCore(t, r.cpus, k) {
        SplitSize(t, r.cpus, k, t.CPUsPerCore());
      }
    }
  }

  lemma WholeSize(t: CPUTopology, available: set<int>, n: int, align: bool)
    requires WellFormed(t) && t.CPUsPerCore() > 0 && n % t.CPUsPerCore() == 0 && n <= |t.cpuDetails.Keys * available|
    ensures Packed(t, available, n, PACKED, align).Ok?
    ensures |Packed(t, available, n, PACKED, align).cpus| % t.CPUsPerCore() == 0
  {
    PackedSafe(t, available, n, PACKED, align);
    MultipleOfNone(t.CPUsPerCore());
    if n >= 1 {
      PackedExactly(t, available, n, PACKED, align);
      MiscountWhole(t, available, n, align);
      Difference(n, Miscount(t, available, n, align), t.CPUsPerCore());
    }
  }

  lemma Difference(a: int, b: int, size: int)
    requires size > 0 && a % size == 0 && b % size == 0
    ensures (a - b) % size == 0
  {
    var p, q := a / size, b / size;
    assert a - b == size * (p - q) by {
      assert a == size * p && b == size * q;
    }
    DivModUnique(size, p - q, 0);
  }
}
