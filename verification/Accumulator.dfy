/** The CPU accumulator: an object that claims free CPUs level by level. */
module Accumulator {
  import opened Sorting
  import opened Topology
  import opened UnitOrder
  import opened PackedModel
  import opened CacheOrder

  class CpuAccumulator {
    const topo: CPUTopology
    /** Whether NUMA nodes are the first level (numaFirst) or the sockets are (socketsFirst). */
    const numaFirst: bool
    const strategy: string
    var details: CPUDetails
    var numCPUsNeeded: int
    var result: set<int>

    ghost predicate Valid() {
      numaFirst == (topo.numSockets >= topo.numNUMANodes)
    }

    ghost function State(): Acc
      reads this
    {
      Acc(details, numCPUsNeeded, result)
    }

    constructor (topo: CPUTopology, availableCPUs: set<int>, numCPUs: int, strategy: string)
      ensures Valid() && this.topo == topo && this.strategy == strategy
      ensures State() == NewAcc(topo, availableCPUs, numCPUs)
    {
      this.topo := topo;
      this.numaFirst := topo.numSockets >= topo.numNUMANodes;
      this.strategy := strategy;
      this.details := KeepOnly(topo.cpuDetails, availableCPUs);
      this.numCPUsNeeded := numCPUs;
      this.result := {};
    }

    method IsSatisfied() returns (b: bool)
      ensures b == Satisfied(State())
    {
      b := numCPUsNeeded < 1;
    }

    method NeedsAtLeast(n: int) returns (b: bool)
      ensures b == (State().needed >= n)
    {
      b := numCPUsNeeded >= n;
    }

    method IsFailed() returns (b: bool)
      ensures b == (State().needed > |State().details.Keys|)
    {
      b := numCPUsNeeded > |details.Keys|;
    }

    // ---- the sorts

    /** The loop shared by the sorts: append the sorted children of each parent. */
    method SortChildren(parents: seq<int>, outer: Level, inner: Level) returns (r: seq<int>)
      ensures r == SortWithin(details, parents, outer, inner)
    {
      var d := details;
      r := [];
      ghost var all := SortWithin(d, parents, outer, inner);
      ghost var rest := all;
      for i := 0 to |parents|
        invariant rest == SortWithin(d, parents[i..], outer, inner)
        invariant r + rest == all
      {
        var children := SortedIn(d, inner, outer, parents[i]);
        SortWithinStep(d, parents, i, outer, inner);
        rest := SortWithin(d, parents[i + 1..], outer, inner);
        AppendMoves(r, children, rest);
        r := r + children;
      }
    }

    method SortAvailableNUMANodes() returns (r: seq<int>)
      requires Valid()
      ensures r == SortAvailable(details, ChainOf(topo, Numa))
      decreases !numaFirst
    {
      if numaFirst {
        r := SortIds(Counts(details, Numa), Units(details, Numa));
      } else {
        var sockets := SortAvailableSockets();
        r := SortChildren(sockets, Socket, Numa);
        SortFromParent(topo, details, Numa);
      }
    }

    method SortAvailableSockets() returns (r: seq<int>)
      requires Valid()
      ensures r == SortAvailable(details, ChainOf(topo, Socket))
      decreases numaFirst
    {
      if numaFirst {
        var numas := SortAvailableNUMANodes();
        r := SortChildren(numas, Numa, Socket);
        SortFromParent(topo, details, Socket);
      } else {
        r := SortIds(Counts(details, Socket), Units(details, Socket));
      }
    }

    method SortAvailableUncoreCaches() returns (r: seq<int>)
      requires Valid()
      ensures r == SortAvailable(details, ChainOf(topo, Uncore))
    {
      var numas := SortAvailableNUMANodes();
      r := SortChildren(numas, Numa, Uncore);
      SortFromParent(topo, details, Uncore);
    }

    method SortAvailableCores() returns (r: seq<int>)
      requires Valid()
      ensures r == SortAvailable(details, ChainOf(topo, Core))
    {
      SortFromParent(topo, details, Core);
      if numaFirst {
        var sockets := SortAvailableSockets();
        r := SortChildren(sockets, Socket, Core);
      } else {
        var numas := SortAvailableNUMANodes();
        r := SortChildren(numas, Numa, Core);
      }
    }

    /** sortAvailableCPUsPacked or sortAvailableCPUsSpread, as the strategy chose. */
    method SortAvailableCPUs() returns (r: seq<int>)
      requires Valid()
      ensures r == SortAvailable(details, CpuChain(topo, strategy))
    {
      if strategy == PACKED {
        var cores := SortAvailableCores();
        r := SortChildren(cores, Core, Cpu);
        SortFromParent(topo, details, Cpu);
      } else {
        var sockets := SortAvailableSockets();
        r := SortChildren(sockets, Socket, Cpu);
        SpreadFromSockets(topo, details);
      }
    }

    method SortAvailableUnits(l: Level) returns (r: seq<int>)
      requires Valid() && l != Cpu
      ensures r == SortAvailable(details, ChainOf(topo, l))
    {
      match l
      case Numa => r := SortAvailableNUMANodes();
      case Socket => r := SortAvailableSockets();
      case Uncore => r := SortAvailableUncoreCaches();
      case Core => r := SortAvailableCores();
    }

    /** freeNUMANodes, freeSockets, freeUncoreCache and freeCores. */
    method FreeUnitsOf(l: Level) returns (free: seq<int>)
      requires Valid() && l != Cpu
      ensures free == FreeUnits(topo, l, details)
    {
      var us := SortAvailableUnits(l);
      free := [];
      ghost var rest := Filter(topo, l, details, us);
      for i := 0 to |us|
        invariant rest == Filter(topo, l, details, us[i..])
        invariant free + rest == Filter(topo, l, details, us)
      {
        FilterStep(topo, l, details, us, i);
        if IsFree(topo, l, details, us[i]) {
          free := free + [us[i]];
        }
        rest := Filter(topo, l, details, us[i + 1..]);
      }
    }

    // ---- claiming CPUs

    method TakeCpus(cpus: set<int>)
      modifies this
      ensures State() == Take(old(State()), cpus)
    {
      result := result + cpus;
      details := KeepOnly(details, details.Keys - result);
      numCPUsNeeded := numCPUsNeeded - |cpus|;
    }

    /** takeFullNUMANodes, takeFullSockets, takeFullUncore and takeFullCores. */
    method TakeFullUnits(l: Level)
      requires Valid() && l != Cpu
      modifies this
      ensures State() == TakeFull(topo, l, old(State()))
    {
      var us := FreeUnitsOf(l);
      for i := 0 to |us|
        invariant TakeUnits(topo, l, State(), us[i..]) == TakeUnits(topo, l, old(State()), us)
      {
        var cpus := Members(topo.cpuDetails, l, us[i]);
        assert us[i..][1..] == us[i + 1..];
        var enough := NeedsAtLeast(|cpus|);
        if enough {
          TakeCpus(cpus);
        }
      }
    }

    /** Drops the last CPU of an odd request's candidates when it is one too many. */
    method TrimOdd(candidates: set<int>) returns (cpus: set<int>)
      requires numCPUsNeeded >= 1
      ensures cpus == if numCPUsNeeded % 2 != 0 && topo.CPUsPerCore() > 1 && |candidates| > numCPUsNeeded
                      then DropHighest(candidates) else candidates
    {
      cpus := candidates;
      if numCPUsNeeded % 2 != 0 && topo.CPUsPerCore() > 1 {
        var sorted := List(candidates);
        if |sorted| > numCPUsNeeded {
          sorted := sorted[..|candidates| - 1];
        }
        cpus := Elements(sorted);
        assert Elements(List(candidates)) == candidates;
      }
    }

    /** The free CPUs of as many of the cache's cores as the request needs. */
    method CoresOfCache(u: int) returns (cpus: set<int>)
      requires topo.CPUsPerCore() > 0 && numCPUsNeeded >= 1
      ensures cpus == PartialCpus(topo, State(), u)
    {
      var coresNeeded := (numCPUsNeeded + topo.CPUsPerCore() - 1) / topo.CPUsPerCore();
      var freeCores := CoresNeededInUncoreCache(details, coresNeeded, u);
      cpus := MembersOf(details, Core, freeCores);
    }

    method TakePartialUncore(u: int)
      requires topo.CPUsPerCore() > 0 && numCPUsNeeded >= 1
      modifies this
      ensures State() == TakePartial(topo, old(State()), u)
    {
      var freeCPUs := CoresOfCache(u);
      freeCPUs := TrimOdd(freeCPUs);
      if numCPUsNeeded == |freeCPUs| {
        TakeCpus(freeCPUs);
      }
    }

    method TakeUncoreCache()
      requires Valid() && topo.CPUsPerCore() > 0
      modifies this
      ensures State() == TakeUncore(topo, old(State()))
    {
      var perUncore := topo.CPUsPerUncore();
      var us := SortAvailableUncoreCaches();
      for i := 0 to |us|
        invariant TakeUncoreLoop(topo, State(), us[i..]) == TakeUncoreLoop(topo, old(State()), us)
      {
        assert us[i..][1..] == us[i + 1..];
        var enough := NeedsAtLeast(perUncore);
        if enough {
          TakeFullUnits(Uncore);
        }
        var done := IsSatisfied();
        if done {
          return;
        }
        TakePartialUncore(us[i]);
        done := IsSatisfied();
        if done {
          return;
        }
      }
    }

    method TakeRemainingCPUs()
      requires Valid()
      modifies this
      ensures State() == TakeRemaining(topo, old(State()), strategy)
    {
      var cpus := SortAvailableCPUs();
      for i := 0 to |cpus|
        invariant TakeSingles(State(), cpus[i..]) == TakeSingles(old(State()), cpus)
      {
        assert cpus[i..][1..] == cpus[i + 1..];
        TakeCpus({cpus[i]});
        var done := IsSatisfied();
        if done {
          return;
        }
      }
    }

    /** The stages of takeByTopologyNUMAPacked once its two early exits are passed. */
    method RunStages(align: bool) returns (r: Result)
      requires Valid() && topo.CPUsPerCore() > 0
      modifies this
      ensures r == Stages(topo, old(State()), strategy, align)
    {
      TakeFullUnits(if numaFirst then Numa else Socket);
      if numCPUsNeeded < 1 { return Ok(result); }
      TakeFullUnits(if numaFirst then Socket else Numa);
      if numCPUsNeeded < 1 { return Ok(result); }
      if align {
        TakeUncoreCache();
        if numCPUsNeeded < 1 { return Ok(result); }
      }
      if strategy != SPREAD {
        TakeFullUnits(Core);
        if numCPUsNeeded < 1 { return Ok(result); }
      }
      TakeRemainingCPUs();
      if numCPUsNeeded < 1 { return Ok(result); }
      return Failed;
    }
  }

  /** takeByTopologyNUMAPacked. */
  method TakeByTopologyNUMAPacked(topo: CPUTopology, availableCPUs: set<int>, numCPUs: int, strategy: string,
                                  align: bool) returns (r: Result)
    requires WellFormed(topo)
    ensures r == Packed(topo, availableCPUs, numCPUs, strategy, align)
    ensures var free := topo.cpuDetails.Keys * availableCPUs;
      if numCPUs > |free| then r == NotEnough
      else r.Ok? && r.cpus <= free && |r.cpus| <= if numCPUs < 1 then 0 else numCPUs
    ensures var free := topo.cpuDetails.Keys * availableCPUs;
      numCPUs <= |free| && (align ==> CountsOnce(topo, free, numCPUs)) ==> |r.cpus| == if numCPUs < 1 then 0 else numCPUs
    ensures var free := topo.cpuDetails.Keys * availableCPUs;
      1 <= numCPUs <= |free| ==> InOrder(topo, free, numCPUs, strategy, align, r.cpus)
  {
    hide InOrder;
    if 1 <= numCPUs <= |topo.cpuDetails.Keys * availableCPUs| {
      PackedInOrder(topo, availableCPUs, numCPUs, strategy, align);
    }
    PackedSafe(topo, availableCPUs, numCPUs, strategy, align);
    if align ==> CountsOnce(topo, topo.cpuDetails.Keys * availableCPUs, numCPUs) {
      PackedCorrect(topo, availableCPUs, numCPUs, strategy, align);
    }
    var acc := new CpuAccumulator(topo, availableCPUs, numCPUs, strategy);
    var satisfied := acc.IsSatisfied();
    if satisfied {
      return Ok(acc.result);
    }
    var failed := acc.IsFailed();
    if failed {
      return NotEnough;
    }
    KeepMembers(topo.cpuDetails, availableCPUs, Cpu, 0);
    CoresNonEmpty(topo);
    r := acc.RunStages(align);
  }
}
