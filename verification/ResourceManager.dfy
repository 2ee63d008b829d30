/** The resource manager of one host: it guards the policy's operations, and (in ghost state)
    remembers which VMs it has booked and not released. */
module ResourceManagers {
  import opened Sorting
  import opened Topology
  import opened PolicyModel
  import opened PolicyRuns
  import opened StaticPolicies
  import opened SimplePolicies
  import opened Placement
  import opened PackedModel
  import opened StaticOrder

  datatype Policy = Static(packed: StaticPolicy) | Simple(counted: SimplePolicy)

  ghost function Home(p: Policy): object {
    match p
    case Static(q) => q
    case Simple(q) => q
  }

  ghost function PolicyCfg(p: Policy): Config {
    match p
    case Static(q) => q.Cfg()
    case Simple(q) => q.Cfg()
  }

  ghost function PolicyState(p: Policy): Books
    reads Home(p)
  {
    match p
    case Static(q) => q.State()
    case Simple(q) => q.State()
  }

  ghost predicate PolicyValid(p: Policy)
    reads Home(p)
  {
    match p
    case Static(q) => q.Valid()
    case Simple(q) => q.Valid()
  }

  /** What an allocation needs: the static policy a well-formed topology, the simple one nothing. */
  ghost predicate Ready(p: Policy) {
    match p
    case Static(q) => WellFormed(q.topo) && q.allCPUs == q.topo.cpuDetails.Keys
    case Simple(q) => true
  }

  ghost function AllocateResult(p: Policy, s: Books, op: VM): Outcome {
    match p
    case Static(q) => AllocateOutcome(q.topo, q.Cfg(), s, op)
    case Simple(q) => SimpleOutcome(q.Cfg(), s, op)
  }

  /** What the policy looks at: the simple one ignores NUMA nodes. */
  ghost function Seen(p: Policy, op: VM): VM {
    if p.Static? then op else WithoutNodes(op)
  }

  /** A new request, as the instance provider makes it: no NUMA nodes, no affinity. */
  ghost predicate New(op: VM) {
    op.numaNodes == map[] && op.cpuSet == {}
  }

  ghost predicate Known(cfg: Config, s: Books, vm: VM) {
    vm.cpuSet <= cfg.all && (vm.cpuSet - cfg.reserved) !! s.used && vm.numaNodes.Keys <= cfg.numa.Keys
  }

  // ---- what a granted request is and leaves booked

  /** The static policy: the request comes back with free CPUs that suit it, cores and caches
      kept together, and its layout; they and its memory are booked, and nothing else is. */
  ghost predicate Pinned(t: CPUTopology, s: Books, op: VM, placed: VM, after: Books) {
    && WrittenBack(t.cpuDetails, op, placed.cpuSet, placed)
    && placed.cpuSet != {} && |placed.cpuSet| <= op.cpus && placed.cpuSet <= FreeSuiting(t, s, op)
    && (CountsOnce(t, FreeSuiting(t, s, op), op.cpus) ==> |placed.cpuSet| == op.cpus)
    && TakenWell(t, FreeSuiting(t, s, op), op.cpus, placed.cpuSet)
    && after.available == s.available - placed.cpuSet && after.used == s.used + placed.cpuSet
    && after.assignedCPUs == s.assignedCPUs && after.assignedMemory == s.assignedMemory + op.memory
    && Deducted(s.numa, placed.numaNodes, after.numa)
  }

  /** The simple policy: the request comes back as it is, its CPUs are promised and its memory
      is booked, and nothing else is. */
  ghost predicate Promised(s: Books, op: VM, placed: VM, after: Books) {
    && placed == op
    && after.available == s.available && after.used == s.used && after.numa == s.numa
    && after.assignedCPUs == s.assignedCPUs + op.cpus && after.assignedMemory == s.assignedMemory + op.memory
  }

  ghost predicate Booking(p: Policy, s: Books, op: VM, placed: VM, after: Books) {
    match p
    case Static(q) => Pinned(q.topo, s, op, placed, after)
    case Simple(q) => Promised(s, op, placed, after)
  }

  ghost predicate Grantable(p: Policy, s: Books, op: VM) {
    match p
    case Static(q) => Granted(q.topo, q.Cfg(), s, op)
    case Simple(q) =>
      s.assignedMemory + op.memory <= q.availableMemory && s.assignedCPUs + op.cpus <= |s.available|
  }

  lemma PlacedPinned(t: CPUTopology, s: Books, op: VM, placed: VM)
    requires op.cpus > 0 && placed == PlacedVM(t, op, placed.cpuSet)
    requires placed.cpuSet != {} && |placed.cpuSet| <= op.cpus && placed.cpuSet <= FreeSuiting(t, s, op)
    requires CountsOnce(t, FreeSuiting(t, s, op), op.cpus) ==> |placed.cpuSet| == op.cpus
    requires TakenWell(t, FreeSuiting(t, s, op), op.cpus, placed.cpuSet)
    ensures Pinned(t, s, op, placed, Place(s, placed))
  {
    hide TakenWell, CountsOnce, FreeSuiting;
    PlacementWrites(t, op, placed.cpuSet);
  }

  lemma ResultGrantable(p: Policy, s: Books, op: VM)
    requires op.cpus > 0 && op.memory > 0
    ensures AllocateResult(p, s, op) == Done <==> Grantable(p, s, op)
  {
    match p
    case Static(q) => GrantedIff(q.topo, q.Cfg(), s, op);
    case Simple(q) =>
  }

  // ---- headroom against allocation

  /** FitInZone's test. */
  predicate Fits(cfg: Config, s: Books, cpus: int, memory: int) {
    Headroom(cfg, s) >= cpus && MemoryHeadroom(cfg, s) >= memory
  }

  /** With the simple policy a request that passes the guards is granted exactly when it fits,
      provided the reserved CPUs exist. */
  lemma SimpleFits(cfg: Config, s: Books, op: VM)
    requires Partition(cfg, s) && cfg.reserved <= cfg.all && op.cpus > 0 && op.memory > 0
    ensures SimpleOutcome(cfg, s, op) == Done <==> Fits(cfg, s, op.cpus, op.memory)
  {
    FreeDifference(cfg, s);
  }

  /** The test agrees with allocation on all requests exactly when the reserved CPUs exist, or
      nothing at all can be granted. */
  lemma FitIsExact(cfg: Config, s: Books)
    requires Partition(cfg, s)
    ensures (forall op: VM :: op.cpus > 0 && op.memory > 0 ==>
              (SimpleOutcome(cfg, s, op) == Done <==> Fits(cfg, s, op.cpus, op.memory)))
        <==> cfg.reserved <= cfg.all || |s.available| <= s.assignedCPUs || s.assignedMemory == cfg.memory
  {
    FreeDifference(cfg, s);
    if !(cfg.reserved <= cfg.all) && |s.available| > s.assignedCPUs && s.assignedMemory < cfg.memory {
      var op := VM(1, |s.available| - s.assignedCPUs, {}, 1, map[]);
      assert cfg.reserved - cfg.all != {};
      assert SimpleOutcome(cfg, s, op) == Done;
      assert !Fits(cfg, s, op.cpus, op.memory);
    }
  }

  /** On a host of two CPUs told to reserve CPU 0 and CPU 7, a request for one CPU is granted
      though the test says that it does not fit. */
  lemma FitMisses()
    ensures var cfg, op := Config({0, 1}, {0, 7}, 100, map[]), VM(1, 1, {}, 1, map[]);
      SimpleOutcome(cfg, Start(cfg), op) == Done && !Fits(cfg, Start(cfg), op.cpus, op.memory)
  {
    HeadroomMisreports();
  }

  /** The static policy grants a new request exactly when it fits and enough free CPUs lie on
      nodes that could each hold all of its memory; so what does not fit is never granted. */
  lemma StaticFits(t: CPUTopology, cfg: Config, s: Books, op: VM)
    requires Partition(cfg, s) && cfg.all == t.cpuDetails.Keys && cfg.reserved <= cfg.all
    requires op.cpus > 0 && op.memory > 0 && op.numaNodes == map[]
    ensures AllocateOutcome(t, cfg, s, op) == Done
        <==> Fits(cfg, s, op.cpus, op.memory) && op.cpus <= |FreeSuiting(t, s, op)|
  {
    FreeDifference(cfg, s);
    EligibleSuit(t, s, op);
  }

  class ResourceManager {
    const nodePolicy: Policy
    /** The VMs booked and not released, as the policy sees them. */
    ghost var live: seq<VM>

    ghost function State(): Books
      reads Home(nodePolicy)
    {
      PolicyState(nodePolicy)
    }

    ghost predicate Valid()
      reads this, Home(nodePolicy)
    {
      PolicyValid(nodePolicy)
    }

    /** The policy's books are those of the live VMs. */
    ghost predicate Settled()
      reads this, Home(nodePolicy)
    {
      Balanced(PolicyCfg(nodePolicy), Run(State(), live))
    }

    constructor (p: Policy)
      requires PolicyValid(p) && PolicyState(p) == Start(PolicyCfg(p))
      requires forall i :: i in PolicyCfg(p).numa ==> PolicyCfg(p).numa[i] >= 0
      ensures Valid() && Settled() && nodePolicy == p && live == []
    {
      nodePolicy := p;
      live := [];
      new;
      RunBalanced(PolicyCfg(p), []);
    }

    method AvailableCPUs() returns (n: int)
      ensures n == Headroom(PolicyCfg(nodePolicy), State())
    {
      match nodePolicy
      case Static(p) => n := p.AvailableCPUs();
      case Simple(p) => n := p.AvailableCPUs();
    }

    method AvailableMemory() returns (n: nat)
      ensures n == MemoryHeadroom(PolicyCfg(nodePolicy), State())
    {
      match nodePolicy
      case Static(p) => n := p.AvailableMemory();
      case Simple(p) => n := p.AvailableMemory();
    }

    method Allocate(op: VM) returns (ok: bool, placed: VM)
      requires Ready(nodePolicy)
      modifies this, Home(nodePolicy)
      ensures old(Valid()) ==> Valid()
      ensures ok <==> op.cpus > 0 && op.memory > 0 && AllocateResult(nodePolicy, old(State()), op) == Done
      ensures !ok ==> State() == old(State()) && live == old(live) && placed == op
      ensures ok ==> live == old(live) + [Seen(nodePolicy, placed)]
      ensures ok && old(Settled()) && New(op) ==> Settled()
      ensures ok <==> op.cpus > 0 && op.memory > 0 && Grantable(nodePolicy, old(State()), op)
      ensures ok ==> Booking(nodePolicy, old(State()), op, placed, State())
    {
      hide TakenWell, CountsOnce, WrittenBack, FreeSuiting, Granted;
      if op.cpus <= 0 || op.memory == 0 {
        return false, op;
      }
      ResultGrantable(nodePolicy, State(), op);
      ghost var cfg, r := PolicyCfg(nodePolicy), Run(State(), live);
      match nodePolicy {
        case Static(p) =>
          var out, vm := p.Allocate(op);
          if out != Done {
            return false, op;
          }
          live := live + [vm];
          PlacedSettles(p.topo, cfg, r, op, vm.cpuSet);
          EligibleSuit(p.topo, r.books, op);
          PlacedPinned(p.topo, r.books, op, vm);
          return true, vm;
        case Simple(p) =>
          var out := p.Allocate(op);
          if out != Done {
            return false, op;
          }
          live := live + [WithoutNodes(op)];
          AllocatedSettles(cfg, r, op);
          return true, op;
      }
    }

    method AllocateOrUpdate(op: VM) returns (ok: bool)
      modifies this, Home(nodePolicy)
      ensures old(Valid()) && op.cpuSet <= PolicyCfg(nodePolicy).all ==> Valid()
      ensures ok <==> op.cpus > 0 && op.memory > 0 && op.id != 0
                      && UpdateOutcome(PolicyCfg(nodePolicy), old(State()), Seen(nodePolicy, op)) == Done
      ensures !ok ==> State() == old(State()) && live == old(live)
      ensures ok ==> State() == Update(PolicyCfg(nodePolicy), old(State()), Seen(nodePolicy, op))
      ensures ok ==> live == old(live) + [Seen(nodePolicy, op)]
      ensures ok && old(Settled()) && Known(PolicyCfg(nodePolicy), old(State()), Seen(nodePolicy, op)) ==> Settled()
    {
      if op.cpus <= 0 || op.memory == 0 || op.id == 0 {
        return false;
      }
      ghost var cfg, r := PolicyCfg(nodePolicy), Run(State(), live);
      var out;
      match nodePolicy {
        case Static(p) => out := p.AllocateOrUpdate(op);
        case Simple(p) => out := p.AllocateOrUpdate(op);
      }
      if out != Done {
        UpdateFailed(cfg, r.books, Seen(nodePolicy, op));
        return false;
      }
      live := live + [Seen(nodePolicy, op)];
      UpdatedSettles(cfg, r, Seen(nodePolicy, op));
      return true;
    }

    /** Release of a live VM gives back its share and nothing else; a request without an id is
        silently ignored, whatever was booked for it. */
    method ReleaseVM(op: VM) returns (ok: bool)
      modifies this, Home(nodePolicy)
      ensures old(Valid()) && op.cpuSet <= PolicyCfg(nodePolicy).all ==> Valid()
      ensures op.cpus <= 0 || op.memory == 0 || op.id == 0 ==> ok && State() == old(State()) && live == old(live)
      ensures op.cpus > 0 && op.memory > 0 && op.id != 0 ==>
        && (ok <==> ReleaseOutcome(old(State()), Seen(nodePolicy, op)) == Done)
        && State() == Release(PolicyCfg(nodePolicy), old(State()), Seen(nodePolicy, op))
      ensures old(Settled()) && Seen(nodePolicy, op) in old(live) && op.id != 0 ==>
        && ok && Settled() && multiset(live) == multiset(old(live)) - multiset{Seen(nodePolicy, op)}
    {
      ghost var cfg, r, vm := PolicyCfg(nodePolicy), Run(State(), live), Seen(nodePolicy, op);
      if op.cpus <= 0 || op.memory == 0 || op.id == 0 {
        Guarded(cfg, r, vm);
        return true;
      }
      var out;
      match nodePolicy {
        case Static(p) => out := p.ReleaseVM(op);
        case Simple(p) => out := p.ReleaseVM(op);
      }
      if vm in live {
        ghost var k := IndexOf(live, vm);
        ReleasedSettles(cfg, r, k);
        live := RemoveAt(live, k);
      }
      return out == Done;
    }
  }

  lemma PlacedSettles(t: CPUTopology, cfg: Config, r: Run, op: VM, cpus: set<int>)
    requires op.cpus > 0 && op.memory > 0 && cfg.all == t.cpuDetails.Keys
    requires cpus != {} && cpus <= Eligible(t, r.books, op) && AllocateOutcome(t, cfg, r.books, op) == Done
    ensures Balanced(cfg, r) && New(op) ==>
      Balanced(cfg, Run(Place(r.books, PlacedVM(t, op, cpus)), r.live + [PlacedVM(t, op, cpus)]))
  {
    if Balanced(cfg, r) && New(op) {
      PlacementIsLegal(t, cfg, r, op, cpus);
      StepBalanced(cfg, r, Placed(PlacedVM(t, op, cpus)));
    }
  }

  lemma AllocatedSettles(cfg: Config, r: Run, op: VM)
    requires op.cpus > 0 && op.memory > 0 && cfg.numa == r.books.numa == map[]
    requires SimpleOutcome(cfg, r.books, op) == Done
    ensures Balanced(cfg, r) && New(op) ==>
      Balanced(cfg, Run(SimpleAllocate(cfg, r.books, op), r.live + [WithoutNodes(op)]))
  {
    if Balanced(cfg, r) && New(op) {
      AllocateIsUpdate(cfg, r.books, op);
      UpdatedSettles(cfg, r, WithoutNodes(op));
    }
  }

  lemma UpdatedSettles(cfg: Config, r: Run, vm: VM)
    requires vm.cpus > 0 && vm.memory > 0 && UpdateOutcome(cfg, r.books, vm) == Done
    ensures Balanced(cfg, r) && Known(cfg, r.books, vm) ==>
      Balanced(cfg, Run(Update(cfg, r.books, vm), r.live + [vm]))
  {
    if Balanced(cfg, r) && Known(cfg, r.books, vm) {
      StepBalanced(cfg, r, Updated(vm));
    }
  }

  lemma UpdateFailed(cfg: Config, s: Books, vm: VM)
    requires UpdateOutcome(cfg, s, vm) != Done
    ensures Update(cfg, s, vm) == s
  {
  }

  lemma ReleasedSettles(cfg: Config, r: Run, k: nat)
    requires k < |r.live|
    ensures Balanced(cfg, r) ==> ReleaseOutcome(r.books, r.live[k]) == Done
    ensures Balanced(cfg, r) ==> Balanced(cfg, Run(Release(cfg, r.books, r.live[k]), RemoveAt(r.live, k)))
    ensures multiset(RemoveAt(r.live, k)) == multiset(r.live) - multiset{r.live[k]}
  {
    if Balanced(cfg, r) {
      Left(cfg, r, k);
    }
    RemovedOne(r.live, k);
  }

  /** Live VMs pass the guards, so a request that does not is not among them. */
  lemma Guarded(cfg: Config, r: Run, vm: VM)
    requires vm.cpus <= 0 || vm.memory == 0 || vm.id == 0
    ensures Balanced(cfg, r) && vm in r.live ==> vm.id == 0
  {
    if Balanced(cfg, r) && vm in r.live {
      var k := IndexOf(r.live, vm);
      assert WellFormedVM(cfg, r.live[k]);
    }
  }
}
