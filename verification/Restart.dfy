/** The life of a VM beyond its allocation. What the controller knows of a VM after a restart,
    and when it deletes one, is what it reads back from the VM's configuration. */
module Restart {
  import opened Sorting
  import opened Topology
  import opened PolicyModel
  import opened PolicyRuns
  import opened StaticPolicies
  import opened SimplePolicies
  import opened ResourceManagers
  import opened Placement
  import opened VmConfig
  import opened VmRoundTrip

  // ---- a placed VM read back

  /** The VM as its configuration gives it back: whole MiB, and no NUMA nodes below one. */
  function Back(vm: VM): VM {
    vm.(memory := (vm.memory / 1024 / 1024) * MIB, numaNodes := if vm.memory >= MIB then vm.numaNodes else map[])
  }

  /** The new request the VM was placed for. */
  function Request(vm: VM): VM {
    vm.(cpuSet := {}, numaNodes := map[])
  }

  /** A live VM that Allocate of the static policy placed. */
  ghost predicate PlacedBy(t: CPUTopology, cfg: Config, vm: VM) {
    && vm.id != 0 && vm.cpus > 0 && vm.memory > 0
    && vm.cpuSet != {} && vm.cpuSet <= t.cpuDetails.Keys - cfg.reserved
    && vm == PlacedVM(t, Request(vm), vm.cpuSet)
  }

  lemma ReadsBack(t: CPUTopology, cfg: Config, vm: VM, read: VM)
    requires PlacedBy(t, cfg, vm) && Reads(Reported(vm.id, OptionsOf(vm)), read)
    ensures read == Back(vm)
  {
    PlacementSurvives(t, Request(vm), vm.cpuSet, vm.id, read);
    if vm.memory < MIB {
      PlacementLost(t, Request(vm), vm.cpuSet, vm.id, read);
    }
  }

  lemma WholeMemory(memory: nat)
    ensures (memory / 1024 / 1024) * MIB == memory - memory % MIB
    ensures memory / 1024 / 1024 > 0 <==> memory >= MIB
  {
    assert memory / 1024 / 1024 == memory / MIB;
  }

  /** AllocateOrUpdate of the resource manager: it turns away VMs without CPUs, memory or id. */
  function Told(cfg: Config, s: Books, vm: VM): Books {
    if vm.cpus <= 0 || vm.memory == 0 || vm.id == 0 then s else Update(cfg, s, vm)
  }

  /** What the policy's check on the NUMA nodes lets through. */
  ghost predicate Accepted(vm: VM) {
    vm.memory > 0 && (TotalBytes(vm.numaNodes) == 0 || TotalBytes(vm.numaNodes) == vm.memory)
  }

  /** A placed VM is let through when it comes back with its memory and lies on one node. */
  lemma AcceptedIff(t: CPUTopology, cfg: Config, vm: VM)
    requires PlacedBy(t, cfg, vm)
    ensures Accepted(Back(vm)) <==> vm.memory >= MIB && OnOneNode(t.cpuDetails, vm.cpuSet)
  {
    if vm.memory >= MIB {
      WholeCharge(t, cfg, vm);
    }
    AcceptedFrom(vm, OnOneNode(t.cpuDetails, vm.cpuSet));
  }

  lemma AcceptedFrom(vm: VM, one: bool)
    requires vm.memory >= MIB ==> TotalBytes(vm.numaNodes) > 0
    requires vm.memory >= MIB ==> (TotalBytes(vm.numaNodes) == (vm.memory / 1024 / 1024) * MIB <==> one)
    ensures Accepted(Back(vm)) <==> vm.memory >= MIB && one
  {
    WholeMemory(vm.memory);
  }

  lemma WholeCharge(t: CPUTopology, cfg: Config, vm: VM)
    requires PlacedBy(t, cfg, vm) && vm.memory >= MIB
    ensures TotalBytes(vm.numaNodes) > 0
    ensures TotalBytes(vm.numaNodes) == (vm.memory / 1024 / 1024) * MIB <==> OnOneNode(t.cpuDetails, vm.cpuSet)
  {
    WholeMemory(vm.memory);
    PlacementLayout(t, Request(vm), vm.cpuSet);
    ChargeOfWhole(t.cpuDetails, vm.cpuSet, vm.memory / 1024 / 1024, vm.numaNodes);
  }

  /** The policy, told of a placed VM as it is read back while its CPUs are free and the
      memory is there, books it if and only if it lies on one NUMA node, whatever the memory;
      what it books is the VM with its memory in whole MiB. */
  lemma PlacementReplays(t: CPUTopology, cfg: Config, s: Books, vm: VM, read: VM)
    requires Partition(cfg, s) && cfg.all == t.cpuDetails.Keys && PlacedBy(t, cfg, vm) && vm.memory >= MIB
    requires vm.cpuSet <= s.available && s.assignedMemory + vm.memory <= cfg.memory && NodesFit(s.numa, vm)
    requires Reads(Reported(vm.id, OptionsOf(vm)), read)
    ensures UpdateOutcome(cfg, s, read) == if OnOneNode(t.cpuDetails, vm.cpuSet) then Done else MemoryMismatch
    ensures Told(cfg, s, read)
         == if OnOneNode(t.cpuDetails, vm.cpuSet) then Place(s, vm).(assignedMemory := s.assignedMemory + read.memory) else s
    ensures read.memory == vm.memory - vm.memory % MIB
  {
    ReadsBack(t, cfg, vm, read);
    BackReplays(t, cfg, s, vm);
  }

  lemma BackReplays(t: CPUTopology, cfg: Config, s: Books, vm: VM)
    requires Partition(cfg, s) && cfg.all == t.cpuDetails.Keys && PlacedBy(t, cfg, vm) && vm.memory >= MIB
    requires vm.cpuSet <= s.available && s.assignedMemory + vm.memory <= cfg.memory && NodesFit(s.numa, vm)
    ensures UpdateOutcome(cfg, s, Back(vm)) == if OnOneNode(t.cpuDetails, vm.cpuSet) then Done else MemoryMismatch
    ensures Told(cfg, s, Back(vm))
         == if OnOneNode(t.cpuDetails, vm.cpuSet) then Place(s, vm).(assignedMemory := s.assignedMemory + Back(vm).memory) else s
    ensures Back(vm).memory == vm.memory - vm.memory % MIB
  {
    WholeMemory(vm.memory);
    WholeCharge(t, cfg, vm);
    SameNodesBooked(s, vm, Back(vm));
    Replay(cfg, s, Back(vm));
  }

  lemma SameNodesBooked(s: Books, vm: VM, read: VM)
    requires read == vm.(memory := read.memory)
    ensures NodesFit(s.numa, vm) ==> NodesFit(s.numa, read)
    ensures Place(s, read) == Place(s, vm).(assignedMemory := s.assignedMemory + read.memory)
  {
    assert Charge(s.numa, read) == Charge(s.numa, vm);
  }

  /** What Allocate places for a new request in the books s is a placed VM. */
  lemma PlacesNew(t: CPUTopology, cfg: Config, s: Books, op: VM, cpus: set<int>)
    requires Partition(cfg, s) && cfg.all == t.cpuDetails.Keys && New(op) && op.id != 0 && op.cpus > 0 && op.memory > 0
    requires cpus != {} && cpus <= Eligible(t, s, op)
    ensures PlacedBy(t, cfg, PlacedVM(t, op, cpus)) && NodesFit(s.numa, PlacedVM(t, op, cpus))
  {
    EligibleFree(t, s, op);
    PlacementFits(t, s, op, cpus);
    assert Request(PlacedVM(t, op, cpus)) == op;
  }

  /** A VM that Allocate spreads over several nodes is refused by the policy in the very books
      it was placed in. */
  lemma SpreadIsRefused(t: CPUTopology, cfg: Config, s: Books, op: VM, cpus: set<int>, read: VM)
    requires Partition(cfg, s) && cfg.all == t.cpuDetails.Keys && New(op) && op.id != 0 && op.cpus > 0 && op.memory >= MIB
    requires cpus != {} && cpus <= Eligible(t, s, op) && s.assignedMemory + op.memory <= cfg.memory
    requires !OnOneNode(t.cpuDetails, cpus)
    requires Reads(Reported(op.id, OptionsOf(PlacedVM(t, op, cpus))), read)
    ensures UpdateOutcome(cfg, s, read) == MemoryMismatch && Told(cfg, s, read) == s
  {
    PlacesNew(t, cfg, s, op, cpus);
    EligibleFree(t, s, op);
    PlacementReplays(t, cfg, s, PlacedVM(t, op, cpus), read);
  }

  // ---- the restart of the controller

  /** The books after the policy was told of the listed VMs, in that order. */
  function ToldAll(cfg: Config, s: Books, vms: seq<VM>): Books {
    if vms == [] then s else Told(cfg, ToldAll(cfg, s, vms[..|vms| - 1]), vms[|vms| - 1])
  }

  ghost function AsSeen(p: Policy, vms: seq<VM>): (r: seq<VM>)
    ensures |r| == |vms| && forall k :: 0 <= k < |r| ==> r[k] == Seen(p, vms[k])
  {
    seq(|vms|, k requires 0 <= k < |vms| => Seen(p, vms[k]))
  }

  lemma ToldOneMore(cfg: Config, s: Books, p: Policy, vms: seq<VM>, vm: VM)
    ensures ToldAll(cfg, s, AsSeen(p, vms + [vm])) == Told(cfg, ToldAll(cfg, s, AsSeen(p, vms)), Seen(p, vm))
  {
    var all := AsSeen(p, vms + [vm]);
    assert all[..|all| - 1] == AsSeen(p, vms);
  }

  method Tell(manager: ResourceManager, vm: VM)
    modifies manager, Home(manager.nodePolicy)
    ensures manager.State() == Told(PolicyCfg(manager.nodePolicy), old(manager.State()), Seen(manager.nodePolicy, vm))
  {
    var _ := manager.AllocateOrUpdate(vm);
  }

  ghost predicate ReadsAs(m: VirtualMachine, vm: VM) {
    Reads(m, vm)
  }

  method ReadConfig(m: VirtualMachine) returns (ok: bool, vm: VM)
    ensures if ok then ReadsAs(m, vm) else m.config.numa && !AllSplit(m.config.numas)
  {
    var r := GetResourceFromVM(m);
    if r.Uneven? {
      return false, VM(0, 0, {}, 0, map[]);
    }
    return true, r.vm;
  }

  /** updateNodeCapacity: the policy is told of every running VM of the host as its
      configuration has it. A VM the policy refuses is logged and passed over; a configuration
      that cannot be read stops the loop. */
  method UpdateNodeCapacity(manager: ResourceManager, vms: seq<VirtualMachine>) returns (ok: bool, ghost read: seq<VM>)
    modifies manager, Home(manager.nodePolicy)
    ensures |read| <= |vms| && forall k :: 0 <= k < |read| ==> ReadsAs(vms[k], read[k])
    ensures ok <==> |read| == |vms|
    ensures !ok ==> vms[|read|].config.numa && !AllSplit(vms[|read|].config.numas)
    ensures manager.State() == ToldAll(PolicyCfg(manager.nodePolicy), old(manager.State()), AsSeen(manager.nodePolicy, read))
  {
    read := [];
    ghost var p, cfg, start := manager.nodePolicy, PolicyCfg(manager.nodePolicy), manager.State();
    for i := 0 to |vms|
      invariant |read| == i && forall k :: 0 <= k < i ==> ReadsAs(vms[k], read[k])
      invariant manager.State() == ToldAll(cfg, start, AsSeen(p, read))
    {
      var vm;
      ok, vm := ReadConfig(vms[i]);
      if !ok {
        return;
      }
      Tell(manager, vm);
      ToldOneMore(cfg, start, p, read, vm);
      read := read + [vm];
    }
    return true, read;
  }

  /** VMs pinned to different CPUs that the host has the memory for, as a whole and on every
      NUMA node. */
  ghost predicate FitTogether(cfg: Config, vms: seq<VM>) {
    && (forall k :: 0 <= k < |vms| ==> Pinned(cfg, vms[k]))
    && Exclusive(cfg, vms)
    && Total(vms, MemoryOf) <= cfg.memory
    && forall i :: i in cfg.numa ==> Total(vms, BytesOn(i)) <= cfg.numa[i]
  }

  ghost predicate Pinned(cfg: Config, vm: VM) {
    vm.cpus > 0 && vm.id != 0 && vm.cpuSet != {} && vm.cpuSet <= cfg.all && vm.numaNodes.Keys <= cfg.numa.Keys
  }

  /** The VMs of the list that are let through. */
  ghost function Kept(vms: seq<VM>): seq<VM> {
    if vms == [] then []
    else
      var before := Kept(vms[..|vms| - 1]);
      if Accepted(vms[|vms| - 1]) then before + [vms[|vms| - 1]] else before
  }

  lemma {:induction false} KeptAmong(vms: seq<VM>)
    ensures forall k :: 0 <= k < |Kept(vms)| ==> Kept(vms)[k] in vms && Accepted(Kept(vms)[k])
    decreases |vms|
  {
    if vms != [] {
      KeptAmong(vms[..|vms| - 1]);
    }
  }

  lemma {:induction false} KeptAll(vms: seq<VM>)
    requires forall k :: 0 <= k < |vms| ==> Accepted(vms[k])
    ensures Kept(vms) == vms
    decreases |vms|
  {
    if vms != [] {
      KeptAll(vms[..|vms| - 1]);
      assert vms == vms[..|vms| - 1] + [vms[|vms| - 1]];
    }
  }

  /** What is let through asks for no more than all of them. */
  lemma {:induction false} KeptTotal(vms: seq<VM>, f: VM -> int)
    requires forall k :: 0 <= k < |vms| ==> f(vms[k]) >= 0
    ensures 0 <= Total(Kept(vms), f) <= Total(vms, f)
    decreases |vms|
  {
    if vms != [] {
      var n := |vms| - 1;
      KeptTotal(vms[..n], f);
      assert vms == vms[..n] + [vms[n]];
      TotalAppend(vms[..n], vms[n], f);
      TotalAppend(Kept(vms[..n]), vms[n], f);
    }
  }

  lemma KeptPinned(cfg: Config, vms: seq<VM>)
    ensures PinnedBy(cfg, Kept(vms)) <= PinnedBy(cfg, vms)
  {
    KeptAmong(vms);
    forall c | c in PinnedBy(cfg, Kept(vms)) ensures c in PinnedBy(cfg, vms) {
      var k :| 0 <= k < |Kept(vms)| && c in Kept(vms)[k].cpuSet && c !in cfg.reserved;
      var j := IndexOf(vms, Kept(vms)[k]);
    }
  }

  lemma OneLess(cfg: Config, vms: seq<VM>)
    requires FitTogether(cfg, vms) && vms != []
    ensures FitTogether(cfg, vms[..|vms| - 1])
    ensures Total(vms[..|vms| - 1], MemoryOf) + vms[|vms| - 1].memory <= cfg.memory
    ensures forall i :: i in cfg.numa ==> Total(vms[..|vms| - 1], BytesOn(i)) + NodeBytes(vms[|vms| - 1], i) <= cfg.numa[i]
  {
    var n := |vms| - 1;
    assert vms == vms[..n] + [vms[n]];
    TotalAppend(vms[..n], vms[n], MemoryOf);
    forall i | i in cfg.numa ensures Total(vms, BytesOn(i)) == Total(vms[..n], BytesOn(i)) + NodeBytes(vms[n], i) {
      TotalAppend(vms[..n], vms[n], BytesOn(i));
    }
    forall a, b | 0 <= a < b < n ensures (vms[..n][a].cpuSet - cfg.reserved) !! (vms[..n][b].cpuSet - cfg.reserved) {
      assert vms[..n][a] == vms[a] && vms[..n][b] == vms[b];
    }
  }

  lemma LastApart(cfg: Config, vms: seq<VM>)
    requires Exclusive(cfg, vms) && vms != []
    ensures (vms[|vms| - 1].cpuSet - cfg.reserved) !! PinnedBy(cfg, vms[..|vms| - 1])
  {
    var n := |vms| - 1;
    forall c | c in PinnedBy(cfg, vms[..n]) ensures c !in vms[n].cpuSet - cfg.reserved {
      var k :| 0 <= k < |vms[..n]| && c in vms[..n][k].cpuSet && c !in cfg.reserved;
      assert vms[..n][k] == vms[k];
      assert (vms[k].cpuSet - cfg.reserved) !! (vms[n].cpuSet - cfg.reserved);
    }
  }

  /** The next VM fits beside those let through before it, so only its NUMA nodes decide. */
  lemma NextFits(cfg: Config, vms: seq<VM>, s: Books)
    requires FitTogether(cfg, vms) && vms != []
    requires Balanced(cfg, Run(s, Kept(vms[..|vms| - 1])))
    ensures var vm := vms[|vms| - 1];
      && NodesFit(s.numa, vm) && s.assignedMemory + vm.memory <= cfg.memory && (vm.cpuSet - cfg.reserved) !! s.used
  {
    var n := |vms| - 1;
    var vm := vms[n];
    OneLess(cfg, vms);
    LastApart(cfg, vms);
    KeptPinned(cfg, vms[..n]);
    KeptTotal(vms[..n], MemoryOf);
    forall i | i in vm.numaNodes.Keys ensures Counter(s.numa, i) >= NodeBytes(vm, i) {
      KeptTotal(vms[..n], BytesOn(i));
      assert i in cfg.numa;
    }
  }

  lemma NextTold(cfg: Config, vms: seq<VM>, s: Books)
    requires FitTogether(cfg, vms) && vms != []
    requires Balanced(cfg, Run(s, Kept(vms[..|vms| - 1])))
    ensures Balanced(cfg, Run(Told(cfg, s, vms[|vms| - 1]), Kept(vms)))
  {
    var vm := vms[|vms| - 1];
    NextFits(cfg, vms, s);
    SubsetSize(vm.cpuSet, cfg.all);
    if Accepted(vm) {
      UpdateJoins(cfg, Run(s, Kept(vms[..|vms| - 1])), vm);
    } else {
      assert Told(cfg, s, vm) == s;
    }
  }

  /** Told of VMs that fit together, in whatever order, the policy books exactly those that
      are let through. */
  lemma {:induction false} ToldKeeps(cfg: Config, vms: seq<VM>)
    requires FitTogether(cfg, vms) && forall i :: i in cfg.numa ==> cfg.numa[i] >= 0
    ensures Balanced(cfg, Run(ToldAll(cfg, Start(cfg), vms), Kept(vms)))
    decreases |vms|
  {
    if vms == [] {
      RunBalanced(cfg, []);
    } else {
      OneLess(cfg, vms);
      ToldKeeps(cfg, vms[..|vms| - 1]);
      NextTold(cfg, vms, ToldAll(cfg, Start(cfg), vms[..|vms| - 1]));
    }
  }

  // ---- the live VMs and what is read back of them

  function Backs(vms: seq<VM>): (r: seq<VM>)
    ensures |r| == |vms| && forall k :: 0 <= k < |r| ==> r[k] == Back(vms[k])
  {
    seq(|vms|, k requires 0 <= k < |vms| => Back(vms[k]))
  }

  lemma TwoPlaces(x: seq<VM>, y: seq<VM>, a: nat, b: nat) returns (i: nat, j: nat)
    requires multiset(x) == multiset(y) && a < |x| && b < |x| && a != b
    ensures i < |y| && j < |y| && i != j && y[i] == x[a] && y[j] == x[b]
  {
    assert x[a] in multiset(y);
    i := IndexOf(y, x[a]);
    RemovedOne(x, a);
    RemovedOne(y, i);
    assert RemoveAt(x, a)[if b < a then b else b - 1] == x[b];
    assert x[b] in multiset(RemoveAt(y, i));
    var k := IndexOf(RemoveAt(y, i), x[b]);
    j := if k < i then k else k + 1;
  }

  lemma ExclusiveAnyOrder(cfg: Config, x: seq<VM>, y: seq<VM>)
    requires multiset(x) == multiset(y) && Exclusive(cfg, y)
    ensures Exclusive(cfg, x)
  {
    forall a, b | 0 <= a < b < |x| ensures (x[a].cpuSet - cfg.reserved) !! (x[b].cpuSet - cfg.reserved) {
      var i, j := TwoPlaces(x, y, a, b);
      assert (y[if i < j then i else j].cpuSet - cfg.reserved) !! (y[if i < j then j else i].cpuSet - cfg.reserved);
    }
  }

  /** What configurations keep of the memory: all but the part of a MiB. */
  function Lost(vm: VM): int {
    vm.memory % MIB
  }

  lemma {:induction false} BacksMemory(vms: seq<VM>)
    ensures Total(Backs(vms), MemoryOf) == Total(vms, MemoryOf) - Total(vms, Lost)
  {
    if vms != [] {
      BacksMemory(vms[1..]);
      assert Backs(vms)[1..] == Backs(vms[1..]);
      WholeMemory(vms[0].memory);
    }
  }

  ghost predicate AllPlaced(t: CPUTopology, cfg: Config, vms: seq<VM>) {
    forall k :: 0 <= k < |vms| ==> PlacedBy(t, cfg, vms[k])
  }

  lemma BackBytes(t: CPUTopology, cfg: Config, vm: VM, i: int)
    requires PlacedBy(t, cfg, vm)
    ensures NodeBytes(Back(vm), i) == NodeBytes(vm, i)
  {
    PlacementLayout(t, Request(vm), vm.cpuSet);
    BackBytesOf(t.cpuDetails, vm, i);
  }

  lemma BackBytesOf(d: CPUDetails, vm: VM, i: int)
    requires Layout(d, vm.cpuSet, vm.memory / 1024 / 1024, vm.numaNodes)
    ensures NodeBytes(Back(vm), i) == NodeBytes(vm, i)
  {
    WholeMemory(vm.memory);
    if i in vm.numaNodes {
      assert vm.numaNodes[i].memory == vm.memory / 1024 / 1024;
    }
  }

  lemma {:induction false} BacksBytes(t: CPUTopology, cfg: Config, vms: seq<VM>, i: int)
    requires AllPlaced(t, cfg, vms)
    ensures Total(Backs(vms), BytesOn(i)) == Total(vms, BytesOn(i))
  {
    if vms != [] {
      BacksBytes(t, cfg, vms[1..], i);
      assert Backs(vms)[1..] == Backs(vms[1..]);
      BackBytes(t, cfg, vms[0], i);
    }
  }

  lemma {:induction false} NoneNegative(vms: seq<VM>, f: VM -> int)
    requires forall k :: 0 <= k < |vms| ==> f(vms[k]) >= 0
    ensures Total(vms, f) >= 0
  {
    if vms != [] {
      NoneNegative(vms[1..], f);
    }
  }

  /** Whatever the order in which the host lists them, the live VMs read back fit together. */
  lemma LiveFit(t: CPUTopology, cfg: Config, r: Run, vms: seq<VM>)
    requires Balanced(cfg, r) && AllPlaced(t, cfg, r.live) && multiset(vms) == multiset(Backs(r.live))
    ensures FitTogether(cfg, vms)
  {
    var backs := Backs(r.live);
    ExclusiveAnyOrder(cfg, vms, backs);
    forall k | 0 <= k < |vms| ensures Pinned(cfg, vms[k]) {
      assert vms[k] in multiset(backs);
      var j := IndexOf(backs, vms[k]);
      assert WellFormedVM(cfg, r.live[j]);
    }
    TotalPermuted(vms, backs, MemoryOf);
    BacksMemory(r.live);
    NoneNegative(r.live, Lost);
    forall i | i in cfg.numa ensures Total(vms, BytesOn(i)) <= cfg.numa[i] {
      TotalPermuted(vms, backs, BytesOn(i));
      BacksBytes(t, cfg, r.live, i);
      assert r.books.numa[i] >= 0;
    }
  }

  /** The VM comes back and is let through. */
  ghost predicate Returns(t: CPUTopology, vm: VM) {
    vm.memory >= MIB && OnOneNode(t.cpuDetails, vm.cpuSet)
  }

  /** The CPU belongs to a live VM that comes back. */
  ghost predicate ReturnsWith(t: CPUTopology, live: seq<VM>, c: int) {
    exists k :: 0 <= k < |live| && c in live[k].cpuSet && Returns(t, live[k])
  }

  /** The CPUs in use after the restart are those of the live VMs that return. */
  lemma UsedAfter(t: CPUTopology, cfg: Config, r: Run, vms: seq<VM>, c: int)
    requires AllPlaced(t, cfg, r.live) && multiset(vms) == multiset(Backs(r.live))
    ensures c in PinnedBy(cfg, Kept(vms)) <==> ReturnsWith(t, r.live, c)
  {
    KeptAmong(vms);
    if c in PinnedBy(cfg, Kept(vms)) {
      var k :| 0 <= k < |Kept(vms)| && c in Kept(vms)[k].cpuSet && c !in cfg.reserved;
      assert Kept(vms)[k] in multiset(Backs(r.live));
      var j := IndexOf(Backs(r.live), Kept(vms)[k]);
      AcceptedIff(t, cfg, r.live[j]);
    }
    if ReturnsWith(t, r.live, c) {
      var k :| 0 <= k < |r.live| && c in r.live[k].cpuSet && Returns(t, r.live[k]);
      AcceptedIff(t, cfg, r.live[k]);
      assert Backs(r.live)[k] in multiset(vms);
      KeptIn(vms, Back(r.live[k]));
      var j := IndexOf(Kept(vms), Back(r.live[k]));
    }
  }

  lemma UsedAfterAll(t: CPUTopology, cfg: Config, r: Run, vms: seq<VM>, s: Books)
    requires AllPlaced(t, cfg, r.live) && multiset(vms) == multiset(Backs(r.live))
    requires s.used == PinnedBy(cfg, Kept(vms))
    ensures forall c :: c in s.used <==> ReturnsWith(t, r.live, c)
  {
    forall c ensures c in s.used <==> ReturnsWith(t, r.live, c) {
      UsedAfter(t, cfg, r, vms, c);
    }
  }

  lemma {:induction false} KeptIn(vms: seq<VM>, vm: VM)
    requires vm in vms && Accepted(vm)
    ensures vm in Kept(vms)
    decreases |vms|
  {
    var n := |vms| - 1;
    if vms[n] != vm {
      assert vms == vms[..n] + [vms[n]];
      KeptIn(vms[..n], vm);
    }
  }

  lemma AllKept(t: CPUTopology, cfg: Config, r: Run, vms: seq<VM>)
    requires AllPlaced(t, cfg, r.live) && multiset(vms) == multiset(Backs(r.live))
    requires forall k :: 0 <= k < |r.live| ==> Returns(t, r.live[k])
    ensures Kept(vms) == vms
  {
    forall i | 0 <= i < |vms| ensures Accepted(vms[i]) {
      assert vms[i] in multiset(Backs(r.live));
      var j := IndexOf(Backs(r.live), vms[i]);
      AcceptedIff(t, cfg, r.live[j]);
    }
    KeptAll(vms);
  }

  /** Every VM lies on one NUMA node and has whole MiB. */
  ghost predicate AllWhole(t: CPUTopology, live: seq<VM>) {
    forall k :: 0 <= k < |live| ==> OnOneNode(t.cpuDetails, live[k].cpuSet) && live[k].memory % MIB == 0
  }

  /** Nothing is lost of VMs on one node with whole MiB. */
  lemma WholeReturn(t: CPUTopology, cfg: Config, r: Run, vms: seq<VM>)
    requires Balanced(cfg, r) && AllPlaced(t, cfg, r.live) && multiset(vms) == multiset(Backs(r.live))
    requires AllWhole(t, r.live)
    ensures Total(Kept(vms), MemoryOf) >= 0 && Expected(cfg, Kept(vms)) == r.books
  {
    forall k | 0 <= k < |r.live| ensures Back(r.live[k]) == r.live[k] && Returns(t, r.live[k]) {
      assert PlacedBy(t, cfg, r.live[k]);
      WholeBack(r.live[k]);
    }
    assert Backs(r.live) == r.live;
    AllKept(t, cfg, r, vms);
    ExpectedPermuted(cfg, r.live, vms);
  }

  lemma WholeBack(vm: VM)
    requires vm.memory > 0 && vm.memory % MIB == 0
    ensures vm.memory >= MIB && Back(vm) == vm
  {
    WholeMemory(vm.memory);
  }

  /** A VM that does not return leaves its CPUs unused. */
  lemma AllReturn(t: CPUTopology, cfg: Config, r: Run)
    requires Balanced(cfg, r) && AllPlaced(t, cfg, r.live)
    requires forall c :: c in r.books.used <==> ReturnsWith(t, r.live, c)
    ensures forall k :: 0 <= k < |r.live| ==> Returns(t, r.live[k])
  {
    forall k | 0 <= k < |r.live| ensures Returns(t, r.live[k]) {
      assert PlacedBy(t, cfg, r.live[k]);
      var c := Pick(r.live[k].cpuSet);
      PinnedMember(cfg, r.live, k);
      assert c in r.live[k].cpuSet - cfg.reserved;
      assert c in r.books.used;
      var j :| 0 <= j < |r.live| && c in r.live[j].cpuSet && Returns(t, r.live[j]);
      if j != k {
        OneOwner(cfg, r.live, j, k, c);
      }
    }
  }

  lemma OneOwner(cfg: Config, live: seq<VM>, j: nat, k: nat, c: int)
    requires Exclusive(cfg, live) && j < |live| && k < |live| && j != k && c !in cfg.reserved
    ensures !(c in live[j].cpuSet && c in live[k].cpuSet)
  {
    var a, b := if j < k then j else k, if j < k then k else j;
    var x, y := live[a].cpuSet - cfg.reserved, live[b].cpuSet - cfg.reserved;
    assert x !! y;
    assert c !in x || c !in y;
  }

  lemma MemoryKept(t: CPUTopology, cfg: Config, r: Run, vms: seq<VM>)
    requires AllPlaced(t, cfg, r.live) && multiset(vms) == multiset(Backs(r.live))
    requires forall k :: 0 <= k < |r.live| ==> Returns(t, r.live[k])
    requires Total(Kept(vms), MemoryOf) == Total(r.live, MemoryOf)
    ensures forall k :: 0 <= k < |r.live| ==> r.live[k].memory % MIB == 0
  {
    AllKept(t, cfg, r, vms);
    TotalPermuted(vms, Backs(r.live), MemoryOf);
    BacksMemory(r.live);
    forall k | 0 <= k < |r.live| ensures r.live[k].memory % MIB == 0 {
      TotalAtLeast(r.live, k, Lost);
    }
  }

  lemma SameBooksIff(t: CPUTopology, cfg: Config, r: Run, vms: seq<VM>, s: Books)
    requires Balanced(cfg, r) && AllPlaced(t, cfg, r.live) && multiset(vms) == multiset(Backs(r.live))
    requires Balanced(cfg, Run(s, Kept(vms)))
    requires forall c :: c in s.used <==> ReturnsWith(t, r.live, c)
    ensures s == r.books <==> AllWhole(t, r.live)
  {
    if AllWhole(t, r.live) {
      WholeReturn(t, cfg, r, vms);
    }
    if s == r.books {
      AllReturn(t, cfg, r);
      MemoryKept(t, cfg, r, vms);
    }
  }

  /** After a restart the books are those of the live VMs on a single NUMA node, each with its
      memory in whole MiB. They are the books from before if and only if every live VM lies on
      one node and asks for whole MiB. */
  lemma RestartRestores(t: CPUTopology, cfg: Config, r: Run, vms: seq<VM>)
    requires Balanced(cfg, r) && cfg.all == t.cpuDetails.Keys && forall i :: i in cfg.numa ==> cfg.numa[i] >= 0
    requires AllPlaced(t, cfg, r.live) && multiset(vms) == multiset(Backs(r.live))
    ensures var s := ToldAll(cfg, Start(cfg), vms);
      && Balanced(cfg, Run(s, Kept(vms)))
      && (forall c :: c in s.used <==> ReturnsWith(t, r.live, c))
      && (s == r.books <==> AllWhole(t, r.live))
  {
    var s := ToldAll(cfg, Start(cfg), vms);
    LiveFit(t, cfg, r, vms);
    ToldKeeps(cfg, vms);
    UsedAfterAll(t, cfg, r, vms, s);
    SameBooksIff(t, cfg, r, vms, s);
  }

  // ---- deletion

  /** Release of the resource manager: it ignores VMs without CPUs, memory or id. */
  function Deleted(cfg: Config, s: Books, vm: VM): Books {
    if vm.cpus <= 0 || vm.memory == 0 || vm.id == 0 then s else Release(cfg, s, vm)
  }

  /** A VM without an id: the simple policy grants the request, but its release is ignored and
      the CPU and the memory stay booked. */
  lemma NamelessStays()
    ensures var cfg, op := Config({0, 1}, {}, 100, map[]), VM(0, 1, {}, 1, map[]);
      && SimpleOutcome(cfg, Start(cfg), op) == Done
      && Deleted(cfg, SimpleAllocate(cfg, Start(cfg), op), op) == SimpleAllocate(cfg, Start(cfg), op) != Start(cfg)
  {
    assert {0, 1} - {} == {0, 1};
    assert |{0, 1}| == 2;
  }

  /** The VM is released but for its part of a MiB. */
  ghost predicate LeavesPart(cfg: Config, before: Books, vm: VM, s: Books) {
    && s == Release(cfg, before, vm).(assignedMemory := s.assignedMemory)
    && s.assignedMemory == before.assignedMemory - vm.memory + vm.memory % MIB
  }

  lemma SameRelease(cfg: Config, s: Books, vm: VM, read: VM)
    requires vm.cpus > 0 && vm.cpuSet != {} && s.assignedMemory >= vm.memory >= read.memory
    requires read == vm.(memory := read.memory)
    ensures Release(cfg, s, read)
         == Release(cfg, s, vm).(assignedMemory := s.assignedMemory - read.memory)
  {
    assert Refund(s.numa, read) == Refund(s.numa, vm);
  }

  lemma DeletedBooks(cfg: Config, s: Books, vm: VM)
    requires vm.cpus > 0 && vm.id != 0 && vm.cpuSet != {} && s.assignedMemory >= vm.memory
    ensures var after := Deleted(cfg, s, Back(vm));
      if vm.memory < MIB then after == s else LeavesPart(cfg, s, vm, after)
  {
    WholeMemory(vm.memory);
    if vm.memory >= MIB {
      SameRelease(cfg, s, vm, Back(vm));
    }
  }

  lemma ReleaseFrees(cfg: Config, s: Books, vm: VM)
    requires ReleaseOutcome(s, vm) == Done && vm.cpus > 0 && vm.cpuSet != {}
    ensures Release(cfg, s, vm).assignedMemory == s.assignedMemory - vm.memory
  {
  }

  lemma OneBalance(cfg: Config, live: seq<VM>, a: Books, b: Books)
    requires Balanced(cfg, Run(b, live))
    ensures Balanced(cfg, Run(a, live)) <==> a == b
  {
  }

  /** Deleting a live VM releases what its configuration says. The books are then those of the
      VMs left if and only if the VM asked for whole MiB: otherwise the part of a MiB stays
      booked for ever, and a VM of less than one MiB keeps everything. */
  lemma DeletionSettles(t: CPUTopology, cfg: Config, r: Run, k: nat)
    requires Balanced(cfg, r) && AllPlaced(t, cfg, r.live) && k < |r.live|
    ensures var (s, vm) := (Deleted(cfg, r.books, Back(r.live[k])), r.live[k]);
      && (Balanced(cfg, Run(s, RemoveAt(r.live, k))) <==> vm.memory % MIB == 0)
      && if vm.memory < MIB then s == r.books else LeavesPart(cfg, r.books, vm, s)
  {
    assert PlacedBy(t, cfg, r.live[k]);
    DeletedInRun(cfg, r, k);
  }

  lemma DeletedInRun(cfg: Config, r: Run, k: nat)
    requires Balanced(cfg, r) && k < |r.live|
    requires var vm := r.live[k]; vm.cpus > 0 && vm.id != 0 && vm.memory > 0 && vm.cpuSet != {}
    ensures var (s, vm) := (Deleted(cfg, r.books, Back(r.live[k])), r.live[k]);
      && (Balanced(cfg, Run(s, RemoveAt(r.live, k))) <==> vm.memory % MIB == 0)
      && if vm.memory < MIB then s == r.books else LeavesPart(cfg, r.books, vm, s)
  {
    var vm := r.live[k];
    Left(cfg, r, k);
    TotalAtLeast(r.live, k, MemoryOf);
    DeletedBooks(cfg, r.books, vm);
    ReleaseFrees(cfg, r.books, vm);
    PartStays(cfg, r.books, vm, Deleted(cfg, r.books, Back(vm)));
    OneBalance(cfg, RemoveAt(r.live, k), Deleted(cfg, r.books, Back(vm)), Release(cfg, r.books, vm));
  }

  lemma PartStays(cfg: Config, before: Books, vm: VM, s: Books)
    requires vm.memory > 0
    requires if vm.memory < MIB then s == before else LeavesPart(cfg, before, vm, s)
    requires Release(cfg, before, vm).assignedMemory == before.assignedMemory - vm.memory
    ensures s == Release(cfg, before, vm) <==> vm.memory % MIB == 0
  {
    if vm.memory < MIB {
      assert vm.memory % MIB == vm.memory;
      assert s.assignedMemory != Release(cfg, before, vm).assignedMemory;
    }
  }
}
