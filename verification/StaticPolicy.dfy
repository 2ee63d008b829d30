/** The static policy: VMs are given particular host CPUs, packed by topology. */
module StaticPolicies {
  import opened Sorting
  import opened Topology
  import opened PackedModel
  import opened Accumulator
  import opened PolicyModel
  import opened StaticOrder

  /** The CPUs of the nodes whose counter covers the request. */
  function RoomyCPUs(t: CPUTopology, numa: map<int, int>, memory: nat): set<int> {
    set c | c in t.cpuDetails && UnitOf(t.cpuDetails, Numa, c) in numa
            && numa[UnitOf(t.cpuDetails, Numa, c)] >= memory
  }

  /** The free CPUs a request may be given: those of its preset nodes, or of the roomy ones. */
  function Eligible(t: CPUTopology, s: Books, op: VM): set<int> {
    s.available * (if op.numaNodes == map[] then RoomyCPUs(t, s.numa, op.memory)
                   else MembersOf(t.cpuDetails, Numa, op.numaNodes.Keys))
  }

  /** A CPU on a node asked for, or, if none is, on a node with so much memory left. */
  ghost predicate Suits(t: CPUTopology, numa: map<int, int>, op: VM, c: int) {
    c in t.cpuDetails &&
    var node := t.cpuDetails[c].numaNodeID;
    if |op.numaNodes| > 0 then node in op.numaNodes.Keys else node in numa.Keys && op.memory <= numa[node]
  }

  ghost function FreeSuiting(t: CPUTopology, s: Books, op: VM): set<int> {
    set c | c in s.available && Suits(t, s.numa, op, c)
  }

  /** A request for nothing is granted; any other if its memory, its CPUs beside the promised
      ones and the memory it asks of each node are there, with enough free CPUs to suit it. */
  ghost predicate Granted(t: CPUTopology, cfg: Config, s: Books, op: VM) {
    || (op.cpus <= 0 && op.memory == 0)
    || (&& s.assignedMemory + op.memory <= cfg.memory
        && s.assignedCPUs + op.cpus <= |s.available|
        && NodesHave(s.numa, op)
        && op.cpus <= |FreeSuiting(t, s, op)|)
  }

  lemma EligibleSuit(t: CPUTopology, s: Books, op: VM)
    ensures t.cpuDetails.Keys * Eligible(t, s, op) == FreeSuiting(t, s, op)
  {
    assert op.numaNodes == map[] <==> |op.numaNodes| == 0;
  }

  /** The outcome of Allocate in the terms of the machine and the books. */
  lemma GrantedIff(t: CPUTopology, cfg: Config, s: Books, op: VM)
    ensures AllocateOutcome(t, cfg, s, op)
         == if Granted(t, cfg, s, op) then Done else if s.assignedMemory + op.memory > cfg.memory then NoMemory
            else if s.assignedCPUs + op.cpus <= |s.available| && !NodesHave(s.numa, op) then NoNodeMemory else NoCPUs
  {
    EligibleSuit(t, s, op);
  }

  /** The guest NUMA layout: consecutive ranges of guest CPUs, one per host node used. */
  function GuestNodes(d: CPUDetails, cpus: set<int>, nodes: seq<int>, idx: nat, mem: nat): map<int, NumaState> {
    if nodes == [] then map[]
    else
      var here := cpus * Members(d, Numa, nodes[0]);
      var rest := GuestNodes(d, cpus, nodes[1..], idx + |here|, mem);
      if |here| > 0 then rest[nodes[0] := NumaState(Range(idx, idx + |here|), mem, "bind")] else rest
  }

  /** What Allocate writes back into the request. */
  function PlacedVM(t: CPUTopology, op: VM, cpus: set<int>): VM {
    var guest := GuestNodes(t.cpuDetails, cpus, List(Units(t.cpuDetails, Numa)), 0, op.memory / 1024 / 1024);
    op.(cpuSet := cpus, numaNodes := op.numaNodes + guest)
  }

  function AllocateOutcome(t: CPUTopology, cfg: Config, s: Books, op: VM): Outcome {
    if op.cpus <= 0 && op.memory == 0 then Done
    else if s.assignedMemory + op.memory > cfg.memory then NoMemory
    else if s.assignedCPUs + op.cpus > |s.available| then NoCPUs
    else if !NodesFit(s.numa, op) then NoNodeMemory
    else if op.cpus > |t.cpuDetails.Keys * Eligible(t, s, op)| then NoCPUs
    else Done
  }

  class StaticPolicy {
    const topo: CPUTopology
    const allCPUs: set<int>
    const reservedCPUs: set<int>
    const availableMemory: nat
    /** The memory of each NUMA node the machine came with. */
    const nodeMemory: map<int, int>
    var availableCPUs: set<int>
    var usedCPUs: set<int>
    var assignedCPUs: int
    var assignedMemory: nat
    var numaNodes: map<int, int>

    ghost function Cfg(): Config {
      Config(allCPUs, reservedCPUs, availableMemory, nodeMemory)
    }

    ghost function State(): Books
      reads this
    {
      Books(availableCPUs, usedCPUs, assignedCPUs, assignedMemory, numaNodes)
    }

    ghost predicate Valid()
      reads this
    {
      WellFormed(topo) && allCPUs == topo.cpuDetails.Keys && Partition(Cfg(), State())
    }

    constructor (topo: CPUTopology, memory: nat, nodeMemory: map<int, int>, reserved: set<int>, reservedMemory: nat)
      requires reservedMemory < memory
      ensures this.topo == topo && Partition(Cfg(), State()) && (WellFormed(topo) ==> Valid())
      ensures Cfg() == Config(topo.cpuDetails.Keys, reserved, memory - reservedMemory, nodeMemory)
      ensures State() == Start(Cfg())
    {
      this.topo := topo;
      allCPUs := topo.cpuDetails.Keys;
      reservedCPUs := reserved;
      availableMemory := memory - reservedMemory;
      this.nodeMemory := nodeMemory;
      availableCPUs := topo.cpuDetails.Keys - reserved;
      usedCPUs := {};
      assignedCPUs := 0;
      assignedMemory := 0;
      numaNodes := nodeMemory;
      new;
      StartPartitions(Cfg());
    }

    method AvailableCPUs() returns (n: int)
      ensures n == Headroom(Cfg(), State())
    {
      n := |allCPUs| - |reservedCPUs| - |usedCPUs| - assignedCPUs;
      if n < 0 {
        n := 0;
      }
    }

    method AvailableMemory() returns (n: nat)
      ensures n == MemoryHeadroom(Cfg(), State())
    {
      if assignedMemory >= availableMemory {
        return 0;
      }
      n := availableMemory - assignedMemory;
    }

    /** Whether every NUMA node of the request has the memory asked of it, and how much is
        asked of all of them together. */
    method CheckNodes(op: VM) returns (fit: bool, total: nat)
      ensures fit == NodesFit(numaNodes, op)
      ensures fit ==> total == TotalBytes(op.numaNodes)
    {
      var counters := numaNodes;
      var todo := op.numaNodes;
      total := 0;
      while todo.Keys != {}
        invariant Submap(todo, op.numaNodes) && FitBut(counters, op, todo.Keys)
        invariant total + TotalBytes(todo) == TotalBytes(op.numaNodes)
        decreases |todo.Keys|
      {
        var i := AnyOf(todo.Keys);
        if Counter(counters, i) < todo[i].memory * MIB {
          return false, total;
        }
        TotalBytesAny(todo, i);
        FitOneMore(counters, op, todo, i);
        total := total + todo[i].memory * MIB;
        todo := todo - {i};
      }
      return true, total;
    }

    /** The NUMA counters less what the VM takes from each. */
    method ChargeNodes(vm: VM)
      modifies this`numaNodes
      ensures numaNodes == Charge(old(numaNodes), vm)
    {
      var counters := numaNodes;
      var todo := vm.numaNodes.Keys;
      ChargeEnds(counters, vm);
      while todo != {}
        invariant todo <= vm.numaNodes.Keys && numaNodes == ChargeBut(counters, vm, todo)
        decreases |todo|
      {
        var i := AnyOf(todo);
        ChargeOneMore(counters, vm, todo, i);
        numaNodes := numaNodes[i := Counter(numaNodes, i) - vm.numaNodes[i].memory * MIB];
        todo := todo - {i};
      }
    }

    method RefundNodes(vm: VM)
      modifies this`numaNodes
      ensures numaNodes == Refund(old(numaNodes), vm)
    {
      var counters := numaNodes;
      var todo := vm.numaNodes.Keys;
      while todo != {}
        invariant todo <= vm.numaNodes.Keys && numaNodes == RefundBut(counters, vm, todo)
        decreases |todo|
      {
        var i := AnyOf(todo);
        RefundOneMore(counters, vm, todo, i);
        if i in numaNodes {
          numaNodes := numaNodes[i := numaNodes[i] + vm.numaNodes[i].memory * MIB];
        }
        todo := todo - {i};
      }
    }

    method CollectRoomy(memory: nat) returns (cpus: set<int>)
      ensures cpus == RoomyCPUs(topo, numaNodes, memory)
    {
      cpus := {};
      var counters := numaNodes;
      var todo := counters.Keys;
      while todo != {}
        invariant todo <= counters.Keys && cpus == RoomyBut(topo.cpuDetails, counters, memory, todo)
        decreases |todo|
      {
        var i := AnyOf(todo);
        if counters[i] >= memory {
          cpus := cpus + Members(topo.cpuDetails, Numa, i);
        }
        todo := todo - {i};
      }
    }

    method CollectPreset(op: VM) returns (cpus: set<int>)
      ensures cpus == MembersOf(topo.cpuDetails, Numa, op.numaNodes.Keys)
    {
      cpus := {};
      var todo := op.numaNodes.Keys;
      while todo != {}
        invariant todo <= op.numaNodes.Keys
        invariant cpus == MembersOf(topo.cpuDetails, Numa, op.numaNodes.Keys - todo)
        decreases |todo|
      {
        var i := AnyOf(todo);
        cpus := cpus + Members(topo.cpuDetails, Numa, i);
        todo := todo - {i};
      }
    }

    /** takeByTopology with the options every static policy is created with: packed, aligned
        to caches, not distributed. */
    method TakeByTopology(eligible: set<int>, n: int) returns (r: Result)
      requires WellFormed(topo)
      ensures r.Ok? <==> n <= |topo.cpuDetails.Keys * eligible|
      ensures r.Ok? ==> r.cpus <= topo.cpuDetails.Keys * eligible && |r.cpus| <= (if n < 1 then 0 else n)
      ensures r.Ok? && n >= 1 ==> r.cpus != {}
      ensures r.Ok? && CountsOnce(topo, topo.cpuDetails.Keys * eligible, n) ==> |r.cpus| == if n < 1 then 0 else n
      ensures r.Ok? ==> TakenWell(topo, topo.cpuDetails.Keys * eligible, n, r.cpus)
    {
      hide TakenWell;
      r := TakeByTopologyNUMAPacked(topo, eligible, n, PACKED, true);
      if n <= |topo.cpuDetails.Keys * eligible| {
        PackedTakenWell(topo, eligible, n);
      }
      if 1 <= n <= |topo.cpuDetails.Keys * eligible| {
        PackedNonEmpty(topo, eligible, n, PACKED, true);
      }
    }

    /** The free CPUs the request may be given. */
    method EligibleCPUs(op: VM) returns (cpus: set<int>)
      ensures cpus == Eligible(topo, State(), op)
    {
      if op.numaNodes.Keys == {} {
        cpus := CollectRoomy(op.memory);
        assert op.numaNodes == map[];
      } else {
        cpus := CollectPreset(op);
        assert op.numaNodes != map[];
      }
      cpus := availableCPUs * cpus;
    }

    /** Allocate: on success the request comes back with the CPUs and the guest layout. */
    method Allocate(op: VM) returns (out: Outcome, placed: VM)
      requires WellFormed(topo)
      modifies this
      ensures old(Valid()) ==> Valid()
      ensures out == AllocateOutcome(topo, Cfg(), old(State()), op)
      ensures out != Done || (op.cpus <= 0 && op.memory == 0) ==> State() == old(State()) && placed == op
      ensures out == Done && !(op.cpus <= 0 && op.memory == 0) ==>
        && placed == PlacedVM(topo, op, placed.cpuSet)
        && placed.cpuSet <= Eligible(topo, old(State()), op)
        && State() == Place(old(State()), placed)
        && |placed.cpuSet| <= (if op.cpus < 1 then 0 else op.cpus)
        && (op.cpus >= 1 ==> placed.cpuSet != {})
        && (CountsOnce(topo, topo.cpuDetails.Keys * Eligible(topo, old(State()), op), op.cpus) ==>
              |placed.cpuSet| == if op.cpus < 1 then 0 else op.cpus)
      ensures out == Done <==> Granted(topo, Cfg(), old(State()), op)
      ensures out == Done && !(op.cpus <= 0 && op.memory == 0) ==>
        && placed.cpuSet <= FreeSuiting(topo, old(State()), op)
        && TakenWell(topo, FreeSuiting(topo, old(State()), op), op.cpus, placed.cpuSet)
    {
      hide TakenWell;
      GrantedIff(topo, Cfg(), State(), op);
      EligibleSuit(topo, State(), op);
      if op.cpus <= 0 && op.memory == 0 {
        return Done, op;
      }
      var cpus;
      out, cpus := TakeFor(op);
      if out != Done {
        return out, op;
      }
      ghost var before := State();
      placed := Commit(op, cpus);
      if Partition(Cfg(), before) {
        PlacePartitions(Cfg(), before, placed);
      }
    }

    /** The checks of Allocate and the CPUs it would take. */
    method TakeFor(op: VM) returns (out: Outcome, cpus: set<int>)
      requires WellFormed(topo) && !(op.cpus <= 0 && op.memory == 0)
      ensures out == AllocateOutcome(topo, Cfg(), State(), op)
      ensures out == Done ==>
        && cpus <= Eligible(topo, State(), op) && |cpus| <= (if op.cpus < 1 then 0 else op.cpus)
        && (op.cpus >= 1 ==> cpus != {})
        && (CountsOnce(topo, topo.cpuDetails.Keys * Eligible(topo, State(), op), op.cpus) ==>
              |cpus| == if op.cpus < 1 then 0 else op.cpus)
        && cpus <= topo.cpuDetails.Keys
        && TakenWell(topo, topo.cpuDetails.Keys * Eligible(topo, State(), op), op.cpus, cpus)
    {
      hide TakenWell, CountsOnce, Eligible, NodesFit, WellFormed;
      if assignedMemory + op.memory > availableMemory {
        return NoMemory, {};
      }
      if assignedCPUs + op.cpus > |availableCPUs| {
        return NoCPUs, {};
      }
      var fit, _ := CheckNodes(op);
      if !fit {
        return NoNodeMemory, {};
      }
      var eligible := EligibleCPUs(op);
      var r := TakeByTopology(eligible, op.cpus);
      if !r.Ok? {
        return NoCPUs, {};
      }
      return Done, r.cpus;
    }

    /** Books the CPUs taken for a request and writes them and the layout back into it. */
    method Commit(op: VM, cpus: set<int>) returns (placed: VM)
      modifies this
      ensures placed == PlacedVM(topo, op, cpus)
      ensures State() == Place(old(State()), placed)
    {
      usedCPUs := usedCPUs + cpus;
      availableCPUs := availableCPUs - cpus;
      var guest := LayOut(topo.cpuDetails, cpus, List(Units(topo.cpuDetails, Numa)), op.memory / 1024 / 1024);
      placed := op.(cpuSet := cpus, numaNodes := op.numaNodes + guest);
      ChargeNodes(placed);
      assignedMemory := assignedMemory + op.memory;
    }

    /** The memory checks of AllocateOrUpdate. */
    method CheckMemory(op: VM) returns (out: Outcome)
      ensures out == MemoryOutcome(Cfg(), State(), op)
    {
      if assignedMemory + op.memory > availableMemory {
        return NoMemory;
      }
      var fit, total := CheckNodes(op);
      if !fit {
        return NoNodeMemory;
      }
      if total > 0 && total != op.memory {
        return MemoryMismatch;
      }
      return Done;
    }

    /** Pins the VM's CPUs, or promises it a number of them. */
    method BookCPUs(op: VM) returns (ok: bool)
      modifies this`availableCPUs, this`usedCPUs, this`assignedCPUs
      ensures ok <==> if op.cpuSet != {} then |op.cpuSet| <= |allCPUs|
                      else op.cpus <= 0 || op.cpus <= |old(availableCPUs)| - old(assignedCPUs)
      ensures !ok ==> unchanged(this)
      ensures ok ==> availableCPUs == old(availableCPUs) - (op.cpuSet - reservedCPUs)
      ensures ok ==> usedCPUs == old(usedCPUs) + (op.cpuSet - reservedCPUs)
      ensures ok ==> assignedCPUs == old(assignedCPUs) + if op.cpuSet == {} && op.cpus > 0 then op.cpus else 0
    {
      if op.cpuSet != {} {
        if |op.cpuSet| > |allCPUs| {
          return false;
        }
        var pinned := op.cpuSet - reservedCPUs;
        usedCPUs := usedCPUs + pinned;
        availableCPUs := availableCPUs - pinned;
      } else if op.cpus > 0 {
        var available := |availableCPUs| - assignedCPUs;
        if op.cpus > available {
          return false;
        }
        assignedCPUs := assignedCPUs + op.cpus;
      }
      return true;
    }

    method UpdateBooks(op: VM) returns (out: Outcome)
      requires op.cpus > 0 || op.cpuSet != {} || op.memory != 0
      modifies this
      ensures out == UpdateOutcome(Cfg(), old(State()), op)
      ensures State() == Update(Cfg(), old(State()), op)
    {
      ghost var cfg, s := Cfg(), State();
      out := CheckMemory(op);
      if out != Done {
        UpdateRefused(cfg, s, op);
        return;
      }
      UpdateAccepted(cfg, s, op);
      var ok := BookAll(op);
      if !ok {
        return NoCPUs;
      }
    }

    /** Books CPUs, NUMA memory and memory of a VM whose memory fits. */
    method BookAll(op: VM) returns (ok: bool)
      modifies this
      ensures ok <==> CPUsFit(Cfg(), old(State()), op)
      ensures State() == if ok then Booked(Cfg(), old(State()), op) else old(State())
    {
      ok := BookCPUs(op);
      if ok {
        ChargeNodes(op);
        assignedMemory := assignedMemory + op.memory;
      }
    }

    /** AllocateOrUpdate: books a VM that already has its CPUs, or only a number of them. */
    method AllocateOrUpdate(op: VM) returns (out: Outcome)
      modifies this
      ensures old(Valid()) && op.cpuSet <= allCPUs ==> Valid()
      ensures out == UpdateOutcome(Cfg(), old(State()), op)
      ensures State() == Update(Cfg(), old(State()), op)
    {
      if Partition(Cfg(), State()) && op.cpuSet <= allCPUs {
        PartitionKept(Cfg(), State(), op);
      }
      if op.cpus <= 0 && op.cpuSet == {} && op.memory == 0 {
        return Done;
      }
      out := UpdateBooks(op);
    }

    /** Release: gives back what a VM was booked with. */
    method ReleaseVM(op: VM) returns (out: Outcome)
      modifies this
      ensures old(Valid()) && op.cpuSet <= allCPUs ==> Valid()
      ensures out == ReleaseOutcome(old(State()), op)
      ensures State() == Release(Cfg(), old(State()), op)
    {
      if Partition(Cfg(), State()) && op.cpuSet <= allCPUs {
        PartitionKept(Cfg(), State(), op);
      }
      if op.cpus == 0 && op.cpuSet == {} && op.memory == 0 {
        return Done;
      }
      out := ReleaseBooks(op);
    }

    method ReleaseBooks(op: VM) returns (out: Outcome)
      requires op.cpus != 0 || op.cpuSet != {} || op.memory != 0
      modifies this
      ensures out == ReleaseOutcome(old(State()), op)
      ensures State() == Release(Cfg(), old(State()), op)
    {
      if assignedMemory < op.memory {
        return NotAssigned;
      }
      if op.cpuSet != {} {
        var freed := op.cpuSet - reservedCPUs;
        usedCPUs := usedCPUs - freed;
        availableCPUs := availableCPUs + freed;
      } else if op.cpus > 0 {
        if assignedCPUs < op.cpus {
          return NotAssigned;
        }
        assignedCPUs := assignedCPUs - op.cpus;
      }
      RefundNodes(op);
      assignedMemory := assignedMemory - op.memory;
      return Done;
    }
  }

  /** NewStaticPolicy: null stands for the two error returns. */
  method NewStaticPolicy(topo: CPUTopology, memory: nat, nodeMemory: map<int, int>, reserved: seq<int>, reservedMemory: nat)
    returns (p: StaticPolicy?)
    ensures p == null <==> topo.numCPUs < |Elements(reserved)| || reservedMemory >= memory
    ensures p != null ==> fresh(p) && p.topo == topo && p.State() == Start(p.Cfg())
    ensures p != null ==> Partition(p.Cfg(), p.State()) && (WellFormed(topo) ==> p.Valid())
    ensures p != null ==> p.Cfg() == Config(topo.cpuDetails.Keys, Elements(reserved), memory - reservedMemory, nodeMemory)
  {
    if topo.numCPUs < |Elements(reserved)| {
      return null;
    }
    if reservedMemory >= memory {
      return null;
    }
    p := new StaticPolicy(topo, memory, nodeMemory, Elements(reserved), reservedMemory);
  }

  /** The guest NUMA layout of the CPUs taken. */
  method LayOut(d: CPUDetails, cpus: set<int>, nodes: seq<int>, mem: nat) returns (guest: map<int, NumaState>)
    requires NoDup(nodes)
    ensures guest == GuestNodes(d, cpus, nodes, 0, mem)
  {
    guest := map[];
    ghost var all := GuestNodes(d, cpus, nodes, 0, mem);
    ghost var rest := all;
    var idx: nat := 0;
    for k := 0 to |nodes|
      invariant rest == GuestNodes(d, cpus, nodes[k..], idx, mem) && guest + rest == all
    {
      GuestStep(d, cpus, nodes, k, idx, mem);
      var here := cpus * Members(d, Numa, nodes[k]);
      if |here| > 0 {
        var state := NumaState(Range(idx, idx + |here|), mem, "bind");
        idx := idx + |here|;
        Overlay(guest, GuestNodes(d, cpus, nodes[k + 1..], idx, mem), nodes[k], state);
        guest := guest[nodes[k] := state];
      }
      rest := GuestNodes(d, cpus, nodes[k + 1..], idx, mem);
    }
  }

  // ---- steps of the loops over NUMA nodes

  ghost predicate Submap(part: map<int, NumaState>, whole: map<int, NumaState>) {
    forall i :: i in part ==> i in whole && part[i] == whole[i]
  }

  ghost predicate FitBut(numa: map<int, int>, vm: VM, todo: set<int>) {
    forall i :: i in vm.numaNodes.Keys && i !in todo ==> Counter(numa, i) >= NodeBytes(vm, i)
  }

  lemma FitOneMore(numa: map<int, int>, vm: VM, todo: map<int, NumaState>, i: int)
    requires Submap(todo, vm.numaNodes) && FitBut(numa, vm, todo.Keys) && i in todo
    requires Counter(numa, i) >= todo[i].memory * MIB
    ensures Submap(todo - {i}, vm.numaNodes) && FitBut(numa, vm, (todo - {i}).Keys)
  {
  }

  ghost function ChargeBut(numa: map<int, int>, vm: VM, todo: set<int>): map<int, int> {
    map i | i in numa.Keys + (vm.numaNodes.Keys - todo) ::
      Counter(numa, i) - (if i in todo then 0 else NodeBytes(vm, i))
  }

  lemma ChargeOneMore(numa: map<int, int>, vm: VM, todo: set<int>, i: int)
    requires i in todo && todo <= vm.numaNodes.Keys
    ensures ChargeBut(numa, vm, todo - {i})
         == ChargeBut(numa, vm, todo)[i := Counter(ChargeBut(numa, vm, todo), i) - vm.numaNodes[i].memory * MIB]
  {
  }

  lemma ChargeEnds(numa: map<int, int>, vm: VM)
    ensures ChargeBut(numa, vm, vm.numaNodes.Keys) == numa && ChargeBut(numa, vm, {}) == Charge(numa, vm)
  {
  }

  ghost function RefundBut(numa: map<int, int>, vm: VM, todo: set<int>): map<int, int> {
    map i | i in numa :: numa[i] + (if i in todo then 0 else NodeBytes(vm, i))
  }

  lemma RefundOneMore(numa: map<int, int>, vm: VM, todo: set<int>, i: int)
    requires i in todo && todo <= vm.numaNodes.Keys
    ensures RefundBut(numa, vm, todo - {i})
         == if i in numa then RefundBut(numa, vm, todo)[i := RefundBut(numa, vm, todo)[i] + vm.numaNodes[i].memory * MIB]
            else RefundBut(numa, vm, todo)
  {
  }

  ghost function RoomyBut(d: CPUDetails, numa: map<int, int>, memory: nat, todo: set<int>): set<int> {
    set c | c in d && UnitOf(d, Numa, c) in numa && UnitOf(d, Numa, c) !in todo && numa[UnitOf(d, Numa, c)] >= memory
  }

  lemma Overlay<K, V>(guest: map<K, V>, rest: map<K, V>, k: K, v: V)
    requires k !in rest
    ensures guest + rest[k := v] == guest[k := v] + rest
  {
  }

  lemma GuestStep(d: CPUDetails, cpus: set<int>, nodes: seq<int>, k: nat, idx: nat, mem: nat)
    requires k < |nodes| && NoDup(nodes)
    ensures var here := cpus * Members(d, Numa, nodes[k]);
      var rest := GuestNodes(d, cpus, nodes[k + 1..], idx + |here|, mem);
      && nodes[k] !in rest
      && GuestNodes(d, cpus, nodes[k..], idx, mem)
         == if |here| > 0 then rest[nodes[k] := NumaState(Range(idx, idx + |here|), mem, "bind")] else rest
  {
    var n := |cpus * Members(d, Numa, nodes[k])|;
    assert nodes[k..][0] == nodes[k] && nodes[k..][1..] == nodes[k + 1..];
    GuestHead(d, cpus, nodes[k..], idx, mem, GuestNodes(d, cpus, nodes[k + 1..], idx + n, mem), n);
    GuestKeys(d, cpus, nodes[k + 1..], idx + n, mem);
    assert nodes[k] !in nodes[k + 1..];
  }

  lemma GuestHead(d: CPUDetails, cpus: set<int>, nodes: seq<int>, idx: nat, mem: nat, rest: map<int, NumaState>, n: nat)
    requires nodes != [] && n == |cpus * Members(d, Numa, nodes[0])|
    requires rest == GuestNodes(d, cpus, nodes[1..], idx + n, mem)
    ensures GuestNodes(d, cpus, nodes, idx, mem)
         == if n > 0 then rest[nodes[0] := NumaState(Range(idx, idx + n), mem, "bind")] else rest
  {
  }

  lemma {:induction false} GuestKeys(d: CPUDetails, cpus: set<int>, nodes: seq<int>, idx: nat, mem: nat)
    ensures forall u :: u in GuestNodes(d, cpus, nodes, idx, mem) ==> u in nodes && cpus * Members(d, Numa, u) != {}
    decreases |nodes|
  {
    if nodes != [] {
      var n := |cpus * Members(d, Numa, nodes[0])|;
      var rest := GuestNodes(d, cpus, nodes[1..], idx + n, mem);
      GuestKeys(d, cpus, nodes[1..], idx + n, mem);
      GuestHead(d, cpus, nodes, idx, mem, rest, n);
      assert n > 0 ==> cpus * Members(d, Numa, nodes[0]) != {};
    }
  }
}
