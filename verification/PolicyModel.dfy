/** The books both allocation policies keep, as functions on values. */
module PolicyModel {
  import opened Sorting

  const MIB := 1024 * 1024

  /** Guest CPUs, memory in MiB and placement policy of a VM on one host NUMA node. */
  datatype NumaState = NumaState(cpus: set<int>, memory: nat, policy: string)

  datatype VM = VM(id: int, cpus: int, cpuSet: set<int>, memory: nat, numaNodes: map<int, NumaState>)

  datatype Outcome = Done | NoMemory | NoCPUs | NoNodeMemory | MemoryMismatch | NotAssigned

  /** What a policy is created with. */
  datatype Config = Config(all: set<int>, reserved: set<int>, memory: nat, numa: map<int, int>)

  /** What its operations change. */
  datatype Books = Books(available: set<int>, used: set<int>, assignedCPUs: int, assignedMemory: nat,
                         numa: map<int, int>)

  function Start(cfg: Config): Books {
    Books(cfg.all - cfg.reserved, {}, 0, 0, cfg.numa)
  }

  /** A Go map read: a missing key reads as zero. */
  function Counter(numa: map<int, int>, i: int): int {
    if i in numa then numa[i] else 0
  }

  function NodeBytes(vm: VM, i: int): nat {
    if i in vm.numaNodes then vm.numaNodes[i].memory * MIB else 0
  }

  function Charge(numa: map<int, int>, vm: VM): map<int, int> {
    map i | i in numa.Keys + vm.numaNodes.Keys :: Counter(numa, i) - NodeBytes(vm, i)
  }

  function Refund(numa: map<int, int>, vm: VM): map<int, int> {
    map i | i in numa :: numa[i] + NodeBytes(vm, i)
  }

  /** The bytes a request asks of all NUMA nodes together. */
  function TotalBytes(nodes: map<int, NumaState>): nat
    decreases |nodes.Keys|
  {
    if nodes.Keys == {} then 0
    else
      var i := First(map k | k in nodes :: 0, nodes.Keys);
      nodes[i].memory * MIB + TotalBytes(nodes - {i})
  }

  /** The order in which the nodes are visited does not matter. */
  lemma {:induction false} TotalBytesAny(nodes: map<int, NumaState>, i: int)
    requires i in nodes
    ensures TotalBytes(nodes) == nodes[i].memory * MIB + TotalBytes(nodes - {i})
    decreases |nodes.Keys|
  {
    var j := First(map k | k in nodes :: 0, nodes.Keys);
    if i != j {
      TotalBytesAny(nodes - {j}, i);
      TotalBytesAny(nodes - {i}, j);
      assert nodes - {i} - {j} == nodes - {j} - {i};
    }
  }

  // ---- AllocateOrUpdate and Release

  predicate NodesFit(numa: map<int, int>, vm: VM) {
    forall i :: i in vm.numaNodes.Keys ==> Counter(numa, i) >= NodeBytes(vm, i)
  }

  function UpdateOutcome(cfg: Config, s: Books, op: VM): Outcome {
    if op.cpus <= 0 && op.cpuSet == {} && op.memory == 0 then Done
    else if s.assignedMemory + op.memory > cfg.memory then NoMemory
    else if !NodesFit(s.numa, op) then NoNodeMemory
    else if TotalBytes(op.numaNodes) > 0 && TotalBytes(op.numaNodes) != op.memory then MemoryMismatch
    else if op.cpuSet != {} then if |op.cpuSet| > |cfg.all| then NoCPUs else Done
    else if op.cpus > 0 && op.cpus > |s.available| - s.assignedCPUs then NoCPUs
    else Done
  }

  function Update(cfg: Config, s: Books, op: VM): Books {
    if UpdateOutcome(cfg, s, op) != Done || (op.cpus <= 0 && op.cpuSet == {} && op.memory == 0) then s
    else
      var pinned := op.cpuSet - cfg.reserved;
      Books(s.available - pinned, s.used + pinned,
            if op.cpuSet == {} && op.cpus > 0 then s.assignedCPUs + op.cpus else s.assignedCPUs,
            s.assignedMemory + op.memory, Charge(s.numa, op))
  }

  function MemoryOutcome(cfg: Config, s: Books, op: VM): Outcome {
    if s.assignedMemory + op.memory > cfg.memory then NoMemory
    else if !NodesFit(s.numa, op) then NoNodeMemory
    else if TotalBytes(op.numaNodes) > 0 && TotalBytes(op.numaNodes) != op.memory then MemoryMismatch
    else Done
  }

  predicate CPUsFit(cfg: Config, s: Books, op: VM) {
    if op.cpuSet != {} then |op.cpuSet| <= |cfg.all| else op.cpus <= 0 || op.cpus <= |s.available| - s.assignedCPUs
  }

  lemma UpdateRefused(cfg: Config, s: Books, op: VM)
    requires op.cpus > 0 || op.cpuSet != {} || op.memory != 0
    requires MemoryOutcome(cfg, s, op) != Done
    ensures UpdateOutcome(cfg, s, op) == MemoryOutcome(cfg, s, op) && Update(cfg, s, op) == s
  {
  }

  lemma UpdateAccepted(cfg: Config, s: Books, op: VM)
    requires op.cpus > 0 || op.cpuSet != {} || op.memory != 0
    requires MemoryOutcome(cfg, s, op) == Done
    ensures UpdateOutcome(cfg, s, op) == if CPUsFit(cfg, s, op) then Done else NoCPUs
    ensures Update(cfg, s, op)
         == if !CPUsFit(cfg, s, op) then s
            else Booked(cfg, s, op)
  {
  }

  function ReleaseOutcome(s: Books, op: VM): Outcome {
    if op.cpus == 0 && op.cpuSet == {} && op.memory == 0 then Done
    else if s.assignedMemory < op.memory then NotAssigned
    else if op.cpuSet == {} && op.cpus > 0 && s.assignedCPUs < op.cpus then NotAssigned
    else Done
  }

  function Release(cfg: Config, s: Books, op: VM): Books {
    if ReleaseOutcome(s, op) != Done || (op.cpus == 0 && op.cpuSet == {} && op.memory == 0) then s
    else
      var freed := op.cpuSet - cfg.reserved;
      Books(s.available + freed, s.used - freed,
            if op.cpuSet == {} && op.cpus > 0 then s.assignedCPUs - op.cpus else s.assignedCPUs,
            s.assignedMemory - op.memory, Refund(s.numa, op))
  }

  // ---- the same in the terms of the request and the books

  ghost predicate NodesHave(numa: map<int, int>, op: VM) {
    forall i :: i in op.numaNodes.Keys ==>
      op.numaNodes[i].memory * 1048576 <= if i in numa.Keys then numa[i] else 0
  }

  ghost predicate Deducted(before: map<int, int>, nodes: map<int, NumaState>, after: map<int, int>) {
    && after.Keys == before.Keys + nodes.Keys
    && forall i :: i in after.Keys ==>
         after[i] == (if i in before.Keys then before[i] else 0) - if i in nodes.Keys then nodes[i].memory * 1048576 else 0
  }

  ghost predicate Returned(before: map<int, int>, nodes: map<int, NumaState>, after: map<int, int>) {
    && after.Keys == before.Keys
    && forall i :: i in after.Keys ==> after[i] == before[i] + if i in nodes.Keys then nodes[i].memory * 1048576 else 0
  }

  ghost predicate AsksNothing(op: VM) {
    op.cpus <= 0 && |op.cpuSet| == 0 && op.memory == 0
  }

  ghost predicate MemoryThere(cfg: Config, s: Books, op: VM) {
    s.assignedMemory + op.memory <= cfg.memory
  }

  /** The nodes, if they ask for memory at all, ask for the whole of it. */
  ghost predicate NodesAgree(op: VM) {
    TotalBytes(op.numaNodes) in {0, op.memory}
  }

  ghost predicate CPUsThere(cfg: Config, s: Books, op: VM) {
    if |op.cpuSet| > 0 then |op.cpuSet| <= |cfg.all| else op.cpus <= 0 || s.assignedCPUs + op.cpus <= |s.available|
  }

  /** AllocateOrUpdate checks the memory, then the nodes, their sum and the CPUs. */
  lemma UpdateTurnsAway(cfg: Config, s: Books, op: VM)
    ensures UpdateOutcome(cfg, s, op)
         == if AsksNothing(op) then Done else if !MemoryThere(cfg, s, op) then NoMemory
            else if !NodesHave(s.numa, op) then NoNodeMemory else if !NodesAgree(op) then MemoryMismatch
            else if !CPUsThere(cfg, s, op) then NoCPUs else Done
  {
    assert op.cpuSet == {} <==> |op.cpuSet| == 0;
  }

  /** A VM that is booked takes its CPUs that are not reserved, or is promised a number of them,
      and takes its memory; nothing else changes. */
  lemma UpdateTakes(cfg: Config, s: Books, op: VM)
    ensures var after := Update(cfg, s, op);
      if UpdateOutcome(cfg, s, op) != Done || AsksNothing(op) then after == s
      else
        && (forall c :: c in after.available <==> c in s.available && (c in op.cpuSet ==> c in cfg.reserved))
        && (forall c :: c in after.used <==> c in s.used || (c in op.cpuSet && c !in cfg.reserved))
        && after.assignedCPUs == s.assignedCPUs + (if |op.cpuSet| == 0 && op.cpus > 0 then op.cpus else 0)
        && after.assignedMemory == s.assignedMemory + op.memory
        && Deducted(s.numa, op.numaNodes, after.numa)
  {
    assert op.cpuSet == {} <==> |op.cpuSet| == 0;
  }

  /** Release gives all of that back, to nodes that are known, or refuses when less is booked. */
  lemma ReleaseGives(cfg: Config, s: Books, op: VM)
    ensures var (out, after) := (ReleaseOutcome(s, op), Release(cfg, s, op));
      var nothing := op.cpus == 0 && |op.cpuSet| == 0 && op.memory == 0;
      var booked := op.memory <= s.assignedMemory && (|op.cpuSet| == 0 ==> op.cpus <= 0 || op.cpus <= s.assignedCPUs);
      && out == (if nothing || booked then Done else NotAssigned)
      && if nothing || !booked then after == s
         else
           && (forall c :: c in after.available <==> c in s.available || (c in op.cpuSet && c !in cfg.reserved))
           && (forall c :: c in after.used <==> c in s.used && (c in op.cpuSet ==> c in cfg.reserved))
           && after.assignedCPUs == s.assignedCPUs - (if |op.cpuSet| == 0 && op.cpus > 0 then op.cpus else 0)
           && after.assignedMemory == s.assignedMemory - op.memory
           && Returned(s.numa, op.numaNodes, after.numa)
  {
    assert op.cpuSet == {} <==> |op.cpuSet| == 0;
  }

  /** Allocation of host CPUs to a VM, as the static policy books it. */
  function Place(s: Books, vm: VM): Books {
    Books(s.available - vm.cpuSet, s.used + vm.cpuSet, s.assignedCPUs, s.assignedMemory + vm.memory,
          Charge(s.numa, vm))
  }

  // ---- the partition, in every state

  /** Free and used CPUs partition the machine less its reserved CPUs. */
  ghost predicate Partition(cfg: Config, s: Books) {
    && s.available !! s.used
    && s.available + s.used == cfg.all - cfg.reserved
    && s.assignedMemory <= cfg.memory
  }

  lemma StartPartitions(cfg: Config)
    ensures Partition(cfg, Start(cfg))
  {
  }

  /** Whatever is updated or released, in whatever order, the partition stays. */
  lemma PartitionKept(cfg: Config, s: Books, op: VM)
    requires Partition(cfg, s) && op.cpuSet <= cfg.all
    ensures Partition(cfg, Update(cfg, s, op)) && Partition(cfg, Release(cfg, s, op))
  {
    var pinned := op.cpuSet - cfg.reserved;
    assert pinned <= s.available + s.used;
    assert (s.available - pinned) + (s.used + pinned) == s.available + s.used;
    assert (s.available + pinned) + (s.used - pinned) == s.available + s.used;
  }

  lemma PlacePartitions(cfg: Config, s: Books, vm: VM)
    requires Partition(cfg, s) && vm.cpuSet <= s.available && s.assignedMemory + vm.memory <= cfg.memory
    ensures Partition(cfg, Place(s, vm))
  {
    assert (s.available - vm.cpuSet) + (s.used + vm.cpuSet) == s.available + s.used;
  }

  /** Releasing what AllocateOrUpdate booked restores the books exactly when none of the VM's
      CPUs was in use already and every NUMA node it names has a counter. */
  lemma UpdateUndone(cfg: Config, s: Books, op: VM)
    requires Partition(cfg, s) && op.cpuSet <= cfg.all && op.cpus > 0 && s.assignedCPUs >= 0
    requires UpdateOutcome(cfg, s, op) == Done
    ensures ReleaseOutcome(Update(cfg, s, op), op) == Done
    ensures Release(cfg, Update(cfg, s, op), op) == s
        <==> (op.cpuSet - cfg.reserved) !! s.used && op.numaNodes.Keys <= s.numa.Keys
  {
    PinUndone(cfg, s, op.cpuSet - cfg.reserved);
    RefundUndoes(s.numa, op);
    UpdateDone(cfg, s, op);
    ReleaseBooked(cfg, s, op, Update(cfg, s, op));
  }

  lemma UpdateDone(cfg: Config, s: Books, op: VM)
    requires UpdateOutcome(cfg, s, op) == Done && op.cpus > 0
    ensures Update(cfg, s, op) == Booked(cfg, s, op)
  {
  }

  /** The books once the VM is booked, whatever was checked. */
  function Booked(cfg: Config, s: Books, op: VM): Books {
    Books(s.available - (op.cpuSet - cfg.reserved), s.used + (op.cpuSet - cfg.reserved),
          s.assignedCPUs + (if op.cpuSet == {} && op.cpus > 0 then op.cpus else 0),
          s.assignedMemory + op.memory, Charge(s.numa, op))
  }

  lemma ReleaseBooked(cfg: Config, s: Books, op: VM, more: Books)
    requires op.cpus > 0 && s.assignedCPUs >= 0 && more == Booked(cfg, s, op)
    ensures ReleaseOutcome(more, op) == Done
    ensures var pinned := op.cpuSet - cfg.reserved;
      Release(cfg, more, op)
      == Books((s.available - pinned) + pinned, (s.used + pinned) - pinned, s.assignedCPUs, s.assignedMemory,
               Refund(Charge(s.numa, op), op))
  {
  }

  lemma PinUndone(cfg: Config, s: Books, pinned: set<int>)
    requires Partition(cfg, s) && pinned <= cfg.all - cfg.reserved
    ensures (s.available - pinned) + pinned == s.available && (s.used + pinned) - pinned == s.used
        <==> pinned !! s.used
  {
    if pinned * s.used == {} {
      forall c | c in pinned ensures c in s.available && c !in s.used {
        assert c in s.available + s.used;
        assert c in s.used ==> c in pinned * s.used;
      }
    } else {
      var c := Pick(pinned * s.used);
      assert c !in (s.used + pinned) - pinned;
    }
  }

  lemma RefundUndoes(numa: map<int, int>, op: VM)
    ensures Refund(Charge(numa, op), op) == numa <==> op.numaNodes.Keys <= numa.Keys
  {
    var back := Refund(Charge(numa, op), op);
    assert back.Keys == numa.Keys + op.numaNodes.Keys;
    assert forall i :: i in numa ==> back[i] == numa[i];
    if back == numa {
      assert op.numaNodes.Keys <= back.Keys;
    }
  }

  // ---- headroom

  function Headroom(cfg: Config, s: Books): int {
    var n := |cfg.all| - |cfg.reserved| - |s.used| - s.assignedCPUs;
    if n < 0 then 0 else n
  }

  function MemoryHeadroom(cfg: Config, s: Books): nat {
    if s.assignedMemory >= cfg.memory then 0 else cfg.memory - s.assignedMemory
  }

  /** The free CPUs not promised to anyone. */
  function Unpromised(s: Books): int {
    if |s.available| < s.assignedCPUs then 0 else |s.available| - s.assignedCPUs
  }

  /** The reported headroom is the number of free CPUs not promised to anyone if and only if
      the reserved CPUs exist or there are none; otherwise it is short by those reserved CPUs
      that do not exist, as far as zero. */
  lemma HeadroomIsHonest(cfg: Config, s: Books)
    requires Partition(cfg, s)
    ensures var phantom := |cfg.reserved - cfg.all|;
      Headroom(cfg, s) == if Unpromised(s) < phantom then 0 else Unpromised(s) - phantom
    ensures Headroom(cfg, s) == Unpromised(s) <==> cfg.reserved <= cfg.all || Unpromised(s) == 0
  {
    FreeDifference(cfg, s);
    if cfg.reserved <= cfg.all {
      assert cfg.reserved - cfg.all == {};
    }
  }

  /** A host of two CPUs, told to reserve CPU 0 and CPU 7: CPU 1 is free, and none is reported. */
  lemma HeadroomMisreports()
    ensures var cfg := Config({0, 1}, {0, 7}, 100, map[]);
      && Partition(cfg, Start(cfg)) && Start(cfg).available == {1}
      && Unpromised(Start(cfg)) == 1 && Headroom(cfg, Start(cfg)) == 0
  {
    var cfg := Config({0, 1}, {0, 7}, 100, map[]);
    StartPartitions(cfg);
    assert {0, 1} - {0, 7} == {1} && {0, 7} - {0, 1} == {7};
    assert |{0, 7}| == 2 && |{0, 1}| == 2;
  }

  lemma FreeDifference(cfg: Config, s: Books)
    requires Partition(cfg, s)
    ensures |cfg.all| - |cfg.reserved| - |s.used| == |s.available| - |cfg.reserved - cfg.all|
    ensures cfg.reserved <= cfg.all <==> |cfg.all| - |cfg.reserved| - |s.used| == |s.available|
  {
    var inside := cfg.reserved * cfg.all;
    assert cfg.reserved == inside + (cfg.reserved - cfg.all);
    assert cfg.all - cfg.reserved == cfg.all - inside;
    SubsetSize(inside, cfg.all);
    assert |cfg.all - cfg.reserved| == |s.available| + |s.used|;
    if |cfg.reserved - cfg.all| == 0 {
      assert cfg.reserved - cfg.all == {};
    }
    assert cfg.reserved <= cfg.all ==> cfg.reserved - cfg.all == {};
    assert |cfg.reserved - cfg.all| == 0 ==> cfg.reserved <= cfg.all by {
      assert forall c :: c in cfg.reserved && c !in cfg.all ==> c in cfg.reserved - cfg.all;
    }
  }
}
