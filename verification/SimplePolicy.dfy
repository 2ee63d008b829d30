/** The simple policy: VMs are promised a number of CPUs; only VMs that come with an affinity
    are kept on particular ones. NUMA nodes are not booked. */
module SimplePolicies {
  import opened Sorting
  import opened PolicyModel

  /** The request without its NUMA nodes, which this policy does not look at. */
  function WithoutNodes(op: VM): VM {
    op.(numaNodes := map[])
  }

  function SimpleOutcome(cfg: Config, s: Books, op: VM): Outcome {
    if op.cpus <= 0 && op.memory == 0 then Done
    else if s.assignedMemory + op.memory > cfg.memory then NoMemory
    else if s.assignedCPUs + op.cpus > |s.available| then NoCPUs
    else Done
  }

  function SimpleAllocate(cfg: Config, s: Books, op: VM): Books {
    if SimpleOutcome(cfg, s, op) != Done || (op.cpus <= 0 && op.memory == 0) then s
    else s.(assignedCPUs := s.assignedCPUs + op.cpus, assignedMemory := s.assignedMemory + op.memory)
  }

  /** A request that asks for something needs its memory and its CPUs beside those promised;
      it is then promised both, and nothing else changes. */
  lemma SimplePromises(cfg: Config, s: Books, op: VM)
    ensures var (out, after) := (SimpleOutcome(cfg, s, op), SimpleAllocate(cfg, s, op));
      var asks := op.cpus > 0 || op.memory > 0;
      && out == (if asks && s.assignedMemory + op.memory > cfg.memory then NoMemory
                 else if asks && |s.available| < s.assignedCPUs + op.cpus then NoCPUs else Done)
      && after.available == s.available && after.used == s.used && after.numa == s.numa
      && after.assignedCPUs == s.assignedCPUs + (if asks && out == Done then op.cpus else 0)
      && after.assignedMemory == s.assignedMemory + (if asks && out == Done then op.memory else 0)
  {
  }

  /** Without an affinity, allocating a VM and being told of it afterwards are the same. */
  lemma AllocateIsUpdate(cfg: Config, s: Books, op: VM)
    requires s.numa == map[] && op.cpus > 0 && op.cpuSet == {}
    ensures SimpleOutcome(cfg, s, op) == UpdateOutcome(cfg, s, WithoutNodes(op))
    ensures SimpleAllocate(cfg, s, op) == Update(cfg, s, WithoutNodes(op))
  {
    NoNodes(s.numa, WithoutNodes(op));
  }

  lemma NoNodes(numa: map<int, int>, op: VM)
    requires op.numaNodes == map[]
    ensures TotalBytes(op.numaNodes) == 0 && NodesFit(numa, op)
    ensures Charge(numa, op) == numa && Refund(numa, op) == numa
  {
    assert op.numaNodes.Keys == {};
  }

  /** Releasing what Allocate booked restores the books exactly for requests without an
      affinity: one that carries a CPU set leaves the number of promised CPUs too high. */
  lemma AllocateUndone(cfg: Config, s: Books, op: VM)
    requires Partition(cfg, s) && s.numa == map[] && op.cpuSet <= cfg.all && op.cpus > 0 && s.assignedCPUs >= 0
    requires SimpleOutcome(cfg, s, op) == Done
    ensures var more := SimpleAllocate(cfg, s, op);
      && ReleaseOutcome(more, WithoutNodes(op)) == Done
      && (Release(cfg, more, WithoutNodes(op)) == s <==> op.cpuSet == {})
  {
    NoNodes(s.numa, WithoutNodes(op));
    AllocatedBack(cfg, s, op, SimpleAllocate(cfg, s, op));
  }

  /** A VM of one CPU that comes with the affinity 0: allocated and released, it leaves one CPU
      promised for ever. */
  lemma AffinityLeaks()
    ensures var cfg, op := Config({0, 1}, {}, 100, map[]), VM(1, 1, {0}, 1, map[]);
      && SimpleOutcome(cfg, Start(cfg), op) == Done
      && ReleaseOutcome(SimpleAllocate(cfg, Start(cfg), op), WithoutNodes(op)) == Done
      && Release(cfg, SimpleAllocate(cfg, Start(cfg), op), WithoutNodes(op)).assignedCPUs == 1
  {
    var cfg, op := Config({0, 1}, {}, 100, map[]), VM(1, 1, {0}, 1, map[]);
    assert |{0, 1} - {}| == 2 by {
      assert {0, 1} - {} == {0, 1};
    }
    AllocatedBack(cfg, Start(cfg), op, SimpleAllocate(cfg, Start(cfg), op));
  }

  lemma AllocatedBack(cfg: Config, s: Books, op: VM, more: Books)
    requires s.numa == map[] && op.cpus > 0 && s.assignedCPUs >= 0
    requires more == s.(assignedCPUs := s.assignedCPUs + op.cpus, assignedMemory := s.assignedMemory + op.memory)
    ensures ReleaseOutcome(more, WithoutNodes(op)) == Done
    ensures op.cpuSet != {} ==> Release(cfg, more, WithoutNodes(op)).assignedCPUs == s.assignedCPUs + op.cpus
    ensures op.cpuSet == {} ==> Release(cfg, more, WithoutNodes(op)) == s
  {
    NoNodes(more.numa, WithoutNodes(op));
    assert s.used - {} == s.used && s.available + {} == s.available;
    assert op.cpuSet == {} ==> op.cpuSet - cfg.reserved == {};
  }

  class SimplePolicy {
    const allCPUs: set<int>
    const reservedCPUs: set<int>
    const availableMemory: nat
    var availableCPUs: set<int>
    var usedCPUs: set<int>
    var assignedCPUs: int
    var assignedMemory: nat

    ghost function Cfg(): Config {
      Config(allCPUs, reservedCPUs, availableMemory, map[])
    }

    ghost function State(): Books
      reads this
    {
      Books(availableCPUs, usedCPUs, assignedCPUs, assignedMemory, map[])
    }

    ghost predicate Valid()
      reads this
    {
      Partition(Cfg(), State())
    }

    constructor (all: set<int>, memory: nat, reserved: set<int>, reservedMemory: nat)
      requires reservedMemory < memory
      ensures Valid() && Cfg() == Config(all, reserved, memory - reservedMemory, map[]) && State() == Start(Cfg())
    {
      allCPUs := all;
      reservedCPUs := reserved;
      availableMemory := memory - reservedMemory;
      availableCPUs := all - reserved;
      usedCPUs := {};
      assignedCPUs := 0;
      assignedMemory := 0;
    }

    method AvailableCPUs() returns (n: int)
      ensures n == Headroom(Cfg(), State())
    {
      n := |allCPUs| - |reservedCPUs| - |usedCPUs| - assignedCPUs;
      if n < 0 {
        n := 0;
      }
    }

    method AvailableMemory() returns (n: nat)
      ensures n == MemoryHeadroom(Cfg(), State())
    {
      if assignedMemory >= availableMemory {
        return 0;
      }
      n := availableMemory - assignedMemory;
    }

    method Allocate(op: VM) returns (out: Outcome)
      modifies this`assignedCPUs, this`assignedMemory
      ensures old(Valid()) ==> Valid()
      ensures out == SimpleOutcome(Cfg(), old(State()), op)
      ensures State() == SimpleAllocate(Cfg(), old(State()), op)
    {
      if op.cpus <= 0 && op.memory == 0 {
        return Done;
      }
      if assignedMemory + op.memory > availableMemory {
        return NoMemory;
      }
      if assignedCPUs + op.cpus > |availableCPUs| {
        return NoCPUs;
      }
      assignedCPUs := assignedCPUs + op.cpus;
      assignedMemory := assignedMemory + op.memory;
      return Done;
    }

    method AllocateOrUpdate(op: VM) returns (out: Outcome)
      modifies this
      ensures old(Valid()) && op.cpuSet <= allCPUs ==> Valid()
      ensures out == UpdateOutcome(Cfg(), old(State()), WithoutNodes(op))
      ensures State() == Update(Cfg(), old(State()), WithoutNodes(op))
    {
      if Valid() && op.cpuSet <= allCPUs {
        PartitionKept(Cfg(), State(), WithoutNodes(op));
      }
      if op.cpus <= 0 && op.cpuSet == {} && op.memory == 0 {
        return Done;
      }
      out := UpdateBooks(op);
    }

    method UpdateBooks(op: VM) returns (out: Outcome)
      requires op.cpus > 0 || op.cpuSet != {} || op.memory != 0
      modifies this
      ensures out == UpdateOutcome(Cfg(), old(State()), WithoutNodes(op))
      ensures State() == Update(Cfg(), old(State()), WithoutNodes(op))
    {
      ghost var cfg, s := Cfg(), State();
      NoNodes(map[], WithoutNodes(op));
      if assignedMemory + op.memory > availableMemory {
        UpdateRefused(cfg, s, WithoutNodes(op));
        return NoMemory;
      }
      UpdateAccepted(cfg, s, WithoutNodes(op));
      var ok := BookCPUs(op);
      if !ok {
        return NoCPUs;
      }
      assignedMemory := assignedMemory + op.memory;
      return Done;
    }

    /** Pins the VM's CPUs, or promises it a number of them. */
    method BookCPUs(op: VM) returns (ok: bool)
      modifies this`availableCPUs, this`usedCPUs, this`assignedCPUs
      ensures ok <==> if op.cpuSet != {} then |op.cpuSet| <= |allCPUs|
                      else op.cpus <= 0 || op.cpus <= |old(availableCPUs)| - old(assignedCPUs)
      ensures !ok ==> unchanged(this)
      ensures ok ==> availableCPUs == old(availableCPUs) - (op.cpuSet - reservedCPUs)
      ensures ok ==> usedCPUs == old(usedCPUs) + (op.cpuSet - reservedCPUs)
      ensures ok ==> assignedCPUs == old(assignedCPUs) + if op.cpuSet == {} && op.cpus > 0 then op.cpus else 0
    {
      if op.cpuSet != {} {
        if |op.cpuSet| > |allCPUs| {
          return false;
        }
        var pinned := op.cpuSet - reservedCPUs;
        usedCPUs := usedCPUs + pinned;
        availableCPUs := availableCPUs - pinned;
      } else if op.cpus > 0 {
        var available := |availableCPUs| - assignedCPUs;
        if op.cpus > available {
          return false;
        }
        assignedCPUs := assignedCPUs + op.cpus;
      }
      return true;
    }

    method ReleaseVM(op: VM) returns (out: Outcome)
      modifies this
      ensures old(Valid()) && op.cpuSet <= allCPUs ==> Valid()
      ensures out == ReleaseOutcome(old(State()), WithoutNodes(op))
      ensures State() == Release(Cfg(), old(State()), WithoutNodes(op))
    {
      if Valid() && op.cpuSet <= allCPUs {
        PartitionKept(Cfg(), State(), WithoutNodes(op));
      }
      if op.cpus == 0 && op.cpuSet == {} && op.memory == 0 {
        return Done;
      }
      out := ReleaseBooks(op);
    }

    method ReleaseBooks(op: VM) returns (out: Outcome)
      requires op.cpus != 0 || op.cpuSet != {} || op.memory != 0
      modifies this
      ensures out == ReleaseOutcome(old(State()), WithoutNodes(op))
      ensures State() == Release(Cfg(), old(State()), WithoutNodes(op))
    {
      NoNodes(map[], WithoutNodes(op));
      if assignedMemory < op.memory {
        return NotAssigned;
      }
      if op.cpuSet != {} {
        var freed := op.cpuSet - reservedCPUs;
        usedCPUs := usedCPUs - freed;
        availableCPUs := availableCPUs + freed;
      } else if op.cpus > 0 {
        if assignedCPUs < op.cpus {
          return NotAssigned;
        }
        assignedCPUs := assignedCPUs - op.cpus;
      }
      assignedMemory := assignedMemory - op.memory;
      return Done;
    }
  }

  /** NewSimplePolicy: null stands for the two error returns. */
  method NewSimplePolicy(numCPUs: nat, all: set<int>, memory: nat, reserved: seq<int>, reservedMemory: nat)
    returns (p: SimplePolicy?)
    ensures p == null <==> numCPUs < |Elements(reserved)| || reservedMemory >= memory
    ensures p != null ==> fresh(p) && p.Valid() && p.State() == Start(p.Cfg())
    ensures p != null ==> p.Cfg() == Config(all, Elements(reserved), memory - reservedMemory, map[])
  {
    if numCPUs < |Elements(reserved)| {
      return null;
    }
    if reservedMemory >= memory {
      return null;
    }
    p := new SimplePolicy(all, memory, Elements(reserved), reservedMemory);
  }
}
