/** A machine and a request for which the static policy spreads a VM over two NUMA nodes, so
    that the controller does not recognise the VM after a restart. */
module TwoNodeVm {
  import opened Sorting
  import opened Topology
  import opened PackedModel
  import opened PolicyModel
  import opened StaticPolicies
  import opened ResourceManagers
  import opened Placement
  import opened VmConfig
  import opened VmRoundTrip
  import opened Restart

  const GIB := 1024 * MIB

  /** Four single-threaded cores of one socket, two to a NUMA node and to a cache. */
  function Details(): CPUDetails {
    map c | 0 <= c < 4 :: CPUInfo(c / 2, 0, c, c / 2)
  }

  function Machine(): CPUTopology {
    CPUTopology(4, 4, 2, 1, 2, Details())
  }

  function Host(): Config {
    Config({0, 1, 2, 3}, {}, 8 * GIB, map[0 := 4 * GIB, 1 := 4 * GIB])
  }

  /** Three CPUs and one GiB. */
  function Wanted(): VM {
    VM(101, 3, {}, GIB, map[])
  }

  lemma MachineUnits()
    ensures Details().Keys == {0, 1, 2, 3}
    ensures Units(Details(), Core) == {0, 1, 2, 3} && Units(Details(), Socket) == {0}
    ensures Units(Details(), Numa) == {0, 1} && Units(Details(), Uncore) == {0, 1}
  {
    var d := Details();
    assert UnitOf(d, Core, 0) == 0 && UnitOf(d, Core, 1) == 1 && UnitOf(d, Core, 2) == 2 && UnitOf(d, Core, 3) == 3;
    assert UnitOf(d, Socket, 0) == 0;
    assert UnitOf(d, Numa, 0) == 0 && UnitOf(d, Numa, 2) == 1;
    assert UnitOf(d, Uncore, 0) == 0 && UnitOf(d, Uncore, 2) == 1;
  }

  lemma MachineCounts()
    ensures var d := Details();
      |d| == 4 && |Units(d, Core)| == 4 && |Units(d, Socket)| == 1 && |Units(d, Numa)| == 2 && |Units(d, Uncore)| == 2
  {
    MachineUnits();
    assert |Details()| == |Details().Keys|;
    Sizes();
  }

  lemma Sizes()
    ensures |{0}| == 1 && |{0, 1}| == 2 && |{0, 1, 2, 3}| == 4
  {
  }

  lemma MachineUniform()
    ensures Uniform(Details(), Core, 1) && Uniform(Details(), Socket, 4)
  {
    var d := Details();
    forall u | u in Units(d, Core) ensures |Members(d, Core, u)| == 1 {
      assert Members(d, Core, u) == {u};
    }
    Sizes();
    forall u | u in Units(d, Socket) ensures |Members(d, Socket, u)| == 4 {
      assert Members(d, Socket, u) == {0, 1, 2, 3};
    }
  }

  lemma MachineNested()
    ensures var d := Details();
      && Nested(d, Core, Numa) && Nested(d, Core, Socket) && Nested(d, Core, Uncore) && Nested(d, Numa, Socket)
    ensures forall u :: InOneNuma(Details(), u)
  {
  }

  lemma MachineWellFormed()
    ensures WellFormed(Machine())
  {
    MachineCounts();
    MachineUniform();
    MachineNested();
  }

  lemma AllCounted(n: int)
    ensures CountsOnce(Machine(), {0, 1, 2, 3}, n)
  {
    MachineNested();
  }

  /** Three CPUs do not fit on a node of two. */
  lemma ThreeSpread(cpus: set<int>)
    requires cpus <= {0, 1, 2, 3} && |cpus| == 3
    ensures !OnOneNode(Details(), cpus)
  {
    if OnOneNode(Details(), cpus) {
      var c := Pick(cpus);
      SubsetSize(cpus, if c < 2 then {0, 1} else {2, 3});
    }
  }

  lemma AllEligible()
    ensures Eligible(Machine(), Start(Host()), Wanted()) == {0, 1, 2, 3}
  {
  }

  lemma Granted(t: CPUTopology, cfg: Config, s: Books, op: VM)
    requires New(op) && op.cpus > 0 && s.assignedMemory + op.memory <= cfg.memory
    requires s.assignedCPUs + op.cpus <= |s.available| && op.cpus <= |t.cpuDetails.Keys * Eligible(t, s, op)|
    ensures AllocateOutcome(t, cfg, s, op) == Done
  {
  }

  lemma TwoGuests(d: CPUDetails, cpus: set<int>, mem: nat, guest: map<int, NumaState>)
    requires cpus != {} && cpus <= d.Keys && Units(d, Numa) == {0, 1} && !OnOneNode(d, cpus)
    requires Layout(d, cpus, mem, guest)
    ensures |guest.Keys| == 2 && TotalBytes(guest) == 2 * (mem * MIB)
  {
    OneGuestNode(d, cpus, mem, guest);
    forall u | u in guest.Keys ensures u in Units(d, Numa) {
      var c := Pick(cpus * Members(d, Numa, u));
      assert UnitOf(d, Numa, c) == u;
    }
    SubsetSize(guest.Keys, {0, 1});
    Sizes();
    EqualCharges(guest, mem * MIB);
  }

  lemma StartIs()
    ensures var s := Start(Host()); s.assignedMemory == 0 && s.assignedCPUs == 0 && |s.available| == 4
  {
    assert {0, 1, 2, 3} - {} == {0, 1, 2, 3};
    Sizes();
  }

  lemma FourFree()
    ensures |Machine().cpuDetails.Keys * Eligible(Machine(), Start(Host()), Wanted())| == 4
  {
    MachineUnits();
    AllEligible();
    FourOf(Machine().cpuDetails.Keys, Eligible(Machine(), Start(Host()), Wanted()));
  }

  lemma FourOf(a: set<int>, b: set<int>)
    requires a == {0, 1, 2, 3} && b == a
    ensures |a * b| == 4
  {
    assert a * b == {0, 1, 2, 3};
  }

  lemma HostReady()
    ensures var t, s := Machine(), Start(Host());
      && Partition(Host(), s) && Host().all == t.cpuDetails.Keys
      && AllocateOutcome(t, Host(), s, Wanted()) == Done
  {
    MachineUnits();
    StartPartitions(Host());
    StartIs();
    FourFree();
    Granted(Machine(), Host(), Start(Host()), Wanted());
  }

  lemma Guests(cpus: set<int>)
    requires cpus <= {0, 1, 2, 3} && |cpus| == 3
    ensures var guest := PlacedVM(Machine(), Wanted(), cpus).numaNodes; |guest.Keys| == 2 && TotalBytes(guest) == 2 * GIB
  {
    MachineUnits();
    ThreeSpread(cpus);
    PlacementLayout(Machine(), Wanted(), cpus);
    TwoGuests(Details(), cpus, 1024, PlacedVM(Machine(), Wanted(), cpus).numaNodes);
  }

  /** Allocate grants the request three CPUs of the empty machine, whichever three: the VM has
      two NUMA nodes, each charged the whole GiB. Told of it after a restart, the policy
      refuses it, and books neither the CPUs nor the memory of a running VM. */
  lemma PlacementForgotten(cpus: set<int>, read: VM)
    requires cpus <= Eligible(Machine(), Start(Host()), Wanted()) && |cpus| == Wanted().cpus
    requires Reads(Reported(101, OptionsOf(PlacedVM(Machine(), Wanted(), cpus))), read)
    ensures WellFormed(Machine()) && AllocateOutcome(Machine(), Host(), Start(Host()), Wanted()) == Done
    ensures CountsOnce(Machine(), {0, 1, 2, 3}, 3) && Eligible(Machine(), Start(Host()), Wanted()) == {0, 1, 2, 3}
    ensures var guest := PlacedVM(Machine(), Wanted(), cpus).numaNodes; |guest.Keys| == 2 && TotalBytes(guest) == 2 * GIB
    ensures UpdateOutcome(Host(), Start(Host()), read) == MemoryMismatch
    ensures Told(Host(), Start(Host()), read) == Start(Host())
  {
    AllEligible();
    MachineWellFormed();
    AllCounted(3);
    HostReady();
    Guests(cpus);
    ThreeSpread(cpus);
    SpreadIsRefused(Machine(), Host(), Start(Host()), Wanted(), cpus, read);
  }
}
