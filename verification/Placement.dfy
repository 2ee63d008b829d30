/** What the static policy's Allocate writes back into a request. */
module Placement {
  import opened Arith
  import opened Sorting
  import opened Topology
  import opened PolicyModel
  import opened PolicyRuns
  import opened StaticPolicies

  /** The sum of the host CPUs used on the listed nodes. */
  function UsedOn(d: CPUDetails, cpus: set<int>, nodes: seq<int>): nat {
    if nodes == [] then 0 else |cpus * Members(d, Numa, nodes[0])| + UsedOn(d, cpus, nodes[1..])
  }

  /** Every node with CPUs taken, and no other, gets a guest range of that many CPUs. */
  lemma {:induction false} GuestRanges(d: CPUDetails, cpus: set<int>, nodes: seq<int>, idx: nat, mem: nat)
    requires NoDup(nodes)
    ensures GuestsFor(d, cpus, Elements(nodes), mem, GuestNodes(d, cpus, nodes, idx, mem))
    decreases |nodes|
  {
    if nodes != [] {
      HeadTail(nodes);
      var n := |cpus * Members(d, Numa, nodes[0])|;
      var rest := GuestNodes(d, cpus, nodes[1..], idx + n, mem);
      GuestRanges(d, cpus, nodes[1..], idx + n, mem);
      GuestAdded(d, cpus, Elements(nodes[1..]), mem, rest, nodes[0], idx, n);
      GuestHead(d, cpus, nodes, idx, mem, rest, n);
    }
  }

  ghost predicate GuestsFor(d: CPUDetails, cpus: set<int>, nodes: set<int>, mem: nat, guest: map<int, NumaState>) {
    && (forall u :: u in guest <==> u in nodes && cpus * Members(d, Numa, u) != {})
    && (forall u :: u in guest ==> guest[u].memory == mem && guest[u].policy == "bind"
                                   && |guest[u].cpus| == |cpus * Members(d, Numa, u)|)
  }

  lemma GuestAdded(d: CPUDetails, cpus: set<int>, nodes: set<int>, mem: nat, guest: map<int, NumaState>, node: int, idx: nat,
                   n: nat)
    requires GuestsFor(d, cpus, nodes, mem, guest) && n == |cpus * Members(d, Numa, node)|
    ensures GuestsFor(d, cpus, {node} + nodes, mem,
                      if n > 0 then guest[node := NumaState(Range(idx, idx + n), mem, "bind")] else guest)
  {
    RangeSize(idx, idx + n);
  }

  function GuestCPUs(guest: map<int, NumaState>): set<int> {
    set u, g | u in guest && g in guest[u].cpus :: g
  }

  ghost predicate DisjointGuests(guest: map<int, NumaState>) {
    forall u, v :: u in guest && v in guest && u != v ==> guest[u].cpus !! guest[v].cpus
  }

  /** The guest CPU sets are pairwise disjoint and together exactly lo .. hi - 1. */
  ghost predicate Tiles(guest: map<int, NumaState>, lo: int, hi: int) {
    GuestCPUs(guest) == Range(lo, hi) && DisjointGuests(guest)
  }

  lemma GuestCPUsAdd(guest: map<int, NumaState>, node: int, state: NumaState)
    requires node !in guest
    ensures GuestCPUs(guest[node := state]) == state.cpus + GuestCPUs(guest)
  {
    var more := guest[node := state];
    forall g ensures g in GuestCPUs(more) <==> g in state.cpus + GuestCPUs(guest) {
      if g in state.cpus {
        assert more[node] == state;
      } else if g in GuestCPUs(guest) {
        var u :| u in guest && g in guest[u].cpus;
        assert more[u] == guest[u];
      }
    }
  }

  lemma TilesPrepend(guest: map<int, NumaState>, lo: int, mid: int, hi: int, node: int, state: NumaState)
    requires Tiles(guest, mid, hi) && node !in guest && lo <= mid <= hi && state.cpus == Range(lo, mid)
    ensures Tiles(guest[node := state], lo, hi)
  {
    var more := guest[node := state];
    RangeSize(lo, mid);
    RangeSize(mid, hi);
    RangeSize(lo, hi);
    GuestCPUsAdd(guest, node, state);
    assert Range(lo, hi) == Range(lo, mid) + Range(mid, hi);
    forall v | v in guest ensures guest[v].cpus !! state.cpus {
      assert guest[v].cpus <= GuestCPUs(guest) by {
        assert forall g :: g in guest[v].cpus ==> g in GuestCPUs(guest);
      }
    }
    assert DisjointGuests(more);
  }

  lemma TilesGrow(guest: map<int, NumaState>, lo: int, mid: int, hi: int, node: int, state: NumaState)
    requires Tiles(guest, mid, hi) && node !in guest && lo <= mid <= hi && state.cpus == Range(lo, mid)
    ensures Tiles(if mid > lo then guest[node := state] else guest, lo, hi)
  {
    if mid > lo {
      TilesPrepend(guest, lo, mid, hi, node, state);
    }
  }

  /** The guest ranges are consecutive: together they are exactly idx .. idx + total - 1, and
      no guest CPU is in two of them. */
  lemma {:induction false} GuestRangesTile(d: CPUDetails, cpus: set<int>, nodes: seq<int>, idx: nat, mem: nat)
    requires NoDup(nodes)
    ensures Tiles(GuestNodes(d, cpus, nodes, idx, mem), idx, idx + UsedOn(d, cpus, nodes))
    decreases |nodes|
  {
    if nodes == [] {
      RangeSize(idx, idx);
      assert GuestCPUs(map[]) == {} == Range(idx, idx);
    } else {
      HeadTail(nodes);
      var mid := idx + |cpus * Members(d, Numa, nodes[0])|;
      GuestRangesTile(d, cpus, nodes[1..], mid, mem);
      GuestKeys(d, cpus, nodes[1..], mid, mem);
      TilesGrow(GuestNodes(d, cpus, nodes[1..], mid, mem), idx, mid, mid + UsedOn(d, cpus, nodes[1..]), nodes[0],
                NumaState(Range(idx, mid), mem, "bind"));
    }
  }

  lemma {:induction false} UsedOnAll(d: CPUDetails, cpus: set<int>, nodes: seq<int>)
    requires NoDup(nodes)
    ensures UsedOn(d, cpus, nodes) == |cpus * MembersOf(d, Numa, Elements(nodes))|
    decreases |nodes|
  {
    if nodes == [] {
      assert cpus * MembersOf(d, Numa, Elements(nodes)) == {};
    } else {
      HeadTail(nodes);
      UsedOnAll(d, cpus, nodes[1..]);
      UsedSplits(d, cpus, nodes[0], Elements(nodes[1..]));
    }
  }

  lemma UsedSplits(d: CPUDetails, cpus: set<int>, node: int, others: set<int>)
    requires node !in others
    ensures |cpus * MembersOf(d, Numa, {node} + others)| == |cpus * Members(d, Numa, node)| + |cpus * MembersOf(d, Numa, others)|
  {
    var here, rest := cpus * Members(d, Numa, node), cpus * MembersOf(d, Numa, others);
    assert cpus * MembersOf(d, Numa, {node} + others) == here + rest;
    assert here !! rest;
  }

  /** The guest NUMA layout of a placement on particular CPUs. */
  ghost predicate Layout(d: CPUDetails, cpus: set<int>, mem: nat, guest: map<int, NumaState>) {
    && (forall u :: u in guest <==> cpus * Members(d, Numa, u) != {})
    && (forall u :: u in guest ==> |guest[u].cpus| == |cpus * Members(d, Numa, u)|)
    && (forall u :: u in guest ==> guest[u].memory == mem && guest[u].policy == "bind")
    && Tiles(guest, 0, |cpus|)
  }

  lemma LayoutOver(d: CPUDetails, cpus: set<int>, nodes: seq<int>, mem: nat)
    requires NoDup(nodes) && Elements(nodes) == Units(d, Numa) && cpus <= d.Keys
    ensures Layout(d, cpus, mem, GuestNodes(d, cpus, nodes, 0, mem))
  {
    GuestRanges(d, cpus, nodes, 0, mem);
    GuestRangesTile(d, cpus, nodes, 0, mem);
    AllUsed(d, cpus, nodes);
    forall u | cpus * Members(d, Numa, u) != {} ensures u in nodes {
      var c := Pick(cpus * Members(d, Numa, u));
      assert UnitOf(d, Numa, c) == u;
      assert u in Units(d, Numa);
    }
  }

  /** The guest layout written back by a placement: one range per host node used, of as many
      guest CPUs as host CPUs were taken there, the ranges tiling 0 .. |cpus| - 1. */
  lemma PlacementLayout(t: CPUTopology, op: VM, cpus: set<int>)
    requires op.numaNodes == map[] && cpus <= t.cpuDetails.Keys
    ensures Layout(t.cpuDetails, cpus, op.memory / 1024 / 1024, PlacedVM(t, op, cpus).numaNodes)
  {
    var nodes := HostNodes(t.cpuDetails);
    LayoutOver(t.cpuDetails, cpus, nodes, op.memory / 1024 / 1024);
    NothingPreset(op.numaNodes, GuestNodes(t.cpuDetails, cpus, nodes, 0, op.memory / 1024 / 1024));
  }

  // ---- the whole of what is written back

  /** The CPUs taken on the nodes before node u. */
  ghost function TakenBelow(d: CPUDetails, cpus: set<int>, u: int): set<int> {
    set c | c in cpus && c in d && d[c].numaNodeID < u
  }

  ghost function TakenOn(d: CPUDetails, cpus: set<int>, u: int): set<int> {
    set c | c in cpus && c in d && d[c].numaNodeID == u
  }

  /** Guest CPUs are numbered in the order of the host nodes; each node is asked for the whole
      memory of the request, in MiB, and binds it. */
  ghost predicate GuestOf(d: CPUDetails, cpus: set<int>, memory: nat, u: int, state: NumaState) {
    && state.memory == memory / 1048576 && state.policy == "bind"
    && forall g :: g in state.cpus <==>
         |TakenBelow(d, cpus, u)| <= g < |TakenBelow(d, cpus, u)| + |TakenOn(d, cpus, u)|
  }

  /** The request with its CPUs and the layout of the nodes they are on; other nodes it came
      with are left as they were. */
  ghost predicate WrittenBack(d: CPUDetails, op: VM, cpus: set<int>, placed: VM) {
    && placed.id == op.id && placed.cpus == op.cpus && placed.memory == op.memory && placed.cpuSet == cpus
    && (forall u :: u in placed.numaNodes <==> u in op.numaNodes || TakenOn(d, cpus, u) != {})
    && (forall u :: u in placed.numaNodes ==>
          if TakenOn(d, cpus, u) == {} then placed.numaNodes[u] == op.numaNodes[u]
          else GuestOf(d, cpus, op.memory, u, placed.numaNodes[u]))
  }

  lemma {:induction false} GuestAt(d: CPUDetails, cpus: set<int>, nodes: seq<int>, idx: nat, mem: nat, i: nat)
    requires NoDup(nodes) && i < |nodes| && cpus * Members(d, Numa, nodes[i]) != {}
    ensures var guest, lo := GuestNodes(d, cpus, nodes, idx, mem), idx + UsedOn(d, cpus, nodes[..i]);
      && nodes[i] in guest
      && guest[nodes[i]] == NumaState(Range(lo, lo + |cpus * Members(d, Numa, nodes[i])|), mem, "bind")
    decreases i
  {
    var n := |cpus * Members(d, Numa, nodes[0])|;
    GuestHead(d, cpus, nodes, idx, mem, GuestNodes(d, cpus, nodes[1..], idx + n, mem), n);
    if i > 0 {
      GuestAt(d, cpus, nodes[1..], idx + n, mem, i - 1);
      assert nodes[..i][0] == nodes[0] && nodes[..i][1..] == nodes[1..][..i - 1];
    }
  }

  lemma UsedBelow(d: CPUDetails, cpus: set<int>, nodes: seq<int>, i: nat)
    requires nodes == List(Units(d, Numa)) && i < |nodes|
    ensures UsedOn(d, cpus, nodes[..i]) == |TakenBelow(d, cpus, nodes[i])|
  {
    UsedOnAll(d, cpus, nodes[..i]);
    forall c ensures c in cpus * MembersOf(d, Numa, Elements(nodes[..i])) <==> c in TakenBelow(d, cpus, nodes[i]) {
      if c in cpus && c in d {
        assert UnitOf(d, Numa, c) in Units(d, Numa);
        var k := IndexOf(nodes, UnitOf(d, Numa, c));
        assert k < i <==> nodes[k] < nodes[i];
        assert k < i ==> nodes[..i][k] == nodes[k];
      }
    }
    assert cpus * MembersOf(d, Numa, Elements(nodes[..i])) == TakenBelow(d, cpus, nodes[i]);
  }

  lemma OnNode(d: CPUDetails, cpus: set<int>, u: int)
    ensures TakenOn(d, cpus, u) == cpus * Members(d, Numa, u)
    ensures TakenOn(d, cpus, u) != {} ==> u in Units(d, Numa)
  {
    if TakenOn(d, cpus, u) != {} {
      var c := Pick(TakenOn(d, cpus, u));
      assert UnitOf(d, Numa, c) == u;
    }
  }

  lemma GuestIs(d: CPUDetails, cpus: set<int>, memory: nat, nodes: seq<int>, u: int)
    requires nodes == List(Units(d, Numa)) && TakenOn(d, cpus, u) != {}
    ensures var guest := GuestNodes(d, cpus, nodes, 0, memory / 1024 / 1024);
      u in guest && GuestOf(d, cpus, memory, u, guest[u])
  {
    OnNode(d, cpus, u);
    var i := IndexOf(nodes, u);
    GuestAt(d, cpus, nodes, 0, memory / 1024 / 1024, i);
    UsedBelow(d, cpus, nodes, i);
    RangeSize(|TakenBelow(d, cpus, u)|, |TakenBelow(d, cpus, u)| + |TakenOn(d, cpus, u)|);
    assert memory / 1024 / 1024 == memory / 1048576;
  }

  /** Everything Allocate writes back, for requests with preset nodes too. */
  lemma PlacementWrites(t: CPUTopology, op: VM, cpus: set<int>)
    ensures WrittenBack(t.cpuDetails, op, cpus, PlacedVM(t, op, cpus))
  {
    var d := t.cpuDetails;
    var nodes := HostNodes(d);
    var guest := GuestNodes(d, cpus, nodes, 0, op.memory / 1024 / 1024);
    GuestKeys(d, cpus, nodes, 0, op.memory / 1024 / 1024);
    forall u ensures u in guest <==> TakenOn(d, cpus, u) != {} {
      OnNode(d, cpus, u);
      if TakenOn(d, cpus, u) != {} {
        GuestIs(d, cpus, op.memory, nodes, u);
      }
    }
    forall u | u in guest ensures GuestOf(d, cpus, op.memory, u, guest[u]) {
      GuestIs(d, cpus, op.memory, nodes, u);
    }
  }

  lemma HostNodes(d: CPUDetails) returns (nodes: seq<int>)
    ensures nodes == List(Units(d, Numa)) && NoDup(nodes) && Elements(nodes) == Units(d, Numa)
  {
    nodes := List(Units(d, Numa));
  }

  lemma NothingPreset(preset: map<int, NumaState>, guest: map<int, NumaState>)
    requires preset == map[]
    ensures preset + guest == guest
  {
  }

  lemma AllUsed(d: CPUDetails, cpus: set<int>, nodes: seq<int>)
    requires NoDup(nodes) && Elements(nodes) == Units(d, Numa) && cpus <= d.Keys
    ensures UsedOn(d, cpus, nodes) == |cpus|
  {
    UsedOnAll(d, cpus, nodes);
    assert forall c :: c in cpus ==> UnitOf(d, Numa, c) in Units(d, Numa);
    assert cpus * MembersOf(d, Numa, Elements(nodes)) == cpus;
  }

  /** The nodes of the guest layout are known, and their counters cover what they are charged. */
  lemma PlacementFits(t: CPUTopology, s: Books, op: VM, cpus: set<int>)
    requires op.numaNodes == map[] && cpus <= t.cpuDetails.Keys && cpus <= Eligible(t, s, op)
    ensures PlacedVM(t, op, cpus).numaNodes.Keys <= s.numa.Keys
    ensures NodesFit(s.numa, PlacedVM(t, op, cpus))
  {
    PlacementLayout(t, op, cpus);
    LayoutFits(t, s, op, cpus, PlacedVM(t, op, cpus));
  }

  lemma LayoutFits(t: CPUTopology, s: Books, op: VM, cpus: set<int>, vm: VM)
    requires op.numaNodes == map[] && cpus <= Eligible(t, s, op)
    requires Layout(t.cpuDetails, cpus, op.memory / 1024 / 1024, vm.numaNodes)
    ensures vm.numaNodes.Keys <= s.numa.Keys && NodesFit(s.numa, vm)
  {
    forall u | u in vm.numaNodes.Keys ensures u in s.numa.Keys && Counter(s.numa, u) >= NodeBytes(vm, u) {
      assert u in vm.numaNodes;
      ChargeCovered(t, s, op, cpus, u, vm.numaNodes[u]);
    }
    forall u | u in vm.numaNodes.Keys ensures u in s.numa.Keys {
      assert Counter(s.numa, u) >= NodeBytes(vm, u);
    }
  }

  /** A successful placement is a legal event of a run: it takes free CPUs of known nodes whose
      counters cover what it is charged. */
  lemma PlacementIsLegal(t: CPUTopology, cfg: Config, r: Run, op: VM, cpus: set<int>)
    requires Balanced(cfg, r) && cfg.all == t.cpuDetails.Keys
    requires op.numaNodes == map[] && op.cpus > 0 && op.memory > 0
    requires cpus != {} && cpus <= Eligible(t, r.books, op)
    requires r.books.assignedMemory + op.memory <= cfg.memory
    ensures Legal(cfg, r, Placed(PlacedVM(t, op, cpus)))
  {
    var vm := PlacedVM(t, op, cpus);
    EligibleFree(t, r.books, op);
    BalancedDomain(cfg, r);
    PlacementFits(t, r.books, op, cpus);
    LegalIfFits(cfg, r, vm);
  }

  lemma BalancedDomain(cfg: Config, r: Run)
    requires Balanced(cfg, r)
    ensures r.books.numa.Keys == cfg.numa.Keys && r.books.available <= cfg.all
  {
  }

  lemma LegalIfFits(cfg: Config, r: Run, vm: VM)
    requires vm.cpus > 0 && vm.memory > 0 && vm.cpuSet != {} && vm.cpuSet <= r.books.available <= cfg.all
    requires vm.numaNodes.Keys <= cfg.numa.Keys && NodesFit(r.books.numa, vm)
    requires r.books.assignedMemory + vm.memory <= cfg.memory
    ensures Legal(cfg, r, Placed(vm))
  {
  }

  lemma EligibleFree(t: CPUTopology, s: Books, op: VM)
    ensures Eligible(t, s, op) <= s.available
  {
  }

  lemma ChargeCovered(t: CPUTopology, s: Books, op: VM, cpus: set<int>, u: int, state: NumaState)
    requires op.numaNodes == map[] && cpus <= Eligible(t, s, op) && cpus * Members(t.cpuDetails, Numa, u) != {}
    requires state.memory == op.memory / 1024 / 1024
    ensures u in s.numa && s.numa[u] >= state.memory * MIB
  {
    var c := Pick(cpus * Members(t.cpuDetails, Numa, u));
    assert c in RoomyCPUs(t, s.numa, op.memory) && UnitOf(t.cpuDetails, Numa, c) == u;
    WholeMiB(op.memory);
  }

  lemma WholeMiB(m: nat)
    ensures (m / 1024 / 1024) * MIB <= m
  {
  }

  // ---- what a placement is charged in all

  ghost predicate OnOneNode(d: CPUDetails, cpus: set<int>) {
    forall a, b :: a in cpus && b in cpus ==> a in d && b in d && UnitOf(d, Numa, a) == UnitOf(d, Numa, b)
  }

  lemma {:induction false} EqualCharges(nodes: map<int, NumaState>, bytes: nat)
    requires forall u :: u in nodes ==> nodes[u].memory * MIB == bytes
    ensures TotalBytes(nodes) == |nodes.Keys| * bytes
    decreases |nodes.Keys|
  {
    if nodes.Keys != {} {
      var u := Pick(nodes.Keys);
      var rest := nodes - {u};
      TotalBytesAny(nodes, u);
      assert rest.Keys == nodes.Keys - {u};
      EqualCharges(rest, bytes);
      OneMoreTime(|rest.Keys|, bytes);
    }
  }

  lemma OneGuestNode(d: CPUDetails, cpus: set<int>, mem: nat, guest: map<int, NumaState>)
    requires Layout(d, cpus, mem, guest) && cpus != {} && cpus <= d.Keys
    ensures |guest.Keys| >= 1
    ensures |guest.Keys| == 1 <==> OnOneNode(d, cpus)
  {
    var c := Pick(cpus);
    var u := UnitOf(d, Numa, c);
    assert c in cpus * Members(d, Numa, u);
    assert u in guest.Keys;
    SubsetSize({u}, guest.Keys);
    if OnOneNode(d, cpus) {
      forall v | v in guest.Keys ensures v == u {
        var b := Pick(cpus * Members(d, Numa, v));
        assert b in cpus && UnitOf(d, Numa, b) == v;
      }
      assert guest.Keys == {u};
    }
    if |guest.Keys| == 1 {
      assert guest.Keys == {u};
      forall b | b in cpus ensures UnitOf(d, Numa, b) == u {
        assert b in cpus * Members(d, Numa, UnitOf(d, Numa, b));
        assert UnitOf(d, Numa, b) in guest.Keys;
      }
    }
  }

  /** The nodes of a placement are each charged the whole of the memory. */
  lemma PlacementCharge(t: CPUTopology, op: VM, cpus: set<int>)
    requires op.numaNodes == map[] && cpus != {} && cpus <= t.cpuDetails.Keys && op.memory >= MIB
    ensures var total := TotalBytes(PlacedVM(t, op, cpus).numaNodes);
      && total > 0
      && (total == op.memory <==> OnOneNode(t.cpuDetails, cpus) && op.memory % MIB == 0)
  {
    PlacementLayout(t, op, cpus);
    ChargeOfLayout(t.cpuDetails, cpus, op.memory, PlacedVM(t, op, cpus).numaNodes);
  }

  lemma ChargeOfLayout(d: CPUDetails, cpus: set<int>, memory: nat, guest: map<int, NumaState>)
    requires cpus != {} && cpus <= d.Keys && memory >= MIB && Layout(d, cpus, memory / 1024 / 1024, guest)
    ensures TotalBytes(guest) > 0
    ensures TotalBytes(guest) == memory <==> OnOneNode(d, cpus) && memory % MIB == 0
  {
    OneGuestNode(d, cpus, memory / 1024 / 1024, guest);
    EqualCharges(guest, (memory / 1024 / 1024) * MIB);
    Multiples(|guest.Keys|, memory);
  }

  /** A memory of whole MiB is charged as it is on one node, and more than that on several. */
  lemma ChargeOfWhole(d: CPUDetails, cpus: set<int>, mem: nat, guest: map<int, NumaState>)
    requires cpus != {} && cpus <= d.Keys && mem > 0 && Layout(d, cpus, mem, guest)
    ensures TotalBytes(guest) > 0
    ensures TotalBytes(guest) == mem * MIB <==> OnOneNode(d, cpus)
  {
    OneGuestNode(d, cpus, mem, guest);
    EqualCharges(guest, mem * MIB);
    if |guest.Keys| >= 2 {
      MulMonotone(mem * MIB, 2, |guest.Keys|);
    }
  }

  lemma Multiples(n: nat, memory: nat)
    requires n >= 1 && memory >= MIB
    ensures var whole := (memory / 1024 / 1024) * MIB;
      n * whole > 0 && (n * whole == memory <==> n == 1 && memory % MIB == 0)
  {
    var whole := (memory / 1024 / 1024) * MIB;
    assert memory / 1024 / 1024 == memory / MIB;
    assert MIB <= whole <= memory < whole + MIB;
    if n >= 2 {
      MulMonotone(whole, 2, n);
      assert whole * n == n * whole;
    }
  }

  lemma Replay(cfg: Config, s: Books, vm: VM)
    requires Partition(cfg, s) && vm.cpuSet != {} && vm.cpuSet <= s.available
    requires vm.memory > 0 && s.assignedMemory + vm.memory <= cfg.memory
    requires NodesFit(s.numa, vm) && TotalBytes(vm.numaNodes) > 0
    ensures UpdateOutcome(cfg, s, vm) == if TotalBytes(vm.numaNodes) == vm.memory then Done else MemoryMismatch
    ensures Update(cfg, s, vm) == if TotalBytes(vm.numaNodes) == vm.memory then Place(s, vm) else s
  {
    assert vm.cpuSet - cfg.reserved == vm.cpuSet;
    SubsetSize(vm.cpuSet, cfg.all);
  }
}
