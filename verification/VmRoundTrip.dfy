/** Writing a VM's resources into its configuration, and reading them back. */
module VmRoundTrip {
  import opened Sorting
  import opened Topology
  import opened PolicyModel
  import opened StaticPolicies
  import opened Placement
  import opened VmConfig

  /** The options of a VM; numas[i] is the entry numa<i>. */
  datatype Options = Options(cores: int, memory: nat, affinity: CPUList, numa: bool, numas: seq<NumaEntry>)

  datatype Written = Written(options: Options) | NoCPUsOnNode

  ghost predicate Listed(keys: seq<int>, nodes: map<int, NumaState>) {
    forall i :: 0 <= i < |keys| ==> keys[i] in nodes.Keys
  }

  /** The entries of the listed nodes: consecutive guest CPUs, as many as each node has. */
  function Entries(nodes: map<int, NumaState>, keys: seq<int>, idx: nat): seq<NumaEntry>
    requires Listed(keys, nodes)
  {
    if keys == [] then []
    else
      var node := nodes[keys[0]];
      [NumaEntry(Range(idx, idx + |node.cpus|), {keys[0]}, node.memory, node.policy)]
      + Entries(nodes, keys[1..], idx + |node.cpus|)
  }

  predicate EveryNodeHasCPUs(nodes: map<int, NumaState>) {
    forall k :: k in nodes.Keys ==> nodes[k].cpus != {}
  }

  function OptionsOf(res: VM): Options {
    Options(res.cpus, res.memory / 1024 / 1024, Format(res.cpuSet), |res.numaNodes.Keys| > 0,
            Entries(res.numaNodes, List(res.numaNodes.Keys), 0))
  }

  method GenerateVMOptionsFromResources(res: VM) returns (r: Written)
    ensures r.NoCPUsOnNode? <==> !EveryNodeHasCPUs(res.numaNodes)
    ensures r.Written? ==> r.options == OptionsOf(res)
  {
    var affinity: CPUList := [];
    if res.cpuSet != {} {
      affinity := Format(res.cpuSet);
    }
    assert List({}) == [];
    var numas: seq<NumaEntry> := [];
    if |res.numaNodes.Keys| > 0 {
      var ok;
      ok, numas := NumaEntries(res.numaNodes, List(res.numaNodes.Keys));
      if !ok {
        return NoCPUsOnNode;
      }
    } else {
      assert res.numaNodes.Keys == {};
    }
    return Written(Options(res.cpus, res.memory / 1024 / 1024, affinity, |res.numaNodes.Keys| > 0, numas));
  }

  method NumaEntries(nodes: map<int, NumaState>, keys: seq<int>) returns (ok: bool, numas: seq<NumaEntry>)
    requires Listed(keys, nodes) && forall k :: k in nodes.Keys ==> k in keys
    ensures ok <==> EveryNodeHasCPUs(nodes)
    ensures ok ==> numas == Entries(nodes, keys, 0)
  {
    numas := [];
    var cpuIdx: nat := 0;
    for i := 0 to |keys|
      invariant forall j :: 0 <= j < i ==> keys[j] in nodes.Keys && nodes[keys[j]].cpus != {}
      invariant numas + Entries(nodes, keys[i..], cpuIdx) == Entries(nodes, keys, 0)
    {
      var node := nodes[keys[i]];
      if node.cpus == {} {
        ghost var k := keys[i];
        assert k in nodes.Keys && nodes[k].cpus == {};
        return false, numas;
      }
      assert keys[i..][0] == keys[i] && keys[i..][1..] == keys[i + 1..];
      var entry := NumaEntry(Range(cpuIdx, cpuIdx + |node.cpus|), {keys[i]}, node.memory, node.policy);
      AppendMoves(numas, [entry], Entries(nodes, keys[i + 1..], cpuIdx + |node.cpus|));
      numas := numas + [entry];
      cpuIdx := cpuIdx + |node.cpus|;
    }
    return true, numas;
  }

  /** The VM the host reports for these options. */
  function Reported(id: int, o: Options): VirtualMachine {
    VirtualMachine(id, o.cores, o.memory * MIB, VMSettings(o.affinity, o.numa, map i | 0 <= i < |o.numas| :: o.numas[i]))
  }

  // ---- what the entries are

  lemma {:induction false} EntriesAre(nodes: map<int, NumaState>, keys: seq<int>, idx: nat)
    requires Listed(keys, nodes)
    ensures |Entries(nodes, keys, idx)| == |keys|
    ensures forall i :: 0 <= i < |keys| ==>
      var e := Entries(nodes, keys, idx)[i];
      && e.hosts == {keys[i]} && e.memory == nodes[keys[i]].memory && e.policy == nodes[keys[i]].policy
      && |e.cpus| == |nodes[keys[i]].cpus|
    decreases |keys|
  {
    if keys != [] {
      var size := |nodes[keys[0]].cpus|;
      RangeSize(idx, idx + size);
      EntriesAre(nodes, keys[1..], idx + size);
    }
  }

  /** The nodes' guest CPUs are numbered consecutively, in the order of the node ids. */
  ghost predicate ConsecutiveFrom(nodes: map<int, NumaState>, keys: seq<int>, idx: nat)
    requires Listed(keys, nodes)
  {
    keys == []
    || (nodes[keys[0]].cpus == Range(idx, idx + |nodes[keys[0]].cpus|)
        && ConsecutiveFrom(nodes, keys[1..], idx + |nodes[keys[0]].cpus|))
  }

  ghost predicate Consecutive(nodes: map<int, NumaState>) {
    ConsecutiveFrom(nodes, List(nodes.Keys), 0)
  }

  lemma {:induction false} SameCPUs(nodes: map<int, NumaState>, keys: seq<int>, idx: nat)
    requires Listed(keys, nodes)
    ensures |Entries(nodes, keys, idx)| == |keys|
    ensures ConsecutiveFrom(nodes, keys, idx)
        <==> forall i :: 0 <= i < |keys| ==> Entries(nodes, keys, idx)[i].cpus == nodes[keys[i]].cpus
    decreases |keys|
  {
    EntriesAre(nodes, keys, idx);
    if keys != [] {
      var size := |nodes[keys[0]].cpus|;
      var e, f := Entries(nodes, keys, idx), Entries(nodes, keys[1..], idx + size);
      SameCPUs(nodes, keys[1..], idx + size);
      assert e[1..] == f;
      if ConsecutiveFrom(nodes, keys, idx) {
        forall i | 0 <= i < |keys| ensures e[i].cpus == nodes[keys[i]].cpus {
          assert i > 0 ==> e[i] == f[i - 1] && keys[1..][i - 1] == keys[i];
        }
      }
      if forall i :: 0 <= i < |keys| ==> e[i].cpus == nodes[keys[i]].cpus {
        forall i | 0 <= i < |keys| - 1 ensures f[i].cpus == nodes[keys[1..][i]].cpus {
          assert f[i] == e[i + 1] && keys[1..][i] == keys[i + 1];
        }
        assert e[0].cpus == nodes[keys[0]].cpus;
      }
    }
  }

  // ---- reading back

  /** A host node fed by a single entry has what that entry gives it. */
  lemma OnlyFeeder(pieces: map<int, map<int, NumaState>>, done: set<int>, k: int, h: int, state: NumaState)
    requires Right(pieces, done, h, state) && k in done && Feeds(pieces, k, h)
    requires forall j :: j in done && Feeds(pieces, j, h) ==> j == k
    ensures state == pieces[k][h]
  {
    MemoryOnAny(pieces, done, h, k);
    NothingOn(pieces, done - {k}, h);
    forall c ensures c in CPUsOn(pieces, done, h) <==> c in pieces[k][h].cpus {
    }
  }

  /** An entry for one host node is one piece. */
  lemma SinglePiece(e: NumaEntry, h: int)
    requires e.hosts == {h} && e.cpus != {}
    ensures Pieces(e) == if e.memory > 0 then map[h := NumaState(e.cpus, e.memory, e.policy)] else map[]
  {
    if e.memory > 0 {
      WholeShare(e, h);
      PieceKeys(e);
    }
  }

  /** The read nodes are those of the entries with memory, each as its entry has it. */
  ghost predicate ReadNodes(numas: seq<NumaEntry>, keys: seq<int>, nodes: map<int, NumaState>)
    requires |numas| == |keys|
  {
    && (forall h :: h in nodes ==> h in keys)
    && (forall i :: 0 <= i < |keys| ==> (keys[i] in nodes <==> numas[i].memory > 0))
    && (forall i :: 0 <= i < |keys| && numas[i].memory > 0 ==>
          nodes[keys[i]] == NumaState(numas[i].cpus, numas[i].memory, numas[i].policy))
  }

  ghost predicate Singles(numas: seq<NumaEntry>, keys: seq<int>) {
    && |numas| == |keys| && NoDup(keys)
    && forall i :: 0 <= i < |keys| ==> numas[i].hosts == {keys[i]} && numas[i].cpus != {}
  }

  function Indexed(numas: seq<NumaEntry>): map<int, NumaEntry> {
    map i | 0 <= i < |numas| :: numas[i]
  }

  lemma FeedsOne(numas: seq<NumaEntry>, keys: seq<int>, k: int, h: int)
    requires Singles(numas, keys)
    ensures Feeds(AllPieces(Indexed(numas)), k, h) <==> 0 <= k < |keys| && keys[k] == h && numas[k].memory > 0
    ensures Feeds(AllPieces(Indexed(numas)), k, h) ==>
      AllPieces(Indexed(numas))[k][h] == NumaState(numas[k].cpus, numas[k].memory, numas[k].policy)
  {
    if 0 <= k < |keys| {
      assert AllPieces(Indexed(numas))[k] == Pieces(numas[k]);
      SinglePiece(numas[k], keys[k]);
    }
  }

  lemma SinglesRead(numas: seq<NumaEntry>, keys: seq<int>, nodes: map<int, NumaState>)
    requires Singles(numas, keys) && Merged(AllPieces(Indexed(numas)), Indexed(numas).Keys, nodes)
    ensures ReadNodes(numas, keys, nodes)
  {
    var pieces, done := AllPieces(Indexed(numas)), Indexed(numas).Keys;
    forall h | h in nodes ensures h in keys {
      var k :| k in done && Feeds(pieces, k, h);
      FeedsOne(numas, keys, k, h);
    }
    forall i | 0 <= i < |keys| && numas[i].memory > 0
      ensures keys[i] in nodes && nodes[keys[i]] == NumaState(numas[i].cpus, numas[i].memory, numas[i].policy)
    {
      ReadOne(numas, keys, nodes, i);
    }
    forall i | 0 <= i < |keys| && keys[i] in nodes ensures numas[i].memory > 0 {
      var k :| k in done && Feeds(pieces, k, keys[i]);
      FeedsOne(numas, keys, k, keys[i]);
      assert k == i;
    }
  }

  lemma ReadOne(numas: seq<NumaEntry>, keys: seq<int>, nodes: map<int, NumaState>, i: nat)
    requires Singles(numas, keys) && Merged(AllPieces(Indexed(numas)), Indexed(numas).Keys, nodes)
    requires i < |keys| && numas[i].memory > 0
    ensures keys[i] in nodes && nodes[keys[i]] == NumaState(numas[i].cpus, numas[i].memory, numas[i].policy)
  {
    var pieces, done := AllPieces(Indexed(numas)), Indexed(numas).Keys;
    FeedsOne(numas, keys, i, keys[i]);
    assert i in done;
    forall j | j in done && Feeds(pieces, j, keys[i]) ensures j == i {
      FeedsOne(numas, keys, j, keys[i]);
    }
    OnlyFeeder(pieces, done, i, keys[i], nodes[keys[i]]);
  }

  lemma GeneratedSingles(nodes: map<int, NumaState>)
    requires EveryNodeHasCPUs(nodes)
    ensures Singles(Entries(nodes, List(nodes.Keys), 0), List(nodes.Keys))
  {
    var keys := List(nodes.Keys);
    assert Listed(keys, nodes) && NoDup(keys);
    EntriesSingle(nodes, keys);
  }

  lemma EntriesSingle(nodes: map<int, NumaState>, keys: seq<int>)
    requires EveryNodeHasCPUs(nodes) && Listed(keys, nodes) && NoDup(keys)
    ensures Singles(Entries(nodes, keys, 0), keys)
  {
    EntriesAre(nodes, keys, 0);
    forall i | 0 <= i < |keys| ensures Entries(nodes, keys, 0)[i].cpus != {} {
      assert keys[i] in nodes.Keys;
      NonEmptySize(nodes[keys[i]].cpus);
      NonEmptySize(Entries(nodes, keys, 0)[i].cpus);
    }
  }

  lemma NonEmptySize(s: set<int>)
    ensures s != {} <==> |s| > 0
  {
  }

  /** Reading back what was written gives the same CPU set, the memory in whole MiB, and for
      every node with memory its memory, its policy and as many guest CPUs. */
  lemma ReadBack(res: VM, id: int, vm: VM)
    requires EveryNodeHasCPUs(res.numaNodes) && Reads(Reported(id, OptionsOf(res)), vm)
    ensures vm.cpus == res.cpus && vm.cpuSet == res.cpuSet && vm.memory == (res.memory / 1024 / 1024) * MIB
    ensures var keys := List(res.numaNodes.Keys);
      |Entries(res.numaNodes, keys, 0)| == |keys| && ReadNodes(Entries(res.numaNodes, keys, 0), keys, vm.numaNodes)
  {
    var o, keys := OptionsOf(res), List(res.numaNodes.Keys);
    FormatReads(res.cpuSet);
    GeneratedSingles(res.numaNodes);
    assert Reported(id, o).config.numas == Indexed(o.numas);
    if o.numa {
      SinglesRead(o.numas, keys, vm.numaNodes);
    } else {
      assert keys == [];
    }
  }

  /** The nodes come back exactly as they were when, and only when, every node has memory and
      the guest CPUs were numbered consecutively to begin with. */
  lemma RoundTripIff(res: VM, id: int, vm: VM)
    requires EveryNodeHasCPUs(res.numaNodes) && Reads(Reported(id, OptionsOf(res)), vm)
    ensures vm.numaNodes == res.numaNodes
        <==> Consecutive(res.numaNodes) && forall k :: k in res.numaNodes.Keys ==> res.numaNodes[k].memory > 0
  {
    var nodes, keys := res.numaNodes, List(res.numaNodes.Keys);
    ReadBack(res, id, vm);
    SameCPUs(nodes, keys, 0);
    EntriesAre(nodes, keys, 0);
    SameNodes(nodes, vm.numaNodes, keys, Entries(nodes, keys, 0));
  }

  lemma SameNodes(nodes: map<int, NumaState>, read: map<int, NumaState>, keys: seq<int>, numas: seq<NumaEntry>)
    requires |numas| == |keys| && Listed(keys, nodes) && ReadNodes(numas, keys, read)
    requires forall k :: k in nodes.Keys ==> k in keys
    requires forall i :: 0 <= i < |keys| ==> numas[i].memory == nodes[keys[i]].memory && numas[i].policy == nodes[keys[i]].policy
    ensures read == nodes
        <==> (forall i :: 0 <= i < |keys| ==> numas[i].cpus == nodes[keys[i]].cpus)
             && (forall k :: k in nodes.Keys ==> nodes[k].memory > 0)
  {
    if read == nodes {
      forall i | 0 <= i < |keys| ensures numas[i].memory > 0 && numas[i].cpus == nodes[keys[i]].cpus {
        assert keys[i] in nodes.Keys;
      }
      forall k | k in nodes.Keys ensures nodes[k].memory > 0 {
        var i := IndexOf(keys, k);
      }
    }
    if (forall i :: 0 <= i < |keys| ==> numas[i].cpus == nodes[keys[i]].cpus)
       && (forall k :: k in nodes.Keys ==> nodes[k].memory > 0)
    {
      forall k | k in nodes ensures k in read && read[k] == nodes[k] {
        var i := IndexOf(keys, k);
        assert nodes[k].memory > 0;
      }
      forall k | k in read ensures k in nodes {
        var i := IndexOf(keys, k);
      }
      assert read.Keys == nodes.Keys;
    }
  }

  // ---- placements of the static policy

  /** An ascending list is the list of its elements. */
  lemma {:induction false} AscendingIsList(l: seq<int>, s: set<int>)
    requires Elements(l) == s && forall i, j :: 0 <= i < j < |l| ==> l[i] < l[j]
    ensures l == List(s)
    decreases |l|
  {
    var w := map x | x in s :: 0;
    forall x ensures x in l ==> x in w {
      assert x in l ==> x in Elements(l);
    }
    SortUnique(w, s, l);
  }

  lemma {:induction false} ConsecutiveSame(a: map<int, NumaState>, b: map<int, NumaState>, keys: seq<int>, idx: nat)
    requires forall i :: 0 <= i < |keys| ==> keys[i] in a.Keys && keys[i] in b.Keys && a[keys[i]] == b[keys[i]]
    ensures ConsecutiveFrom(a, keys, idx) == ConsecutiveFrom(b, keys, idx)
    decreases |keys|
  {
    if keys != [] {
      ConsecutiveSame(a, b, keys[1..], idx + |a[keys[0]].cpus|);
    }
  }

  /** The ascending list of the node ids, along which the guest CPUs are numbered. */
  ghost predicate NumberedBy(nodes: map<int, NumaState>, keys: seq<int>, idx: nat) {
    && Ids(keys, nodes.Keys) && Listed(keys, nodes)
    && ConsecutiveFrom(nodes, keys, idx)
  }

  lemma {:induction false} GuestsConsecutive(d: CPUDetails, cpus: set<int>, nodes: seq<int>, idx: nat, mem: nat)
    returns (keys: seq<int>)
    requires forall i, j :: 0 <= i < j < |nodes| ==> nodes[i] < nodes[j]
    ensures NumberedBy(GuestNodes(d, cpus, nodes, idx, mem), keys, idx)
    decreases |nodes|
  {
    if nodes == [] {
      keys := [];
    } else {
      var size := |cpus * Members(d, Numa, nodes[0])|;
      keys := GuestsConsecutive(d, cpus, nodes[1..], idx + size, mem);
      GuestStep(d, cpus, nodes, 0, idx, mem);
      assert nodes[0..] == nodes;
      GuestsAfter(d, cpus, nodes, idx + size, mem);
      keys := NodePrepended(GuestNodes(d, cpus, nodes[1..], idx + size, mem), GuestNodes(d, cpus, nodes, idx, mem), keys,
                            nodes[0], idx, size, mem);
    }
  }

  lemma GuestsAfter(d: CPUDetails, cpus: set<int>, nodes: seq<int>, idx: nat, mem: nat)
    requires nodes != [] && forall i, j :: 0 <= i < j < |nodes| ==> nodes[i] < nodes[j]
    ensures forall k :: k in GuestNodes(d, cpus, nodes[1..], idx, mem) ==> nodes[0] < k
  {
    GuestKeys(d, cpus, nodes[1..], idx, mem);
    forall k | k in nodes[1..] ensures nodes[0] < k {
      var i := IndexOf(nodes[1..], k);
      assert nodes[i + 1] == k;
    }
  }

  lemma NodePrepended(rest: map<int, NumaState>, guest: map<int, NumaState>, keys: seq<int>, node: int, idx: nat, size: nat,
                      mem: nat) returns (all: seq<int>)
    requires NumberedBy(rest, keys, idx + size) && forall k :: k in rest.Keys ==> node < k
    requires guest == if size > 0 then rest[node := NumaState(Range(idx, idx + size), mem, "bind")] else rest
    ensures NumberedBy(guest, all, idx)
  {
    all := keys;
    if size > 0 {
      RangeSize(idx, idx + size);
      all := [node] + keys;
      KeysPrepended(rest, guest, keys, node, idx, size);
    }
  }

  ghost predicate Ids(keys: seq<int>, ids: set<int>) {
    && (forall i :: 0 <= i < |keys| ==> keys[i] in ids) && (forall k :: k in ids ==> k in keys)
    && (forall i, j :: 0 <= i < j < |keys| ==> keys[i] < keys[j])
  }

  lemma IdsPrepended(keys: seq<int>, ids: set<int>, node: int)
    requires Ids(keys, ids) && forall k :: k in ids ==> node < k
    ensures Ids([node] + keys, {node} + ids)
  {
    var all := [node] + keys;
    forall k | k in {node} + ids ensures k in all {
      if k != node {
        var i := IndexOf(keys, k);
        assert all[i + 1] == k;
      }
    }
  }

  lemma KeysPrepended(rest: map<int, NumaState>, guest: map<int, NumaState>, keys: seq<int>, node: int, idx: nat, size: nat)
    requires Ids(keys, rest.Keys) && ConsecutiveFrom(rest, keys, idx + size)
    requires node in guest && forall k :: k in rest.Keys ==> node < k
    requires guest.Keys == {node} + rest.Keys && forall k :: k in rest.Keys ==> guest[k] == rest[k]
    requires guest[node].cpus == Range(idx, idx + size) && |guest[node].cpus| == size
    ensures NumberedBy(guest, [node] + keys, idx)
  {
    IdsPrepended(keys, rest.Keys, node);
    ConsecutiveSame(rest, guest, keys, idx + size);
    assert ([node] + keys)[1..] == keys;
  }

  /** A static placement of at least one MiB survives the configuration round trip unchanged,
      and one of less loses all its NUMA nodes (PlacementLost). */
  lemma PlacementSurvives(t: CPUTopology, op: VM, cpus: set<int>, id: int, vm: VM)
    requires op.numaNodes == map[] && cpus != {} && cpus <= t.cpuDetails.Keys
    requires Reads(Reported(id, OptionsOf(PlacedVM(t, op, cpus))), vm)
    ensures vm.cpus == op.cpus && vm.cpuSet == cpus && vm.memory == (op.memory / 1024 / 1024) * MIB
    ensures vm.numaNodes == PlacedVM(t, op, cpus).numaNodes <==> op.memory >= MIB
  {
    var placed := PlacedVM(t, op, cpus);
    PlacementLayout(t, op, cpus);
    LayoutHasCPUs(t.cpuDetails, cpus, op.memory / 1024 / 1024, placed.numaNodes);
    ReadBack(placed, id, vm);
    RoundTripIff(placed, id, vm);
    PlacedConsecutive(t, op, cpus);
    MiBs(op.memory);
  }

  lemma PlacementLost(t: CPUTopology, op: VM, cpus: set<int>, id: int, vm: VM)
    requires op.numaNodes == map[] && cpus != {} && cpus <= t.cpuDetails.Keys && op.memory < MIB
    requires Reads(Reported(id, OptionsOf(PlacedVM(t, op, cpus))), vm)
    ensures vm.numaNodes == map[]
  {
    var placed := PlacedVM(t, op, cpus);
    PlacementLayout(t, op, cpus);
    LayoutHasCPUs(t.cpuDetails, cpus, op.memory / 1024 / 1024, placed.numaNodes);
    ReadBack(placed, id, vm);
    MiBs(op.memory);
    NothingRead(placed.numaNodes, List(placed.numaNodes.Keys), vm.numaNodes);
  }

  lemma NothingRead(nodes: map<int, NumaState>, keys: seq<int>, read: map<int, NumaState>)
    requires Listed(keys, nodes) && |Entries(nodes, keys, 0)| == |keys| && ReadNodes(Entries(nodes, keys, 0), keys, read)
    requires forall k :: k in nodes ==> nodes[k].memory == 0
    ensures read == map[]
  {
    EntriesAre(nodes, keys, 0);
    forall i | 0 <= i < |keys| ensures keys[i] !in read {
      var k := keys[i];
      assert k in nodes && nodes[k].memory == 0;
      assert Entries(nodes, keys, 0)[i].memory == nodes[k].memory;
    }
    forall h ensures h !in read {
      assert h in read ==> h in keys;
    }
  }

  lemma MiBs(memory: nat)
    ensures memory / 1024 / 1024 > 0 <==> memory >= MIB
  {
  }

  lemma LayoutHasCPUs(d: CPUDetails, cpus: set<int>, mem: nat, guest: map<int, NumaState>)
    requires Layout(d, cpus, mem, guest) && cpus != {} && cpus <= d.Keys
    ensures EveryNodeHasCPUs(guest) && guest.Keys != {}
    ensures (forall k :: k in guest.Keys ==> guest[k].memory > 0) <==> mem > 0
  {
    forall k | k in guest.Keys ensures guest[k].cpus != {} {
      NonEmptySize(cpus * Members(d, Numa, k));
      NonEmptySize(guest[k].cpus);
    }
    var c := Pick(cpus);
    var u := UnitOf(d, Numa, c);
    assert c in cpus * Members(d, Numa, u);
    assert u in guest.Keys && guest[u].memory == mem;
  }

  lemma NumberedByList(nodes: map<int, NumaState>, keys: seq<int>)
    requires NumberedBy(nodes, keys, 0)
    ensures Consecutive(nodes)
  {
    forall k ensures k in Elements(keys) <==> k in nodes.Keys {
      if k in keys {
        var i := IndexOf(keys, k);
      }
    }
    AscendingIsList(keys, nodes.Keys);
  }

  lemma PlacedConsecutive(t: CPUTopology, op: VM, cpus: set<int>)
    requires op.numaNodes == map[]
    ensures Consecutive(PlacedVM(t, op, cpus).numaNodes)
  {
    var nodes := HostNodes(t.cpuDetails);
    var guest := GuestNodes(t.cpuDetails, cpus, nodes, 0, op.memory / 1024 / 1024);
    var keys := GuestsConsecutive(t.cpuDetails, cpus, nodes, 0, op.memory / 1024 / 1024);
    NumberedByList(guest, keys);
    NothingPreset(op.numaNodes, GuestNodes(t.cpuDetails, cpus, nodes, 0, op.memory / 1024 / 1024));
  }
}
