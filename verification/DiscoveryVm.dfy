/** The scheduler describes its host by the configuration of a VM that never runs; the resource
    manager reads the NUMA layout of the host back out of it. */
module DiscoveryVm {
  import opened Sorting
  import opened Topology
  import opened PolicyModel
  import opened NodeSettings
  import opened VmConfig
  import opened VmRoundTrip

  const GIB := 1024 * 1024 * 1024

  /** A NUMA node of the host as the machine reports it: its id and its memory in bytes. */
  datatype HostNode = HostNode(id: int, memory: nat)

  /** The memory written down for a node, in MiB: whole GiB, one of them held back when there
      is more than one. */
  function Offered(memory: nat): nat {
    var gib := memory / GIB;
    (if gib > 1 then gib - 1 else gib) * 1024
  }

  // ---- writing

  method BuildVMOptions(cores: int, memory: nat, nodes: seq<HostNode>, d: CPUDetails) returns (o: Options)
    ensures o == VMOptions(cores, memory, nodes, d)
  {
    var totalMemoryMB: nat := memory / (1024 * 1024);
    if |nodes| == 0 {
      return Options(cores, totalMemoryMB, [], true, []);
    }
    var draft := Draft([], [], 0, 0);
    assert nodes[0..] == nodes;
    for k := 0 to |nodes|
      invariant DraftAll(d, nodes[k..], draft) == DraftAll(d, nodes, Draft([], [], 0, 0))
    {
      assert nodes[k..][0] == nodes[k] && nodes[k..][1..] == nodes[k + 1..];
      var cpus := Members(d, Numa, nodes[k].id);
      if |cpus| > 0 {
        draft := WriteNode(draft, nodes[k], cpus);
      }
    }
    assert nodes[|nodes|..] == [];
    return Options(cores, draft.totalMemoryMB, draft.affinity, true, draft.numas);
  }

  /** What the loop over the nodes has written so far. */
  datatype Draft = Draft(affinity: CPUList, numas: seq<NumaEntry>, totalMemoryMB: nat, cpush: nat)

  function NewEntry(cpush: nat, node: HostNode, cpus: set<int>): NumaEntry {
    NumaEntry(Range(cpush, cpush + |cpus|), {node.id}, Offered(node.memory), "")
  }

  function WriteNode(draft: Draft, node: HostNode, cpus: set<int>): Draft {
    Draft(draft.affinity + Format(cpus),
          draft.numas + [NewEntry(draft.cpush, node, cpus)],
          draft.totalMemoryMB + Offered(node.memory), draft.cpush + |cpus|)
  }

  function DraftAll(d: CPUDetails, nodes: seq<HostNode>, draft: Draft): Draft
    decreases |nodes|
  {
    if nodes == [] then draft
    else
      var cpus := Members(d, Numa, nodes[0].id);
      DraftAll(d, nodes[1..], if |cpus| > 0 then WriteNode(draft, nodes[0], cpus) else draft)
  }

  function VMOptions(cores: int, memory: nat, nodes: seq<HostNode>, d: CPUDetails): Options {
    if nodes == [] then Options(cores, memory / (1024 * 1024), [], true, [])
    else
      var draft := DraftAll(d, nodes, Draft([], [], 0, 0));
      Options(cores, draft.totalMemoryMB, draft.affinity, true, draft.numas)
  }

  // ---- reading

  /** The host CPUs behind some guest CPUs: guest CPU i is the i-th of the affinity list. */
  function Picked(cpuList: seq<int>, ids: set<int>): set<int> {
    set c | c in ids && 0 <= c < |cpuList| :: cpuList[c]
  }

  predicate InList(cpuList: seq<int>, ids: set<int>) {
    forall c :: c in ids ==> 0 <= c < |cpuList|
  }

  ghost predicate AllInList(cpuList: seq<int>, nodes: map<int, NumaState>) {
    forall h :: h in nodes.Keys ==> InList(cpuList, nodes[h].cpus)
  }

  function InfoOf(cpuList: seq<int>, state: NumaState): NUMAInfo {
    NUMAInfo(Picked(cpuList, state.cpus), state.memory * MIB)
  }

  /** The settings' NUMA nodes once those of the VM are written over them. */
  function Overlay(before: map<int, NUMAInfo>, cpuList: seq<int>, nodes: map<int, NumaState>): map<int, NUMAInfo> {
    map h | h in before.Keys + nodes.Keys :: if h in nodes then InfoOf(cpuList, nodes[h]) else before[h]
  }

  function WithFallback(nodes: map<int, NUMAInfo>, vm: VM): map<int, NUMAInfo> {
    if nodes.Keys == {} && vm.cpuSet != {} then map[0 := NUMAInfo(vm.cpuSet, vm.memory)] else nodes
  }

  /** Settings a VM can be read as. */
  ghost predicate ReadAs(m: VirtualMachine, before: map<int, NUMAInfo>, vm: VM, nodes: map<int, NUMAInfo>) {
    var cpuList := Flatten(m.config.affinity);
    && Reads(m, vm) && AllInList(cpuList, vm.numaNodes)
    && nodes == WithFallback(Overlay(before, cpuList, vm.numaNodes), vm)
  }

  /** A VM whose guest CPUs go beyond its affinity list. */
  ghost predicate Exceeds(m: VirtualMachine, vm: VM) {
    Reads(m, vm) && !AllInList(Flatten(m.config.affinity), vm.numaNodes)
  }

  method NodeSettingsFromVM(m: VirtualMachine, before: map<int, NUMAInfo>)
    returns (ok: bool, nodes: map<int, NUMAInfo>)
    ensures ok ==> exists vm :: ReadAs(m, before, vm, nodes)
    ensures !ok ==> (m.config.numa && !AllSplit(m.config.numas)) || exists vm :: Exceeds(m, vm)
  {
    var r := GetResourceFromVM(m);
    if r.Uneven? {
      return false, before;
    }
    var cpuList := PartByPart(m.config.affinity);
    ok, nodes := OverlayAll(before, cpuList, r.vm.numaNodes);
    if !ok {
      assert Exceeds(m, r.vm);
      return;
    }
    if nodes.Keys == {} && r.vm.cpuSet != {} {
      nodes := nodes[0 := NUMAInfo(r.vm.cpuSet, r.vm.memory)];
    }
    assert ReadAs(m, before, r.vm, nodes);
  }

  method PartByPart(affinity: CPUList) returns (cpuList: seq<int>)
    ensures cpuList == Flatten(affinity)
  {
    cpuList := [];
    for i := 0 to |affinity|
      invariant cpuList + Flatten(affinity[i..]) == Flatten(affinity)
    {
      assert affinity[i..][0] == affinity[i] && affinity[i..][1..] == affinity[i + 1..];
      AppendMoves(cpuList, Ascending(affinity[i].lo, affinity[i].hi), Flatten(affinity[i + 1..]));
      cpuList := cpuList + Ascending(affinity[i].lo, affinity[i].hi);
    }
  }

  method OverlayAll(before: map<int, NUMAInfo>, cpuList: seq<int>, numaNodes: map<int, NumaState>)
    returns (ok: bool, nodes: map<int, NUMAInfo>)
    ensures ok <==> AllInList(cpuList, numaNodes)
    ensures ok ==> nodes == Overlay(before, cpuList, numaNodes)
  {
    nodes := before;
    var todo := numaNodes.Keys;
    while todo != {}
      invariant todo <= numaNodes.Keys && InListBut(cpuList, numaNodes, todo)
      invariant nodes == Overlay(before, cpuList, numaNodes - todo)
      decreases |todo|
    {
      var h := AnyOf(todo);
      var fits, info := ReadNode(cpuList, numaNodes[h]);
      if !fits {
        NotInList(cpuList, numaNodes, h);
        return false, nodes;
      }
      OverlayOneMore(before, cpuList, numaNodes, todo, h);
      nodes := nodes[h := info];
      todo := todo - {h};
    }
    assert numaNodes - {} == numaNodes;
    return true, nodes;
  }

  ghost predicate InListBut(cpuList: seq<int>, nodes: map<int, NumaState>, todo: set<int>) {
    forall h :: h in nodes.Keys && h !in todo ==> InList(cpuList, nodes[h].cpus)
  }

  lemma NotInList(cpuList: seq<int>, nodes: map<int, NumaState>, h: int)
    requires h in nodes && !InList(cpuList, nodes[h].cpus)
    ensures !AllInList(cpuList, nodes)
  {
    assert h in nodes.Keys;
  }

  method ReadNode(cpuList: seq<int>, state: NumaState) returns (ok: bool, info: NUMAInfo)
    ensures ok <==> InList(cpuList, state.cpus)
    ensures ok ==> info == InfoOf(cpuList, state)
  {
    var cpus;
    ok, cpus := PickCPUs(cpuList, state.cpus);
    info := NUMAInfo(cpus, state.memory * MIB);
  }

  lemma OverlayOneMore(before: map<int, NUMAInfo>, cpuList: seq<int>, nodes: map<int, NumaState>, todo: set<int>, h: int)
    requires h in todo && todo <= nodes.Keys
    ensures Overlay(before, cpuList, nodes - (todo - {h})) == Overlay(before, cpuList, nodes - todo)[h := InfoOf(cpuList, nodes[h])]
  {
  }

  /** The host CPUs of one node; ids are never negative, so only the upper bound can fail. */
  method PickCPUs(cpuList: seq<int>, ids: set<int>) returns (ok: bool, cpus: set<int>)
    ensures ok <==> InList(cpuList, ids)
    ensures ok ==> cpus == Picked(cpuList, ids)
  {
    ok, cpus := PickEach(cpuList, List(ids));
    assert Elements(List(ids)) == ids;
  }

  method PickEach(cpuList: seq<int>, list: seq<int>) returns (ok: bool, cpus: set<int>)
    ensures ok <==> InList(cpuList, Elements(list))
    ensures ok ==> cpus == Picked(cpuList, Elements(list))
  {
    cpus := {};
    for i := 0 to |list|
      invariant InList(cpuList, Elements(list[..i])) && cpus == Picked(cpuList, Elements(list[..i]))
    {
      if !(0 <= list[i] < |cpuList|) {
        assert list[i] in Elements(list);
        return false, cpus;
      }
      PickOneMore(cpuList, list, i);
      cpus := cpus + {cpuList[list[i]]};
    }
    assert list[..|list|] == list;
    return true, cpus;
  }

  lemma PickOneMore(cpuList: seq<int>, list: seq<int>, i: nat)
    requires i < |list| && 0 <= list[i] < |cpuList| && InList(cpuList, Elements(list[..i]))
    ensures InList(cpuList, Elements(list[..i + 1]))
    ensures Picked(cpuList, Elements(list[..i + 1])) == Picked(cpuList, Elements(list[..i])) + {cpuList[list[i]]}
  {
    assert list[..i + 1] == list[..i] + [list[i]];
    assert Elements(list[..i + 1]) == Elements(list[..i]) + {list[i]};
    PickedAdd(cpuList, Elements(list[..i]), list[i]);
  }

  lemma PickedAdd(cpuList: seq<int>, ids: set<int>, c: int)
    requires 0 <= c < |cpuList|
    ensures Picked(cpuList, ids + {c}) == Picked(cpuList, ids) + {cpuList[c]}
  {
    forall x ensures x in Picked(cpuList, ids + {c}) <==> x in Picked(cpuList, ids) + {cpuList[c]} {
      if x == cpuList[c] {
        assert c in ids + {c};
      }
      if x in Picked(cpuList, ids) {
        var k :| k in ids && 0 <= k < |cpuList| && cpuList[k] == x;
        assert k in ids + {c};
      }
    }
  }

  // ---- what is written

  /** The nodes that are written down. */
  function WrittenNodes(d: CPUDetails, nodes: seq<HostNode>): seq<HostNode> {
    if nodes == [] then []
    else (if |Members(d, Numa, nodes[0].id)| > 0 then [nodes[0]] else []) + WrittenNodes(d, nodes[1..])
  }

  function SumMemory(numas: seq<NumaEntry>): nat {
    if numas == [] then 0 else SumMemory(numas[..|numas| - 1]) + numas[|numas| - 1].memory
  }

  /** An entry that says where the CPUs of a node are in the list, and what memory it offers. */
  ghost predicate Tells(d: CPUDetails, cpuList: seq<int>, e: NumaEntry, node: HostNode) {
    && e.hosts == {node.id} && e.cpus != {} && e.memory == Offered(node.memory) && e.policy == ""
    && InList(cpuList, e.cpus) && Picked(cpuList, e.cpus) == Members(d, Numa, node.id)
  }

  /** The draft has one telling entry for every node written. */
  ghost predicate Telling(d: CPUDetails, draft: Draft, written: seq<HostNode>) {
    && |draft.numas| == |written| && draft.cpush == |Flatten(draft.affinity)|
    && draft.totalMemoryMB == SumMemory(draft.numas)
    && (forall i :: 0 <= i < |written| ==> Tells(d, Flatten(draft.affinity), draft.numas[i], written[i]))
  }

  /** A run of the affinity list gives back the node's CPUs. */
  lemma PickRun(pre: seq<int>, cpus: set<int>)
    ensures var range := Range(|pre|, |pre| + |cpus|);
      InList(pre + List(cpus), range) && Picked(pre + List(cpus), range) == cpus
  {
    PickTail(pre, List(cpus));
    assert Elements(List(cpus)) == cpus;
  }

  lemma PickTail(pre: seq<int>, tail: seq<int>)
    ensures var range := Range(|pre|, |pre| + |tail|);
      InList(pre + tail, range) && Picked(pre + tail, range) == Elements(tail)
  {
    var list, range := pre + tail, Range(|pre|, |pre| + |tail|);
    RangeSize(|pre|, |pre| + |tail|);
    forall c | c in range ensures 0 <= c < |list| && list[c] == tail[c - |pre|] {
    }
    forall x | x in tail ensures x in Picked(list, range) {
      var i := IndexOf(tail, x);
      assert |pre| + i in range && list[|pre| + i] == x;
    }
  }

  /** A longer list still tells the same. */
  lemma TellsLonger(d: CPUDetails, cpuList: seq<int>, more: seq<int>, e: NumaEntry, node: HostNode)
    requires Tells(d, cpuList, e, node)
    ensures Tells(d, cpuList + more, e, node)
  {
    forall c | c in e.cpus ensures 0 <= c < |cpuList| && (cpuList + more)[c] == cpuList[c] {
    }
    assert Picked(cpuList + more, e.cpus) == Picked(cpuList, e.cpus);
  }

  lemma NewTells(d: CPUDetails, pre: seq<int>, node: HostNode)
    requires |Members(d, Numa, node.id)| > 0
    ensures var cpus := Members(d, Numa, node.id);
      Tells(d, pre + List(cpus), NewEntry(|pre|, node, cpus), node)
  {
    PickRun(pre, Members(d, Numa, node.id));
    RangeSize(|pre|, |pre| + |Members(d, Numa, node.id)|);
  }

  lemma WriteTelling(d: CPUDetails, draft: Draft, written: seq<HostNode>, node: HostNode)
    requires Telling(d, draft, written) && |Members(d, Numa, node.id)| > 0
    ensures Telling(d, WriteNode(draft, node, Members(d, Numa, node.id)), written + [node])
  {
    var cpus := Members(d, Numa, node.id);
    WriteGrows(draft, node, cpus);
    NewTells(d, Flatten(draft.affinity), node);
    TellingMore(d, draft, written, node, WriteNode(draft, node, cpus), List(cpus),
                NewEntry(|Flatten(draft.affinity)|, node, cpus));
  }

  lemma WriteGrows(draft: Draft, node: HostNode, cpus: set<int>)
    requires draft.cpush == |Flatten(draft.affinity)|
    ensures var next := WriteNode(draft, node, cpus);
      && Flatten(next.affinity) == Flatten(draft.affinity) + List(cpus)
      && next.cpush == |Flatten(next.affinity)|
      && SumMemory(next.numas) == SumMemory(draft.numas) + Offered(node.memory)
      && next.totalMemoryMB == draft.totalMemoryMB + Offered(node.memory)
      && |next.numas| == |draft.numas| + 1 && next.numas[..|draft.numas|] == draft.numas
      && next.numas[|draft.numas|] == NewEntry(|Flatten(draft.affinity)|, node, cpus)
  {
    FlattenAppend(draft.affinity, Format(cpus));
    FormatReads(cpus);
    var next := WriteNode(draft, node, cpus);
    assert next.numas[..|draft.numas|] == draft.numas;
  }

  lemma TellingMore(d: CPUDetails, draft: Draft, written: seq<HostNode>, node: HostNode, next: Draft, more: seq<int>,
                    e: NumaEntry)
    requires Telling(d, draft, written)
    requires |next.numas| == |draft.numas| + 1 && next.numas[..|draft.numas|] == draft.numas
    requires next.numas[|draft.numas|] == e
    requires next.cpush == |Flatten(next.affinity)| && next.totalMemoryMB == SumMemory(next.numas)
    requires Flatten(next.affinity) == Flatten(draft.affinity) + more
    requires Tells(d, Flatten(draft.affinity) + more, e, node)
    ensures Telling(d, next, written + [node])
  {
    var all := written + [node];
    forall i | 0 <= i < |all| ensures Tells(d, Flatten(next.affinity), next.numas[i], all[i]) {
      if i < |written| {
        assert next.numas[i] == draft.numas[i];
        TellsLonger(d, Flatten(draft.affinity), more, draft.numas[i], written[i]);
      }
    }
  }

  lemma {:induction false} DraftTelling(d: CPUDetails, nodes: seq<HostNode>, draft: Draft, written: seq<HostNode>)
    requires Telling(d, draft, written)
    ensures Telling(d, DraftAll(d, nodes, draft), written + WrittenNodes(d, nodes))
    decreases |nodes|
  {
    if nodes == [] {
      assert written + [] == written;
    } else {
      var cpus, rest := Members(d, Numa, nodes[0].id), WrittenNodes(d, nodes[1..]);
      if |cpus| > 0 {
        WriteTelling(d, draft, written, nodes[0]);
        DraftTelling(d, nodes[1..], WriteNode(draft, nodes[0], cpus), written + [nodes[0]]);
        AppendMoves(written, [nodes[0]], rest);
      } else {
        DraftTelling(d, nodes[1..], draft, written);
        assert WrittenNodes(d, nodes) == rest;
      }
    }
  }

  ghost predicate DistinctIds(nodes: seq<HostNode>) {
    forall i, j :: 0 <= i < j < |nodes| ==> nodes[i].id != nodes[j].id
  }

  lemma {:induction false} WrittenAre(d: CPUDetails, nodes: seq<HostNode>)
    ensures forall x :: x in WrittenNodes(d, nodes) <==> x in nodes && |Members(d, Numa, x.id)| > 0
    ensures DistinctIds(nodes) ==> DistinctIds(WrittenNodes(d, nodes))
    decreases |nodes|
  {
    if nodes != [] {
      var first, rest := nodes[0], nodes[1..];
      var tail := WrittenNodes(d, rest);
      WrittenAre(d, rest);
      assert nodes == [first] + rest;
      if DistinctIds(nodes) {
        forall i | 0 <= i < |tail| ensures tail[i].id != first.id {
          assert tail[i] in rest;
          var k := IndexOf(rest, tail[i]);
          assert nodes[k + 1] == tail[i];
        }
      }
    }
  }

  // ---- faithful

  /** The bytes a node with at least one GiB offers: its whole GiB, less one if it has two. */
  ghost function OfferedBytes(memory: nat): nat {
    (if memory >= 2147483648 then memory / 1073741824 - 1 else memory / 1073741824) * 1073741824
  }

  lemma OfferedIs(memory: nat)
    ensures Offered(memory) * MIB == OfferedBytes(memory)
    ensures Offered(memory) > 0 <==> memory >= 1073741824
  {
  }

  /** What the host's settings should come out as: every node with CPUs and at least one GiB,
      with exactly its CPUs and the memory it offers. */
  ghost predicate Faithful(d: CPUDetails, nodes: seq<HostNode>, settings: map<int, NUMAInfo>) {
    && (forall h :: h in settings ==> exists n :: n in nodes && n.id == h)
    && (forall n :: n in nodes ==> (n.id in settings <==> |Members(d, Numa, n.id)| > 0 && n.memory >= 1073741824))
    && (forall n :: n in nodes && n.id in settings ==>
          settings[n.id] == NUMAInfo(Members(d, Numa, n.id), OfferedBytes(n.memory)))
  }

  function Ids(nodes: seq<HostNode>): (ids: seq<int>)
    ensures |ids| == |nodes| && forall i :: 0 <= i < |nodes| ==> ids[i] == nodes[i].id
  {
    seq(|nodes|, i requires 0 <= i < |nodes| => nodes[i].id)
  }

  /** Reading entries that tell of their nodes gives those nodes back. */
  lemma ReadTelling(d: CPUDetails, draft: Draft, written: seq<HostNode>, nodes: map<int, NumaState>)
    requires Telling(d, draft, written) && DistinctIds(written)
    requires Merged(AllPieces(Indexed(draft.numas)), Indexed(draft.numas).Keys, nodes)
    ensures ReadNodes(draft.numas, Ids(written), nodes)
  {
    forall i | 0 <= i < |written| ensures Tells(d, Flatten(draft.affinity), draft.numas[i], written[i]) {
    }
    assert Singles(draft.numas, Ids(written));
    SinglesRead(draft.numas, Ids(written), nodes);
  }

  /** A node as read: its CPUs are in the list, and it comes out with what it has and offers. */
  ghost predicate ReadRight(d: CPUDetails, cpuList: seq<int>, node: HostNode, state: NumaState) {
    && InList(cpuList, state.cpus)
    && InfoOf(cpuList, state) == NUMAInfo(Members(d, Numa, node.id), OfferedBytes(node.memory))
  }

  lemma NodeRead(d: CPUDetails, draft: Draft, written: seq<HostNode>, nodes: map<int, NumaState>, i: nat)
    requires Telling(d, draft, written) && i < |written| && ReadNodes(draft.numas, Ids(written), nodes)
    ensures written[i].id in nodes <==> written[i].memory >= 1073741824
    ensures written[i].id in nodes ==> ReadRight(d, Flatten(draft.affinity), written[i], nodes[written[i].id])
  {
    assert Tells(d, Flatten(draft.affinity), draft.numas[i], written[i]);
    assert Ids(written)[i] == written[i].id;
    OfferedIs(written[i].memory);
  }

  lemma OverlayFaithful(d: CPUDetails, draft: Draft, nodes: seq<HostNode>, written: seq<HostNode>, read: map<int, NumaState>)
    requires Telling(d, draft, written) && ReadNodes(draft.numas, Ids(written), read)
    requires forall x :: x in written <==> x in nodes && |Members(d, Numa, x.id)| > 0
    requires DistinctIds(nodes)
    ensures Faithful(d, nodes, Overlay(map[], Flatten(draft.affinity), read))
    ensures AllInList(Flatten(draft.affinity), read)
  {
    var settings := Overlay(map[], Flatten(draft.affinity), read);
    forall h | h in read ensures exists n :: n in nodes && n.id == h && n in written {
      var i := IndexOf(Ids(written), h);
      assert written[i] in written;
    }
    forall n | n in written
      ensures (n.id in read <==> n.memory >= 1073741824)
      ensures n.id in read ==> ReadRight(d, Flatten(draft.affinity), n, read[n.id])
    {
      var i := IndexOf(written, n);
      NodeRead(d, draft, written, read, i);
    }
    forall n | n in nodes && n.id in read ensures n in written {
      var w :| w in nodes && w.id == n.id && w in written;
      SameNode(nodes, n, w);
    }
  }

  lemma SameNode(nodes: seq<HostNode>, a: HostNode, b: HostNode)
    requires DistinctIds(nodes) && a in nodes && b in nodes && a.id == b.id
    ensures a == b
  {
    var i := IndexOf(nodes, a);
    var j := IndexOf(nodes, b);
    assert i == j;
  }

  /** The discovery VM is a faithful encoding: for distinct nodes, starting from no settings,
      reading back what was written gives exactly the nodes with CPUs and at least one GiB,
      with their CPUs and the memory they offer, and no reading is refused. */
  lemma DiscoveryVmFaithful(cores: int, memory: nat, nodes: seq<HostNode>, d: CPUDetails, id: int, vm: VM)
    requires DistinctIds(nodes) && Reads(Reported(id, VMOptions(cores, memory, nodes, d)), vm)
    ensures var cpuList := Flatten(VMOptions(cores, memory, nodes, d).affinity);
      && AllInList(cpuList, vm.numaNodes) && Faithful(d, nodes, Overlay(map[], cpuList, vm.numaNodes))
  {
    var draft := DraftAll(d, nodes, Draft([], [], 0, 0));
    var written := WrittenNodes(d, nodes);
    DraftTelling(d, nodes, Draft([], [], 0, 0), []);
    assert [] + written == written;
    WrittenAre(d, nodes);
    assert Reported(id, VMOptions(cores, memory, nodes, d)).config.numas == Indexed(draft.numas);
    ReadTelling(d, draft, written, vm.numaNodes);
    OverlayFaithful(d, draft, nodes, written, vm.numaNodes);
  }

  /** One host node per entry, so nothing can fail to split. */
  lemma DiscoveryVmSplits(cores: int, memory: nat, nodes: seq<HostNode>, d: CPUDetails, id: int)
    ensures AllSplit(Reported(id, VMOptions(cores, memory, nodes, d)).config.numas)
  {
    var draft, numas := DraftAll(d, nodes, Draft([], [], 0, 0)), Reported(id, VMOptions(cores, memory, nodes, d)).config.numas;
    DraftTelling(d, nodes, Draft([], [], 0, 0), []);
    forall k | k in numas && VmConfig.Counts(numas[k]) ensures Splits(numas[k]) {
      assert Tells(d, Flatten(draft.affinity), draft.numas[k], ([] + WrittenNodes(d, nodes))[k]);
    }
  }

  /** Some node has CPUs and at least one GiB. */
  ghost predicate Usable(d: CPUDetails, nodes: seq<HostNode>) {
    exists n :: n in nodes && |Members(d, Numa, n.id)| > 0 && n.memory >= 1073741824
  }

  /** So NodeSettingsFromVM never refuses the discovery VM and, as soon as one node has CPUs and
      one GiB, returns the faithful settings. */
  lemma DiscoveryVmReadable(cores: int, memory: nat, nodes: seq<HostNode>, d: CPUDetails, id: int,
                            settings: map<int, NUMAInfo>)
    requires DistinctIds(nodes)
    ensures var m := Reported(id, VMOptions(cores, memory, nodes, d));
      && AllSplit(m.config.numas) && (forall vm :: !Exceeds(m, vm))
      && (forall vm :: ReadAs(m, map[], vm, settings) && Usable(d, nodes) ==> Faithful(d, nodes, settings))
  {
    var m := Reported(id, VMOptions(cores, memory, nodes, d));
    DiscoveryVmSplits(cores, memory, nodes, d, id);
    forall vm | Reads(m, vm) ensures !Exceeds(m, vm) {
      DiscoveryVmFaithful(cores, memory, nodes, d, id, vm);
    }
    forall vm | ReadAs(m, map[], vm, settings) && Usable(d, nodes) ensures Faithful(d, nodes, settings) {
      DiscoveryVmFaithful(cores, memory, nodes, d, id, vm);
    }
  }

  // ---- the rest of what is written

  /** The MiB offered by the nodes with CPUs. */
  ghost function MiBOffered(d: CPUDetails, nodes: seq<HostNode>): nat {
    if nodes == [] then 0
    else
      (if exists c :: c in d && d[c].numaNodeID == nodes[0].id then OfferedBytes(nodes[0].memory) / 1048576 else 0)
      + MiBOffered(d, nodes[1..])
  }

  ghost predicate OnListed(d: CPUDetails, nodes: seq<HostNode>, c: int) {
    c in d && exists n :: n in nodes && n.id == d[c].numaNodeID
  }

  lemma HasCPUs(d: CPUDetails, node: HostNode)
    ensures |Members(d, Numa, node.id)| > 0 <==> exists c :: c in d && d[c].numaNodeID == node.id
  {
    if |Members(d, Numa, node.id)| > 0 {
      var c := Pick(Members(d, Numa, node.id));
      assert d[c].numaNodeID == node.id;
    }
    if exists c :: c in d && d[c].numaNodeID == node.id {
      var c :| c in d && d[c].numaNodeID == node.id;
      assert c in Members(d, Numa, node.id);
    }
  }

  lemma WriteTotals(draft: Draft, node: HostNode, cpus: set<int>)
    ensures var next := WriteNode(draft, node, cpus);
      && next.totalMemoryMB == draft.totalMemoryMB + OfferedBytes(node.memory) / 1048576
      && Elements(Flatten(next.affinity)) == Elements(Flatten(draft.affinity)) + cpus
  {
    OfferedIs(node.memory);
    FlattenAppend(draft.affinity, Format(cpus));
    FormatReads(cpus);
    assert Elements(List(cpus)) == cpus;
  }

  lemma ListedFirst(d: CPUDetails, nodes: seq<HostNode>, c: int)
    requires nodes != []
    ensures OnListed(d, nodes, c) <==> c in Members(d, Numa, nodes[0].id) || OnListed(d, nodes[1..], c)
  {
    assert nodes == [nodes[0]] + nodes[1..];
  }

  lemma {:induction false} DraftTotals(d: CPUDetails, nodes: seq<HostNode>, draft: Draft)
    ensures var last := DraftAll(d, nodes, draft);
      && last.totalMemoryMB == draft.totalMemoryMB + MiBOffered(d, nodes)
      && forall c :: c in Flatten(last.affinity) <==> c in Flatten(draft.affinity) || OnListed(d, nodes, c)
    decreases |nodes|
  {
    hide WriteNode, Members, OfferedBytes, Flatten;
    if nodes == [] {
      assert !exists c :: OnListed(d, nodes, c);
    } else {
      var cpus := Members(d, Numa, nodes[0].id);
      HasCPUs(d, nodes[0]);
      var next := if |cpus| > 0 then WriteNode(draft, nodes[0], cpus) else draft;
      WriteTotals(draft, nodes[0], cpus);
      DraftTotals(d, nodes[1..], next);
      forall c ensures c in Flatten(next.affinity) <==> c in Elements(Flatten(draft.affinity)) || c in cpus {
        assert c in Flatten(next.affinity) <==> c in Elements(Flatten(next.affinity));
      }
      forall c ensures OnListed(d, nodes, c) <==> c in cpus || OnListed(d, nodes[1..], c) {
        ListedFirst(d, nodes, c);
      }
    }
  }

  /** The discovery VM has the cores of the machine; with nodes listed, its memory is what they
      offer and its affinity are their CPUs, otherwise it has the memory of the machine. */
  lemma DiscoveryVmTotals(cores: int, memory: nat, nodes: seq<HostNode>, d: CPUDetails)
    ensures var o := VMOptions(cores, memory, nodes, d);
      && o.cores == cores && o.numa
      && o.memory == (if |nodes| == 0 then memory / 1048576 else MiBOffered(d, nodes))
      && forall c :: c in Parse(o.affinity) <==> OnListed(d, nodes, c)
  {
    DraftTotals(d, nodes, Draft([], [], 0, 0));
  }

  // ---- the rest of what is read

  /** The settings read off a VM's resources: guest CPU i of a node is the i-th of the affinity
      list and its memory is in MiB; nodes the VM does not name stay; with none at all the VM's
      own CPUs and memory become node 0. */
  ghost predicate SettingsFrom(cpuList: seq<int>, before: map<int, NUMAInfo>, vm: VM, nodes: map<int, NUMAInfo>) {
    if |before.Keys + vm.numaNodes.Keys| == 0 then
      if |vm.cpuSet| > 0 then nodes == map[0 := NUMAInfo(vm.cpuSet, vm.memory)] else nodes == map[]
    else
      && (forall h :: h in nodes <==> h in before || h in vm.numaNodes)
      && (forall h :: h in nodes ==>
            if h in vm.numaNodes then NodeFrom(cpuList, vm.numaNodes[h], nodes[h]) else nodes[h] == before[h])
  }

  ghost predicate NodeFrom(cpuList: seq<int>, state: NumaState, info: NUMAInfo) {
    && info.memSize == state.memory * 1048576
    && (forall i :: i in state.cpus ==> 0 <= i < |cpuList| && cpuList[i] in info.cpus)
    && (forall c :: c in info.cpus ==> exists i :: i in state.cpus && 0 <= i < |cpuList| && cpuList[i] == c)
  }

  /** What NodeSettingsFromVM reads, and when it refuses. */
  lemma SettingsRead(m: VirtualMachine, before: map<int, NUMAInfo>, vm: VM, nodes: map<int, NUMAInfo>)
    ensures ReadAs(m, before, vm, nodes) ==> SettingsFrom(Flatten(m.config.affinity), before, vm, nodes)
    ensures Exceeds(m, vm) <==> Reads(m, vm) && exists h, i ::
      h in vm.numaNodes && i in vm.numaNodes[h].cpus && !(0 <= i < |Flatten(m.config.affinity)|)
  {
    var cpuList := Flatten(m.config.affinity);
    if ReadAs(m, before, vm, nodes) {
      assert before.Keys + vm.numaNodes.Keys == {} <==> Overlay(before, cpuList, vm.numaNodes).Keys == {};
      forall h | h in vm.numaNodes ensures NodeFrom(cpuList, vm.numaNodes[h], InfoOf(cpuList, vm.numaNodes[h])) {
        assert h in vm.numaNodes.Keys;
      }
    }
    if exists h, i :: h in vm.numaNodes && i in vm.numaNodes[h].cpus && !(0 <= i < |cpuList|) {
      var h, i :| h in vm.numaNodes && i in vm.numaNodes[h].cpus && !(0 <= i < |cpuList|);
      assert h in vm.numaNodes.Keys;
    }
  }
}
