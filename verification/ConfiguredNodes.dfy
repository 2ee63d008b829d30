/** What a VM's configuration gives every host node, told entry by entry and CPU by CPU. */
module ConfiguredNodes {
  import opened Sorting
  import opened PolicyModel
  import opened VmConfig

  // ---- an entry that counts

  ghost predicate Counted(entries: map<int, NumaEntry>, k: int) {
    k in entries && entries[k].memory >= 1 && |entries[k].cpus| >= 1 && |entries[k].hosts| >= 1
  }

  ghost predicate Indivisible(entries: map<int, NumaEntry>, k: int) {
    Counted(entries, k) && |entries[k].hosts| >= 2 && |entries[k].cpus| % |entries[k].hosts| != 0
  }

  ghost function Below(s: set<int>, x: int): set<int> {
    set y | y in s && y < x
  }

  /** Entry k gives host node h its CPU c: the host nodes in ascending order take runs of equal
      length of the ascending CPUs. */
  ghost predicate Gives(entries: map<int, NumaEntry>, k: int, h: int, c: int) {
    Counted(entries, k) && h in entries[k].hosts && c in entries[k].cpus &&
    var e := entries[k];
    var each := |e.cpus| / |e.hosts|;
    |Below(e.hosts, h)| * each <= |Below(e.cpus, c)| < |Below(e.hosts, h)| * each + each
  }

  /** The memory that the entries with these numbers give host node h. */
  ghost function MemoryFrom(entries: map<int, NumaEntry>, ids: set<int>, h: int): nat
    decreases |ids|
  {
    if ids == {} then 0
    else
      var k := First(map i | i in ids :: 0, ids);
      (if Counted(entries, k) && h in entries[k].hosts then entries[k].memory / |entries[k].hosts| else 0)
      + MemoryFrom(entries, ids - {k}, h)
  }

  /** The nodes of a configuration: those its entries name, with the CPUs and the memory the
      entries give them and the policy of one of the entries. */
  ghost predicate NodesFrom(entries: map<int, NumaEntry>, nodes: map<int, NumaState>) {
    && (forall h :: h in nodes <==> exists k :: Counted(entries, k) && h in entries[k].hosts)
    && (forall h, c :: h in nodes ==> (c in nodes[h].cpus <==> exists k :: Gives(entries, k, h, c)))
    && (forall h :: h in nodes ==> nodes[h].memory == MemoryFrom(entries, entries.Keys, h))
    && (forall h :: h in nodes ==>
          exists k :: Counted(entries, k) && h in entries[k].hosts && nodes[h].policy == entries[k].policy)
  }

  ghost predicate InList(l: CPUList, i: int, c: int) {
    0 <= i < |l| && l[i].lo <= c <= l[i].hi
  }

  /** The VM as its configuration has it. */
  ghost predicate Configured(m: VirtualMachine, vm: VM) {
    && vm.id == m.id && vm.cpus == m.cpus && vm.memory == m.maxMem
    && (forall c :: c in vm.cpuSet <==> exists i :: InList(m.config.affinity, i, c))
    && (if m.config.numa then NodesFrom(m.config.numas, vm.numaNodes) else vm.numaNodes == map[])
  }

  // ---- CPU lists

  lemma {:induction false} Parsed(l: CPUList, c: int)
    ensures c in Parse(l) <==> exists i :: InList(l, i, c)
    decreases |l|
  {
    if l == [] {
      assert forall i :: !InList(l, i, c);
    } else {
      var head, rest := Ascending(l[0].lo, l[0].hi), l[1..];
      Parsed(rest, c);
      assert c in Flatten(l) <==> c in head || c in Flatten(rest);
      assert c in head <==> l[0].lo <= c <= l[0].hi by {
        if l[0].lo <= c <= l[0].hi {
          assert head[c - l[0].lo] == c;
        }
      }
      if exists i :: InList(rest, i, c) {
        var i :| InList(rest, i, c);
        assert InList(l, i + 1, c);
      }
      if exists i :: InList(l, i, c) {
        var i :| InList(l, i, c);
        assert i > 0 ==> InList(rest, i - 1, c);
      }
      assert l[0].lo <= c <= l[0].hi ==> InList(l, 0, c);
    }
  }

  /** A set is written with as few ranges as possible, in ascending order. */
  ghost predicate Apart(l: CPUList) {
    && (forall i :: 0 <= i < |l| ==> l[i].lo <= l[i].hi)
    && (forall i :: 0 < i < |l| ==> l[i - 1].hi + 1 < l[i].lo)
  }

  lemma {:induction false} RunsApart(ids: seq<int>)
    requires forall i, j :: 0 <= i < j < |ids| ==> ids[i] < ids[j]
    ensures Apart(Runs(ids))
    decreases |ids|
  {
    if ids != [] {
      RunsApart(ids[1..]);
      var rest, l := Runs(ids[1..]), Runs(ids);
      if rest != [] && rest[0].lo == ids[0] + 1 {
        assert forall i :: 0 < i < |l| ==> l[i] == rest[i];
        assert l[0].hi == rest[0].hi;
      } else {
        assert forall i :: 0 < i < |l| ==> l[i] == rest[i - 1];
        assert rest != [] ==> rest[0].lo == ids[1] > ids[0];
      }
    }
  }

  lemma FormatApart(s: set<int>)
    ensures Apart(Format(s))
  {
    RunsApart(List(s));
  }

  // ---- shares by rank

  lemma BelowAt(l: seq<int>, s: set<int>, i: nat)
    requires Elements(l) == s && i < |l| && forall a, b :: 0 <= a < b < |l| ==> l[a] < l[b]
    ensures Below(s, l[i]) == Elements(l[..i]) && |Below(s, l[i])| == i
  {
    forall y ensures y in Below(s, l[i]) <==> y in l[..i] {
      if y in Below(s, l[i]) {
        var j := IndexOf(l, y);
        assert l[..i][j] == y;
      }
    }
    NoDupSize(l[..i]);
  }

  lemma Rank(s: set<int>, x: int)
    requires x in s
    ensures IndexIn(List(s), x) == |Below(s, x)|
  {
    hide Below;
    assert Elements(List(s)) == s;
    BelowAt(List(s), s, IndexIn(List(s), x));
  }

  lemma InSlice(l: seq<int>, k: nat, lo: nat, hi: nat)
    requires NoDup(l) && k < |l| && lo <= hi <= |l|
    ensures l[k] in Elements(l[lo..hi]) <==> lo <= k < hi
  {
    if l[k] in l[lo..hi] {
      var j := IndexOf(l[lo..hi], l[k]);
      assert l[lo + j] == l[k];
    }
    assert lo <= k < hi ==> l[lo..hi][k - lo] == l[k];
  }

  lemma InSliceOf(s: set<int>, c: int, lo: nat, hi: nat)
    requires lo <= hi <= |s|
    ensures c in Elements(List(s)[lo..hi]) <==> c in s && lo <= |Below(s, c)| < hi
  {
    hide Below;
    var l := List(s);
    if c in s {
      Rank(s, c);
      InSlice(l, IndexIn(l, c), lo, hi);
    } else {
      assert c in l[lo..hi] ==> c in l;
    }
  }

  lemma ShareByRank(e: NumaEntry, h: int, c: int)
    requires Counts(e) && Splits(e) && h in e.hosts
    ensures var each, i := |e.cpus| / |e.hosts|, |Below(e.hosts, h)|;
      c in Share(e, h) <==> c in e.cpus && i * each <= |Below(e.cpus, c)| < i * each + each
  {
    hide Below, SliceOf;
    var each, i := PerHost(e), IndexIn(List(e.hosts), h);
    Rank(e.hosts, h);
    SliceIs(e, i);
    NextSlice(i, each);
    InSliceOf(e.cpus, c, i * each, (i + 1) * each);
  }

  lemma NextSlice(i: nat, each: nat)
    ensures (i + 1) * each == i * each + each
  {
  }

  lemma PieceIs(e: NumaEntry)
    ensures Pieces(e) == map[] || (e.memory >= 1 && |e.cpus| >= 1 && |e.hosts| >= 1)
    ensures e.memory >= 1 && |e.cpus| >= 1 && |e.hosts| >= 1 ==> Counts(e) && Pieces(e).Keys == e.hosts
    ensures forall h :: h in Pieces(e) ==> Pieces(e)[h].policy == e.policy && Pieces(e)[h].memory == e.memory / |e.hosts|
    ensures Counts(e) ==> forall h :: h in Pieces(e) ==> h in e.hosts && Pieces(e)[h].cpus == Share(e, h)
  {
    if Counts(e) {
      PieceKeys(e);
    }
  }

  lemma FeedsIff(entries: map<int, NumaEntry>, k: int, h: int)
    ensures Feeds(AllPieces(entries), k, h) <==> Counted(entries, k) && h in entries[k].hosts
    ensures Feeds(AllPieces(entries), k, h) ==>
      var piece := AllPieces(entries)[k][h];
      && piece.policy == entries[k].policy && piece.memory == entries[k].memory / |entries[k].hosts|
      && Counts(entries[k]) && piece.cpus == Share(entries[k], h)
  {
    if k in entries {
      PieceIs(entries[k]);
    }
  }

  lemma GivesIff(entries: map<int, NumaEntry>, k: int, h: int, c: int)
    requires AllSplit(entries)
    ensures Gives(entries, k, h, c) <==> Feeds(AllPieces(entries), k, h) && c in AllPieces(entries)[k][h].cpus
  {
    FeedsIff(entries, k, h);
    if Counted(entries, k) && h in entries[k].hosts {
      ShareByRank(entries[k], h, c);
    }
  }

  /** A host node of an entry: its run of CPUs and its share of the memory are added, and the
      entry's policy takes the place of the one there was. */
  ghost predicate Added(before: map<int, NumaState>, e: NumaEntry, h: int, after: NumaState)
    requires |e.hosts| > 0
  {
    && after.policy == e.policy
    && after.memory == (if h in before then before[h].memory else 0) + e.memory / |e.hosts|
    && forall c :: c in after.cpus <==> (h in before && c in before[h].cpus) || Gives(map[0 := e], 0, h, c)
  }

  lemma GrownAdded(before: map<int, NumaState>, e: NumaEntry, h: int, piece: NumaState)
    requires Counts(e) && Splits(e) && h in e.hosts && piece == NumaState(Share(e, h), e.memory / |e.hosts|, e.policy)
    ensures Added(before, e, h, Grown(Known(before, h), piece))
  {
    hide Share, Below;
    var entries := map[0 := e];
    assert Counted(entries, 0) && entries[0] == e;
    forall c ensures c in piece.cpus <==> Gives(entries, 0, h, c) {
      ShareByRank(e, h, c);
    }
  }

  /** What one entry that counts makes of the nodes read so far. */
  lemma EntryAdds(before: map<int, NumaState>, e: NumaEntry)
    requires Counts(e) ==> Splits(e)
    ensures var after := AddPieces(before, Pieces(e), Pieces(e).Keys);
      if e.memory == 0 || |e.cpus| == 0 || |e.hosts| == 0 then after == before
      else
        && after.Keys == before.Keys + e.hosts
        && forall h :: h in after ==> if h in e.hosts then Added(before, e, h, after[h]) else after[h] == before[h]
  {
    hide Added, Share;
    PieceIs(e);
    if Counts(e) {
      PieceKeys(e);
      forall h | h in e.hosts ensures Added(before, e, h, Grown(Known(before, h), Pieces(e)[h])) {
        GrownAdded(before, e, h, Pieces(e)[h]);
      }
    }
  }

  lemma {:induction false} MemoryIs(entries: map<int, NumaEntry>, ids: set<int>, h: int)
    ensures MemoryOn(AllPieces(entries), ids, h) == MemoryFrom(entries, ids, h)
    decreases |ids|
  {
    if ids != {} {
      var k := First(map i | i in ids :: 0, ids);
      FeedsIff(entries, k, h);
      MemoryIs(entries, ids - {k}, h);
    }
  }

  lemma NodeIs(entries: map<int, NumaEntry>, h: int, state: NumaState)
    requires AllSplit(entries) && Right(AllPieces(entries), entries.Keys, h, state)
    ensures forall c :: c in state.cpus <==> exists k :: Gives(entries, k, h, c)
    ensures state.memory == MemoryFrom(entries, entries.Keys, h)
    ensures exists k :: Counted(entries, k) && h in entries[k].hosts && state.policy == entries[k].policy
  {
    var pieces := AllPieces(entries);
    MemoryIs(entries, entries.Keys, h);
    forall c ensures c in state.cpus <==> exists k :: Gives(entries, k, h, c) {
      if c in state.cpus {
        var k :| k in entries.Keys && Feeds(pieces, k, h) && c in pieces[k][h].cpus;
        GivesIff(entries, k, h, c);
      }
      if exists k :: Gives(entries, k, h, c) {
        var k :| Gives(entries, k, h, c);
        GivesIff(entries, k, h, c);
        assert k in entries.Keys;
      }
    }
    var k :| k in entries.Keys && Feeds(pieces, k, h) && pieces[k][h].policy == state.policy;
    FeedsIff(entries, k, h);
  }

  /** Merging the entries, in whatever order, gives exactly these nodes. */
  lemma MergedAre(entries: map<int, NumaEntry>, nodes: map<int, NumaState>)
    requires AllSplit(entries) && Merged(AllPieces(entries), entries.Keys, nodes)
    ensures NodesFrom(entries, nodes)
  {
    var pieces := AllPieces(entries);
    forall h ensures h in nodes <==> exists k :: Counted(entries, k) && h in entries[k].hosts {
      if h in nodes {
        var k :| k in entries.Keys && Feeds(pieces, k, h);
        FeedsIff(entries, k, h);
      }
      if exists k :: Counted(entries, k) && h in entries[k].hosts {
        var k :| Counted(entries, k) && h in entries[k].hosts;
        FeedsIff(entries, k, h);
        assert k in entries.Keys;
      }
    }
    forall h | h in nodes
      ensures nodes[h].memory == MemoryFrom(entries, entries.Keys, h)
      ensures forall c :: c in nodes[h].cpus <==> exists k :: Gives(entries, k, h, c)
      ensures exists k :: Counted(entries, k) && h in entries[k].hosts && nodes[h].policy == entries[k].policy
    {
      NodeIs(entries, h, nodes[h]);
    }
  }

  lemma SplitIff(entries: map<int, NumaEntry>)
    ensures AllSplit(entries) <==> forall k :: !Indivisible(entries, k)
  {
    forall k | k in entries ensures Indivisible(entries, k) <==> Counts(entries[k]) && !Splits(entries[k]) {
    }
  }

  /** A configuration is refused if and only if an entry that counts does not divide evenly;
      otherwise what is read is what it says. */
  lemma ReadsConfigured(m: VirtualMachine, vm: VM)
    ensures m.config.numa && !AllSplit(m.config.numas) <==> m.config.numa && exists k :: Indivisible(m.config.numas, k)
    ensures !(m.config.numa && !AllSplit(m.config.numas)) && Reads(m, vm) ==> Configured(m, vm)
  {
    SplitIff(m.config.numas);
    if !(m.config.numa && !AllSplit(m.config.numas)) && Reads(m, vm) {
      forall c ensures c in vm.cpuSet <==> exists i :: InList(m.config.affinity, i, c) {
        Parsed(m.config.affinity, c);
      }
      if m.config.numa {
        MergedAre(m.config.numas, vm.numaNodes);
      }
    }
  }
}
