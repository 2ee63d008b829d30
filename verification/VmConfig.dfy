/** Reading a VM's resources out of its Proxmox configuration. CPU lists such as "0-3,8-11" are
    kept as their parts; numaN entries as values. */
module VmConfig {
  import opened Arith
  import opened Sorting
  import opened PolicyModel

  /** "lo-hi", or "lo" when both are the same. */
  datatype Span = Span(lo: int, hi: int)

  type CPUList = seq<Span>

  /** A numaN entry; memory 0 stands for none given. */
  datatype NumaEntry = NumaEntry(cpus: set<int>, hosts: set<int>, memory: nat, policy: string)

  datatype VMSettings = VMSettings(affinity: CPUList, numa: bool, numas: map<int, NumaEntry>)

  datatype VirtualMachine = VirtualMachine(id: int, cpus: int, maxMem: nat, config: VMSettings)

  datatype Reading = Reading(vm: VM) | Uneven

  // ---- CPU lists

  function Ascending(lo: int, hi: int): (r: seq<int>)
    ensures |r| == if lo <= hi then hi - lo + 1 else 0
    ensures forall i :: 0 <= i < |r| ==> r[i] == lo + i
    decreases hi - lo
  {
    if lo > hi then [] else [lo] + Ascending(lo + 1, hi)
  }

  /** The CPUs a list names, part by part. */
  function Flatten(l: CPUList): seq<int> {
    if l == [] then [] else Ascending(l[0].lo, l[0].hi) + Flatten(l[1..])
  }

  /** Parsing a whole list: the order of the parts is lost. */
  function Parse(l: CPUList): set<int> {
    Elements(Flatten(l))
  }

  function Runs(ids: seq<int>): (l: CPUList)
    ensures ids != [] ==> l != [] && l[0].lo == ids[0] && l[0].lo <= l[0].hi
  {
    if ids == [] then []
    else
      var rest := Runs(ids[1..]);
      if rest != [] && rest[0].lo == ids[0] + 1 then [Span(ids[0], rest[0].hi)] + rest[1..]
      else [Span(ids[0], ids[0])] + rest
  }

  /** cpuset.String(): the elements in order, consecutive ones as one span. */
  function Format(s: set<int>): CPUList {
    Runs(List(s))
  }

  lemma {:induction false} RunsFlatten(ids: seq<int>)
    ensures Flatten(Runs(ids)) == ids
    decreases |ids|
  {
    if ids != [] {
      RunsFlatten(ids[1..]);
      var rest, l := Runs(ids[1..]), Runs(ids);
      if rest != [] && rest[0].lo == ids[0] + 1 {
        assert ids[1..] != [];
        assert Ascending(ids[0], rest[0].hi) == [ids[0]] + Ascending(rest[0].lo, rest[0].hi);
        assert l[1..] == rest[1..];
      } else {
        assert Ascending(ids[0], ids[0]) == [ids[0]];
        assert l[1..] == rest;
      }
    }
  }

  /** Writing a CPU set down and reading it part by part gives its elements in order. */
  lemma FormatReads(s: set<int>)
    ensures Flatten(Format(s)) == List(s) && Parse(Format(s)) == s
  {
    RunsFlatten(List(s));
    assert Elements(List(s)) == s;
  }

  lemma {:induction false} FlattenAppend(a: CPUList, b: CPUList)
    ensures Flatten(a + b) == Flatten(a) + Flatten(b)
    decreases |a|
  {
    if a == [] {
      assert a + b == b;
    } else {
      assert (a + b)[1..] == a[1..] + b;
      FlattenAppend(a[1..], b);
    }
  }

  // ---- one entry

  /** Entries without memory, CPUs or host nodes are passed over. */
  predicate Counts(e: NumaEntry) {
    e.memory > 0 && e.cpus != {} && e.hosts != {}
  }

  predicate Splits(e: NumaEntry)
    requires Counts(e)
  {
    |e.hosts| == 1 || |e.cpus| % |e.hosts| == 0
  }

  function IndexIn(l: seq<int>, x: int): (i: nat)
    requires x in l
    ensures i < |l| && l[i] == x
  {
    if l[0] == x then 0 else 1 + IndexIn(l[1..], x)
  }

  lemma SliceFits(e: NumaEntry, i: nat)
    requires Counts(e) && Splits(e) && i < |e.hosts|
    ensures var n := |e.cpus| / |e.hosts|; 0 <= i * n <= (i + 1) * n <= |e.cpus|
  {
    var n := |e.cpus| / |e.hosts|;
    MulMonotone(n, i + 1, |e.hosts|);
    DivBounds(|e.cpus|, |e.hosts|);
    assert n * (i + 1) == (i + 1) * n == i * n + n && n * |e.hosts| == |e.hosts| * n;
  }

  /** The i-th run of n elements; what is left when there are fewer. */
  function Chunk(l: seq<int>, n: nat, i: nat): seq<int>
    decreases i
  {
    if n > |l| then l else if i == 0 then l[..n] else Chunk(l[n..], n, i - 1)
  }

  lemma {:induction false} ChunkIs(l: seq<int>, n: nat, i: nat)
    requires (i + 1) * n <= |l|
    ensures 0 <= i * n <= (i + 1) * n && Chunk(l, n, i) == l[i * n..(i + 1) * n]
    decreases i
  {
    SlicesOrdered(n, i, i + 1);
    SlicesOrdered(n, 0, i + 1);
    if i > 0 {
      var rest := l[n..];
      assert (i + 1) * n == i * n + n && (i - 1 + 1) * n == i * n && (i - 1) * n == i * n - n;
      ChunkIs(rest, n, i - 1);
      assert rest[(i - 1) * n..i * n] == l[i * n..(i + 1) * n];
    }
  }

  function PerHost(e: NumaEntry): nat
    requires Counts(e)
  {
    |e.cpus| / |e.hosts|
  }

  /** A slice of the ascending CPUs of an entry. */
  function SliceOf(e: NumaEntry, i: nat): set<int>
    requires Counts(e)
  {
    Elements(Chunk(List(e.cpus), PerHost(e), i))
  }

  /** The guest CPUs that go to one of the host nodes. */
  function Share(e: NumaEntry, host: int): set<int>
    requires Counts(e) && host in e.hosts
  {
    SliceOf(e, IndexIn(List(e.hosts), host))
  }

  function ShareOfMemory(e: NumaEntry): nat
    requires Counts(e)
  {
    e.memory / |e.hosts|
  }

  lemma IndexUnique(l: seq<int>, i: nat)
    requires i < |l| && NoDup(l)
    ensures IndexIn(l, l[i]) == i
  {
  }

  /** The slice as the loop cuts it out of the list. */
  lemma SliceIs(e: NumaEntry, i: nat)
    requires Counts(e) && Splits(e) && i < |e.hosts|
    ensures var n := PerHost(e);
      0 <= i * n <= (i + 1) * n <= |e.cpus| && SliceOf(e, i) == Elements(List(e.cpus)[i * n..(i + 1) * n])
  {
    SliceFits(e, i);
    ChunkIs(List(e.cpus), PerHost(e), i);
  }

  lemma ShareIsSlice(e: NumaEntry, i: nat)
    requires Counts(e) && i < |e.hosts|
    ensures Share(e, List(e.hosts)[i]) == SliceOf(e, i)
  {
    IndexUnique(List(e.hosts), i);
  }

  lemma SlicesDisjoint(e: NumaEntry, i: nat, j: nat)
    requires Counts(e) && Splits(e) && i < j < |e.hosts|
    ensures SliceOf(e, i) !! SliceOf(e, j)
  {
    var n := PerHost(e);
    SliceIs(e, i);
    SliceIs(e, j);
    SlicesOrdered(n, i, j);
    PartsDisjoint(List(e.cpus), i * n, (i + 1) * n, j * n, (j + 1) * n);
  }

  lemma SlicesOrdered(n: nat, i: nat, j: nat)
    requires i < j
    ensures (i + 1) * n <= j * n
  {
    MulMonotone(n, i + 1, j);
    assert n * (i + 1) == (i + 1) * n && n * j == j * n;
  }

  lemma PartsDisjoint(l: seq<int>, a: nat, b: nat, c: nat, d: nat)
    requires a <= b <= c <= d <= |l| && NoDup(l)
    ensures Elements(l[a..b]) !! Elements(l[c..d])
  {
    forall x | x in l[a..b] ensures x !in l[c..d] {
      var i := IndexOf(l[a..b], x);
      assert l[a + i] == x;
      assert forall j :: c <= j < d ==> l[j] != l[a + i];
    }
  }

  lemma SliceSize(e: NumaEntry, i: nat)
    requires Counts(e) && Splits(e) && i < |e.hosts|
    ensures |SliceOf(e, i)| == |e.cpus| / |e.hosts| && SliceOf(e, i) <= e.cpus
  {
    var l, n := List(e.cpus), PerHost(e);
    SliceIs(e, i);
    PartSize(l, i * n, (i + 1) * n);
    assert (i + 1) * n - i * n == n;
    forall x | x in l[i * n..(i + 1) * n] ensures x in l {
    }
  }

  lemma PartSize(l: seq<int>, a: nat, b: nat)
    requires a <= b <= |l| && NoDup(l)
    ensures |Elements(l[a..b])| == b - a
  {
    NoDupSize(l[a..b]);
  }

  /** Every CPU of the entry is in a slice. */
  lemma SliceOfCPU(e: NumaEntry, c: int) returns (i: nat)
    requires Counts(e) && Splits(e) && c in e.cpus
    ensures i < |e.hosts| && c in SliceOf(e, i)
  {
    var l, n := List(e.cpus), |e.cpus| / |e.hosts|;
    var k := IndexOf(l, c);
    EvenParts(|e.cpus|, |e.hosts|);
    PositivePart(|e.cpus|, |e.hosts|);
    i := PartAt(k, n, |e.hosts|);
    SliceIs(e, i);
    InPart(l, i * n, (i + 1) * n, k);
  }

  lemma PartAt(k: nat, n: nat, count: nat) returns (i: nat)
    requires n > 0 && k < count * n
    ensures i < count && i * n <= k < (i + 1) * n
  {
    i := k / n;
    DivBounds(k, n);
    if i >= count {
      MulMonotone(n, count, i);
    }
    assert n * i == i * n && (i + 1) * n == i * n + n && n * count == count * n;
  }

  lemma InPart(l: seq<int>, a: nat, b: nat, k: nat)
    requires a <= k < b <= |l|
    ensures l[k] in Elements(l[a..b])
  {
    assert l[a..b][k - a] == l[k];
  }

  lemma EvenParts(a: nat, b: nat)
    requires b > 0 && (b == 1 || a % b == 0)
    ensures (a / b) * b == a
  {
    DivBounds(a, b);
  }

  lemma PositivePart(a: nat, b: nat)
    requires a > 0 && b > 0 && (a / b) * b == a
    ensures a / b > 0
  {
  }

  lemma SharesDisjoint(e: NumaEntry, g: int, h: int)
    requires Counts(e) && Splits(e) && g in e.hosts && h in e.hosts && g != h
    ensures Share(e, g) !! Share(e, h)
  {
    var i, j := IndexIn(List(e.hosts), g), IndexIn(List(e.hosts), h);
    ShareIsSlice(e, i);
    ShareIsSlice(e, j);
    if i < j {
      SlicesDisjoint(e, i, j);
    } else {
      SlicesDisjoint(e, j, i);
    }
  }

  lemma ShareSize(e: NumaEntry, h: int)
    requires Counts(e) && Splits(e) && h in e.hosts
    ensures |Share(e, h)| == |e.cpus| / |e.hosts| && Share(e, h) <= e.cpus
  {
    ShareIsSlice(e, IndexIn(List(e.hosts), h));
    SliceSize(e, IndexIn(List(e.hosts), h));
  }

  lemma ShareOfCPU(e: NumaEntry, c: int) returns (h: int)
    requires Counts(e) && Splits(e) && c in e.cpus
    ensures h in e.hosts && c in Share(e, h)
  {
    var i := SliceOfCPU(e, c);
    ShareIsSlice(e, i);
    h := List(e.hosts)[i];
  }

  /** Disjoint, of equal size, and together all the CPUs of the entry. */
  ghost predicate FairShares(e: NumaEntry)
    requires Counts(e) && Splits(e)
  {
    && (forall g, h :: g in e.hosts && h in e.hosts && g != h ==> Share(e, g) !! Share(e, h))
    && (forall h :: h in e.hosts ==> |Share(e, h)| == |e.cpus| / |e.hosts| && Share(e, h) <= e.cpus)
    && (forall c :: c in e.cpus ==> exists h :: h in e.hosts && c in Share(e, h))
  }

  lemma SharesFair(e: NumaEntry)
    requires Counts(e) && Splits(e)
    ensures FairShares(e)
  {
    forall g, h | g in e.hosts && h in e.hosts && g != h ensures Share(e, g) !! Share(e, h) {
      SharesDisjoint(e, g, h);
    }
    forall h | h in e.hosts ensures |Share(e, h)| == |e.cpus| / |e.hosts| && Share(e, h) <= e.cpus {
      ShareSize(e, h);
    }
    forall c | c in e.cpus ensures exists h :: h in e.hosts && c in Share(e, h) {
      var h := ShareOfCPU(e, c);
    }
  }

  /** Splitting an entry over its host nodes conserves it: the shares are fair, and the memory
      given out falls short of what was configured by less than the number of host nodes. */
  lemma SplitConserves(e: NumaEntry)
    requires Counts(e) && Splits(e)
    ensures FairShares(e)
    ensures e.memory - |e.hosts| < |e.hosts| * ShareOfMemory(e) <= e.memory
  {
    SharesFair(e);
    DivBounds(e.memory, |e.hosts|);
  }

  /** A single host node takes the whole entry. */
  lemma WholeShare(e: NumaEntry, h: int)
    requires Counts(e) && e.hosts == {h}
    ensures Splits(e) && Share(e, h) == e.cpus && ShareOfMemory(e) == e.memory
  {
    var l := List(e.cpus);
    ShareIsSlice(e, 0);
    SliceIs(e, 0);
    assert List(e.hosts)[0] in e.hosts;
    assert l[0..|l|] == l;
    assert Elements(l) == e.cpus;
    assert |e.cpus| / 1 == |e.cpus| && e.memory / 1 == e.memory;
  }

  /** What an entry gives each of its host nodes. */
  function Pieces(e: NumaEntry): map<int, NumaState> {
    if Counts(e) then map h | h in e.hosts :: NumaState(Share(e, h), ShareOfMemory(e), e.policy) else map[]
  }

  function AllPieces(entries: map<int, NumaEntry>): map<int, map<int, NumaState>> {
    map k | k in entries :: Pieces(entries[k])
  }

  // ---- merging the pieces of all entries, in whatever order the map gives them

  predicate Feeds(pieces: map<int, map<int, NumaState>>, k: int, h: int) {
    k in pieces && h in pieces[k]
  }

  /** The memory the visited entries give a host node. */
  function MemoryOn(pieces: map<int, map<int, NumaState>>, done: set<int>, h: int): nat
    decreases |done|
  {
    if done == {} then 0
    else
      var k := First(map i | i in done :: 0, done);
      MemoryBy(pieces, k, h) + MemoryOn(pieces, done - {k}, h)
  }

  function MemoryBy(pieces: map<int, map<int, NumaState>>, k: int, h: int): nat {
    if Feeds(pieces, k, h) then pieces[k][h].memory else 0
  }

  lemma {:induction false} MemoryOnAny(pieces: map<int, map<int, NumaState>>, done: set<int>, h: int, k: int)
    requires k in done
    ensures MemoryOn(pieces, done, h) == MemoryBy(pieces, k, h) + MemoryOn(pieces, done - {k}, h)
    decreases |done|
  {
    var j := First(map i | i in done :: 0, done);
    if j != k {
      MemoryOnAny(pieces, done - {j}, h, k);
      MemoryOnAny(pieces, done - {k}, h, j);
      assert done - {j} - {k} == done - {k} - {j};
    }
  }

  function CPUsOn(pieces: map<int, map<int, NumaState>>, done: set<int>, h: int): set<int> {
    set k, c | k in done && Feeds(pieces, k, h) && c in pieces[k][h].cpus :: c
  }

  /** The nodes the visited entries make: their CPUs and memory do not depend on the order of
      the visit, only the policy is that of one of the entries. */
  ghost predicate Merged(pieces: map<int, map<int, NumaState>>, done: set<int>, nodes: map<int, NumaState>) {
    && (forall h :: h in nodes <==> exists k :: k in done && Feeds(pieces, k, h))
    && (forall h :: h in nodes ==> Right(pieces, done, h, nodes[h]))
  }

  /** The state of one node after the visits. */
  ghost predicate Right(pieces: map<int, map<int, NumaState>>, done: set<int>, h: int, state: NumaState) {
    && state.cpus == CPUsOn(pieces, done, h) && state.memory == MemoryOn(pieces, done, h)
    && (exists k :: k in done && Feeds(pieces, k, h) && pieces[k][h].policy == state.policy)
  }

  /** Whatever the order, the host nodes, their CPUs and their memory come out the same. */
  lemma MergedOne(pieces: map<int, map<int, NumaState>>, done: set<int>, a: map<int, NumaState>, b: map<int, NumaState>)
    requires Merged(pieces, done, a) && Merged(pieces, done, b)
    ensures a.Keys == b.Keys && forall h :: h in a ==> h in b && a[h].cpus == b[h].cpus && a[h].memory == b[h].memory
  {
    forall h | h in a ensures h in b && a[h].cpus == b[h].cpus && a[h].memory == b[h].memory {
      assert Right(pieces, done, h, a[h]);
      assert h in b;
      assert Right(pieces, done, h, b[h]);
    }
    forall h | h in b ensures h in a {
    }
  }

  function Known(nodes: map<int, NumaState>, h: int): NumaState {
    if h in nodes then nodes[h] else NumaState({}, 0, "")
  }

  /** A node that takes a piece more; the policy is the last one's. */
  function Grown(was: NumaState, piece: NumaState): NumaState {
    NumaState(was.cpus + piece.cpus, was.memory + piece.memory, piece.policy)
  }

  /** The nodes with the pieces for some hosts added. */
  function AddPieces(nodes: map<int, NumaState>, piece: map<int, NumaState>, hosts: set<int>): map<int, NumaState>
    requires hosts <= piece.Keys
  {
    map h | h in nodes.Keys + hosts :: if h in hosts then Grown(Known(nodes, h), piece[h]) else nodes[h]
  }

  lemma HostOneMore(nodes: map<int, NumaState>, piece: map<int, NumaState>, hosts: set<int>, h: int)
    requires hosts <= piece.Keys && h in piece && h !in hosts
    ensures var part := AddPieces(nodes, piece, hosts);
      AddPieces(nodes, piece, hosts + {h}) == part[h := Grown(Known(part, h), piece[h])]
  {
  }

  lemma NothingOn(pieces: map<int, map<int, NumaState>>, done: set<int>, h: int)
    requires forall k :: k in done ==> !Feeds(pieces, k, h)
    ensures MemoryOn(pieces, done, h) == 0 && CPUsOn(pieces, done, h) == {}
    decreases |done|
  {
    if done != {} {
      var k := Pick(done);
      MemoryOnAny(pieces, done, h, k);
      NothingOn(pieces, done - {k}, h);
    }
  }

  lemma CPUsOneMore(pieces: map<int, map<int, NumaState>>, done: set<int>, k: int, h: int)
    ensures CPUsOn(pieces, done + {k}, h)
         == CPUsOn(pieces, done, h) + (if Feeds(pieces, k, h) then pieces[k][h].cpus else {})
  {
    var more := CPUsOn(pieces, done, h) + (if Feeds(pieces, k, h) then pieces[k][h].cpus else {});
    forall c ensures c in CPUsOn(pieces, done + {k}, h) <==> c in more {
      if c in CPUsOn(pieces, done, h) {
        var j :| j in done && Feeds(pieces, j, h) && c in pieces[j][h].cpus;
        assert j in done + {k};
      }
      if Feeds(pieces, k, h) && c in pieces[k][h].cpus {
        assert k in done + {k};
      }
    }
  }

  lemma MemoryOneMore(pieces: map<int, map<int, NumaState>>, done: set<int>, k: int, h: int)
    requires k !in done
    ensures MemoryOn(pieces, done + {k}, h) == MemoryOn(pieces, done, h) + MemoryBy(pieces, k, h)
  {
    MemoryOnAny(pieces, done + {k}, h, k);
    assert done + {k} - {k} == done;
  }

  lemma KnownRight(pieces: map<int, map<int, NumaState>>, done: set<int>, nodes: map<int, NumaState>, h: int)
    requires Merged(pieces, done, nodes)
    ensures Known(nodes, h).cpus == CPUsOn(pieces, done, h) && Known(nodes, h).memory == MemoryOn(pieces, done, h)
  {
    if h in nodes {
      assert Right(pieces, done, h, nodes[h]);
    } else {
      assert forall k :: k in done ==> !Feeds(pieces, k, h);
      NothingOn(pieces, done, h);
    }
  }

  lemma GrownRight(pieces: map<int, map<int, NumaState>>, done: set<int>, nodes: map<int, NumaState>, k: int, h: int)
    requires Merged(pieces, done, nodes) && k !in done && Feeds(pieces, k, h)
    ensures Right(pieces, done + {k}, h, Grown(Known(nodes, h), pieces[k][h]))
  {
    CPUsOneMore(pieces, done, k, h);
    MemoryOneMore(pieces, done, k, h);
    KnownRight(pieces, done, nodes, h);
    assert k in done + {k};
  }

  lemma StaysRight(pieces: map<int, map<int, NumaState>>, done: set<int>, nodes: map<int, NumaState>, k: int, h: int)
    requires Merged(pieces, done, nodes) && k !in done && !Feeds(pieces, k, h) && h in nodes
    ensures Right(pieces, done + {k}, h, nodes[h])
  {
    CPUsOneMore(pieces, done, k, h);
    MemoryOneMore(pieces, done, k, h);
    assert Right(pieces, done, h, nodes[h]);
    var j :| j in done && Feeds(pieces, j, h) && pieces[j][h].policy == nodes[h].policy;
    assert j in done + {k};
  }

  lemma AddMerged(pieces: map<int, map<int, NumaState>>, done: set<int>, nodes: map<int, NumaState>, k: int)
    requires Merged(pieces, done, nodes) && k in pieces && k !in done
    ensures Merged(pieces, done + {k}, AddPieces(nodes, pieces[k], pieces[k].Keys))
  {
    var more := AddPieces(nodes, pieces[k], pieces[k].Keys);
    forall h | h in more ensures Right(pieces, done + {k}, h, more[h]) {
      if h in pieces[k] {
        GrownRight(pieces, done, nodes, k, h);
      } else {
        StaysRight(pieces, done, nodes, k, h);
      }
    }
    forall h | h in more ensures exists j :: j in done + {k} && Feeds(pieces, j, h) {
      assert Right(pieces, done + {k}, h, more[h]);
    }
    forall j, h | j in done + {k} && Feeds(pieces, j, h) ensures h in more {
      assert j == k || j in done;
    }
  }

  // ---- GetResourceFromVM

  /** Gives every host node of the entry its slice of the CPUs and of the memory. */
  method SpreadEntry(before: map<int, NumaState>, e: NumaEntry) returns (nodes: map<int, NumaState>)
    requires Counts(e) && Splits(e)
    ensures nodes == AddPieces(before, Pieces(e), Pieces(e).Keys)
  {
    var hostList := List(e.hosts);
    HostsHavePieces(e);
    nodes := SpreadPieces(before, e, hostList, Pieces(e));
  }

  ghost predicate PieceAt(e: NumaEntry, i: nat, host: int, piece: map<int, NumaState>) {
    && Counts(e) && Splits(e) && i < |e.hosts| && host == List(e.hosts)[i]
    && host in piece && host in Pieces(e) && piece[host] == Pieces(e)[host]
  }

  lemma HostsHavePieces(e: NumaEntry)
    requires Counts(e) && Splits(e)
    ensures Elements(List(e.hosts)) == Pieces(e).Keys && NoDup(List(e.hosts))
    ensures forall i :: 0 <= i < |e.hosts| ==> PieceAt(e, i, List(e.hosts)[i], Pieces(e))
  {
    PieceKeys(e);
  }

  lemma PieceKeys(e: NumaEntry)
    requires Counts(e)
    ensures Pieces(e).Keys == e.hosts
    ensures forall h :: h in e.hosts ==> Pieces(e)[h] == NumaState(Share(e, h), ShareOfMemory(e), e.policy)
  {
  }

  method SpreadPieces(before: map<int, NumaState>, e: NumaEntry, hostList: seq<int>, ghost piece: map<int, NumaState>)
    returns (nodes: map<int, NumaState>)
    requires NoDup(hostList) && Elements(hostList) == piece.Keys
    requires forall i :: 0 <= i < |hostList| ==> PieceAt(e, i, hostList[i], piece)
    ensures nodes == AddPieces(before, piece, piece.Keys)
  {
    nodes := before;
    ghost var done: set<int> := {};
    NoPieces(before, piece);
    for i := 0 to |hostList|
      invariant done == Elements(hostList[..i]) && done <= piece.Keys
      invariant nodes == AddPieces(before, piece, done)
    {
      NextHost(hostList, i);
      nodes := SpreadOne(before, nodes, e, i, hostList[i], piece, done);
      done := done + {hostList[i]};
    }
    assert hostList[..|hostList|] == hostList;
  }

  lemma NoPieces(nodes: map<int, NumaState>, piece: map<int, NumaState>)
    ensures AddPieces(nodes, piece, {}) == nodes
  {
  }

  method SpreadOne(ghost before: map<int, NumaState>, nodes: map<int, NumaState>, e: NumaEntry, i: nat, host: int,
                   ghost piece: map<int, NumaState>, ghost done: set<int>)
    returns (more: map<int, NumaState>)
    requires PieceAt(e, i, host, piece) && done <= piece.Keys && host !in done
    requires nodes == AddPieces(before, piece, done)
    ensures more == AddPieces(before, piece, done + {host})
  {
    var part := Piece(e, i);
    HostOneMore(before, piece, done, host);
    more := nodes[host := Grown(Known(nodes, host), part)];
  }

  lemma NextHost(l: seq<int>, i: nat)
    requires i < |l| && NoDup(l)
    ensures l[i] !in Elements(l[..i]) && Elements(l[..i + 1]) == Elements(l[..i]) + {l[i]}
  {
    assert l[..i + 1] == l[..i] + [l[i]];
  }

  method Piece(e: NumaEntry, i: nat) returns (piece: NumaState)
    requires Counts(e) && Splits(e) && i < |e.hosts|
    ensures List(e.hosts)[i] in Pieces(e) && piece == Pieces(e)[List(e.hosts)[i]]
  {
    SliceIs(e, i);
    ShareIsSlice(e, i);
    PieceKeys(e);
    var cpuList := List(e.cpus);
    var nodeCpus := |e.cpus| / |e.hosts|;
    var slice := cpuList[i * nodeCpus..(i + 1) * nodeCpus];
    piece := NumaState(Elements(slice), e.memory / |e.hosts|, e.policy);
  }

  ghost predicate AllSplit(entries: map<int, NumaEntry>) {
    forall k :: k in entries && Counts(entries[k]) ==> Splits(entries[k])
  }

  ghost predicate SplitBut(entries: map<int, NumaEntry>, todo: set<int>) {
    forall k :: k in entries && k !in todo && Counts(entries[k]) ==> Splits(entries[k])
  }

  /** One entry merged into the nodes; an entry that does not count changes nothing. */
  method MergeEntry(before: map<int, NumaState>, e: NumaEntry) returns (ok: bool, nodes: map<int, NumaState>)
    ensures ok <==> (Counts(e) ==> Splits(e))
    ensures ok ==> nodes == AddPieces(before, Pieces(e), Pieces(e).Keys)
  {
    if !Counts(e) {
      assert AddPieces(before, map[], {}) == before;
      return true, before;
    }
    if |e.hosts| > 1 && |e.cpus| % |e.hosts| != 0 {
      return false, before;
    }
    nodes := SpreadEntry(before, e);
    return true, nodes;
  }

  /** The nodes of a VM's NUMA entries, or the error that one of them does not split evenly. */
  method MergeEntries(entries: map<int, NumaEntry>) returns (ok: bool, nodes: map<int, NumaState>)
    ensures ok <==> AllSplit(entries)
    ensures ok ==> Merged(AllPieces(entries), entries.Keys, nodes)
  {
    ok, nodes := MergeAll(entries, AllPieces(entries));
  }

  method MergeAll(entries: map<int, NumaEntry>, ghost pieces: map<int, map<int, NumaState>>)
    returns (ok: bool, nodes: map<int, NumaState>)
    requires forall k :: k in entries ==> k in pieces && pieces[k] == Pieces(entries[k])
    ensures ok <==> AllSplit(entries)
    ensures ok ==> Merged(pieces, entries.Keys, nodes)
  {
    nodes := map[];
    ghost var done: set<int> := {};
    var todo := entries.Keys;
    NoneMerged(pieces);
    while todo != {}
      invariant todo <= entries.Keys && done == entries.Keys - todo
      invariant SplitBut(entries, todo)
      invariant Merged(pieces, done, nodes)
      decreases |todo|
    {
      var k := AnyOf(todo);
      ok, nodes := MergeStep(entries[k], k, pieces, done, nodes);
      if !ok {
        return;
      }
      done := done + {k};
      todo := todo - {k};
    }
    assert done == entries.Keys;
    return true, nodes;
  }

  method MergeStep(e: NumaEntry, ghost k: int, ghost pieces: map<int, map<int, NumaState>>, ghost done: set<int>,
                   before: map<int, NumaState>)
    returns (ok: bool, nodes: map<int, NumaState>)
    requires k in pieces && pieces[k] == Pieces(e) && k !in done && Merged(pieces, done, before)
    ensures ok <==> (Counts(e) ==> Splits(e))
    ensures ok ==> Merged(pieces, done + {k}, nodes)
  {
    AddMerged(pieces, done, before, k);
    ok, nodes := MergeEntry(before, e);
  }

  lemma NoneMerged(pieces: map<int, map<int, NumaState>>)
    ensures Merged(pieces, {}, map[])
  {
  }

  /** What a VM's configuration says of its resources. */
  ghost predicate Reads(m: VirtualMachine, vm: VM) {
    && vm.id == m.id && vm.cpus == m.cpus && vm.memory == m.maxMem && vm.cpuSet == Parse(m.config.affinity)
    && (if m.config.numa then Merged(AllPieces(m.config.numas), m.config.numas.Keys, vm.numaNodes)
        else vm.numaNodes == map[])
  }

  method GetResourceFromVM(m: VirtualMachine) returns (r: Reading)
    ensures r.Uneven? <==> m.config.numa && !AllSplit(m.config.numas)
    ensures r.Reading? ==> Reads(m, r.vm)
  {
    var cpuSet := Parse(m.config.affinity);
    var nodes: map<int, NumaState> := map[];
    if m.config.numa {
      var ok, merged := MergeEntries(m.config.numas);
      if !ok {
        return Uneven;
      }
      nodes := merged;
    }
    return Reading(VM(m.id, m.cpus, cpuSet, m.maxMem, nodes));
  }

  /** Every CPU of an entry that counts is given to some host node, and no other CPU is. */
  lemma MergedCPUs(entries: map<int, NumaEntry>, nodes: map<int, NumaState>)
    requires AllSplit(entries) && Merged(AllPieces(entries), entries.Keys, nodes)
    ensures forall h, c :: h in nodes && c in nodes[h].cpus ==> exists k :: Wants(entries, k, c)
    ensures forall k, c :: Wants(entries, k, c) ==> exists h :: h in nodes && c in nodes[h].cpus
  {
    forall h, c | h in nodes && c in nodes[h].cpus ensures exists k :: Wants(entries, k, c) {
      var k := GivenBy(entries, nodes, h, c);
    }
    forall k, c | Wants(entries, k, c) ensures exists h :: h in nodes && c in nodes[h].cpus {
      var h := GivenTo(entries, nodes, k, c);
    }
  }

  ghost predicate Wants(entries: map<int, NumaEntry>, k: int, c: int) {
    k in entries && Counts(entries[k]) && c in entries[k].cpus
  }

  lemma GivenBy(entries: map<int, NumaEntry>, nodes: map<int, NumaState>, h: int, c: int) returns (k: int)
    requires AllSplit(entries) && Merged(AllPieces(entries), entries.Keys, nodes) && h in nodes && c in nodes[h].cpus
    ensures Wants(entries, k, c)
  {
    var pieces := AllPieces(entries);
    assert Right(pieces, entries.Keys, h, nodes[h]);
    k :| k in entries.Keys && Feeds(pieces, k, h) && c in pieces[k][h].cpus;
    PieceOf(entries[k], h, c);
  }

  lemma PieceOf(e: NumaEntry, h: int, c: int)
    requires h in Pieces(e) && c in Pieces(e)[h].cpus && (Counts(e) ==> Splits(e))
    ensures Counts(e) && c in e.cpus
  {
    PieceKeys(e);
    ShareSize(e, h);
  }

  lemma GivenTo(entries: map<int, NumaEntry>, nodes: map<int, NumaState>, k: int, c: int) returns (h: int)
    requires AllSplit(entries) && Merged(AllPieces(entries), entries.Keys, nodes) && Wants(entries, k, c)
    ensures h in nodes && c in nodes[h].cpus
  {
    var pieces := AllPieces(entries);
    h := ShareOfCPU(entries[k], c);
    PieceKeys(entries[k]);
    assert k in entries.Keys && Feeds(pieces, k, h);
    assert Right(pieces, entries.Keys, h, nodes[h]);
    assert c in pieces[k][h].cpus;
  }
}
