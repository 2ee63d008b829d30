/** Node settings of known processor families, from the name of the processor. */
module NodeSettings {
  import opened Arith
  import opened Sorting

  datatype NUMAInfo = NUMAInfo(cpus: set<int>, memSize: nat)

  datatype Settings = Settings(
    numCores: int, numSockets: int, numThreads: int, numUncoreCaches: int, numaNodes: map<int, NUMAInfo>)

  /** The processor model, as far as the builders read it: of an EPYC number such as 7443 the
      second digit and the last. */
  datatype Model = Epyc(second: nat, last: nat) | EpycUnnumbered | Amd | Intel | Other | Unnamed

  datatype Host = Host(name: string, cpus: nat, cores: nat, sockets: nat, memory: nat)
  {
    function Family(): Model {
      ModelOf(name)
    }
  }

  datatype Built = Known(settings: Settings) | NotKnown | Failed

  // ---- the name of the processor

  datatype Position = Some(at: nat) | None

  predicate HasAt(s: string, i: nat, text: string) {
    i + |text| <= |s| && s[i..i + |text|] == text
  }

  predicate Holds(s: string, text: string) {
    exists i: nat :: i <= |s| && HasAt(s, i, text)
  }

  predicate IsSpace(c: char) {
    c in {' ', '\t', '\n', '\r', '\U{c}'}
  }

  predicate IsDigit(c: char) {
    '0' <= c <= '9'
  }

  predicate IsWord(c: char) {
    IsDigit(c) || 'a' <= c <= 'z' || 'A' <= c <= 'Z' || c == '_'
  }

  /** Where the word that starts at i ends. */
  function WordEnd(s: string, i: nat): (r: nat)
    requires i <= |s|
    ensures i <= r <= |s| && (forall k :: i <= k < r ==> IsWord(s[k])) && (r < |s| ==> !IsWord(s[r]))
    decreases |s| - i
  {
    if i < |s| && IsWord(s[i]) then WordEnd(s, i + 1) else i
  }

  /** Four digits, the rest of a word, and white space. */
  predicate NumberAt(s: string, i: nat) {
    && i + 4 <= |s| && (forall k :: i <= k < i + 4 ==> IsDigit(s[k]))
    && WordEnd(s, i + 4) < |s| && IsSpace(s[WordEnd(s, i + 4)])
  }

  /** The number after "AMD EPYC" at i, one white space and a space or a space alone between. */
  function NumberAfter(s: string, i: nat): Position {
    var j := i + 8;
    if !HasAt(s, i, "AMD EPYC") then None
    else if j + 1 < |s| && IsSpace(s[j]) && s[j + 1] == ' ' && NumberAt(s, j + 2) then Some(j + 2)
    else if j < |s| && s[j] == ' ' && NumberAt(s, j + 1) then Some(j + 1)
    else None
  }

  /** The leftmost match of the regular expression at or after i. */
  function EpycNumber(s: string, i: nat): (r: Position)
    ensures r.Some? ==> NumberAt(s, r.at)
    decreases |s| - i
  {
    if NumberAfter(s, i).Some? then NumberAfter(s, i)
    else if i < |s| then EpycNumber(s, i + 1)
    else None
  }

  function Digit(c: char): nat
    requires IsDigit(c)
  {
    c as int - '0' as int
  }

  function ModelOf(name: string): Model {
    if name == "" then Unnamed
    else if Holds(name, "AMD EPYC") then
      match EpycNumber(name, 0)
      case Some(i) => Epyc(Digit(name[i + 1]), Digit(name[i + 3]))
      case None => EpycUnnumbered
    else if Holds(name, "AMD") then Amd
    else if Holds(name, "Intel") then Intel
    else Other
  }

  ghost predicate NumberOf(number: string, letters: string) {
    |number| == 4 && (forall i :: 0 <= i < 4 ==> IsDigit(number[i])) && forall c :: c in letters ==> IsWord(c)
  }

  /** What may stand before the first "AMD EPYC" of a name, and between it and the number. */
  ghost predicate Around(before: string, sep: string) {
    !Holds(before + "AMD EPY", "AMD EPYC") && (sep == " " || (|sep| == 2 && IsSpace(sep[0]) && sep[1] == ' '))
  }

  ghost predicate BeginsWithSpace(rest: string) {
    rest != "" && IsSpace(rest[0])
  }

  ghost function EpycName(before: string, sep: string, number: string, letters: string, rest: string): string {
    before + "AMD EPYC" + sep + number + letters + rest
  }

  /** The number after the first "AMD EPYC", with the letters that follow it, is what the
      regular expression finds if and only if white space comes next. */
  lemma NumberFound(before: string, sep: string, number: string, letters: string, rest: string)
    requires Around(before, sep) && NumberOf(number, letters) && (rest != "" ==> !IsWord(rest[0]))
    ensures var name := EpycName(before, sep, number, letters, rest);
      && (EpycNumber(name, 0) == Some(|before| + 8 + |sep|) <==> BeginsWithSpace(rest))
      && (BeginsWithSpace(rest) ==> ModelOf(name) == Epyc(Digit(number[1]), Digit(number[3])))
  {
    var s, b, j := EpycName(before, sep, number, letters, rest), |before|, |before| + 8 + |sep|;
    NameParts(s, before, sep, number, letters, rest);
    NumberStands(s, j, number, letters, rest);
    assert NumberAfter(s, b) == if NumberAt(s, j) then Some(j) else None;
    assert HasAt(s, b, "AMD EPYC");
    FirstFrom(s, 0, b);
  }

  lemma NumberStands(s: string, j: nat, number: string, letters: string, rest: string)
    requires NumberOf(number, letters) && (rest != "" ==> !IsWord(rest[0])) && j + 4 + |letters| <= |s|
    requires s[j..j + 4] == number && s[j + 4..j + 4 + |letters|] == letters && s[j + 4 + |letters|..] == rest
    ensures NumberAt(s, j) <==> BeginsWithSpace(rest)
    ensures WordEnd(s, j + 4) == j + 4 + |letters|
  {
    var w := j + 4 + |letters|;
    assert w < |s| ==> s[w] == rest[0];
    assert forall k :: j <= k < j + 4 ==> s[k] == number[k - j];
    WordAt(s, j + 4, letters);
  }

  lemma NameParts(s: string, before: string, sep: string, number: string, letters: string, rest: string)
    requires s == EpycName(before, sep, number, letters, rest) && NumberOf(number, letters) && Around(before, sep)
    ensures var b, j := |before|, |before| + 8 + |sep|;
      var w := j + 4 + |letters|;
      && |s| == w + |rest| && s[b..b + 8] == "AMD EPYC" && s[b + 8..j] == sep
      && s[j..j + 4] == number && s[j + 4..w] == letters && s[w..] == rest
      && (forall i :: j <= i < w ==> IsWord(s[i])) && (forall i :: 0 <= i < 4 ==> s[j + i] == number[i])
      && (forall i :: 0 <= i < b ==> !HasAt(s, i, "AMD EPYC"))
      && s[b + 8] == sep[0] && s[j - 1] == ' '
  {
    var b, j := |before|, |before| + 8 + |sep|;
    var w := j + 4 + |letters|;
    assert s[j..j + 4] == number && s[j + 4..w] == letters && s[b..b + 8] == "AMD EPYC" && s[b + 8..j] == sep;
    forall i | j <= i < w ensures IsWord(s[i]) {
      assert s[i] == if i < j + 4 then number[i - j] else letters[i - j - 4];
    }
    forall i: nat | i < b ensures !HasAt(s, i, "AMD EPYC") {
      var head := before + "AMD EPY";
      assert s[..b + 7] == head;
      assert s[i..i + 8] == head[i..i + 8];
      assert HasAt(s, i, "AMD EPYC") ==> HasAt(head, i, "AMD EPYC");
    }
  }

  lemma {:induction false} FirstFrom(s: string, i: nat, b: nat)
    requires i <= b <= |s| && forall k: nat :: i <= k < b ==> !HasAt(s, k, "AMD EPYC")
    ensures EpycNumber(s, i) == EpycNumber(s, b)
    decreases b - i
  {
    if i < b {
      FirstFrom(s, i + 1, b);
    }
  }

  lemma {:induction false} WordAt(s: string, i: nat, letters: string)
    requires i + |letters| <= |s| && s[i..i + |letters|] == letters && (forall c :: c in letters ==> IsWord(c))
    requires i + |letters| < |s| ==> !IsWord(s[i + |letters|])
    ensures WordEnd(s, i) == i + |letters|
    decreases |letters|
  {
    if letters != [] {
      assert s[i] == letters[0];
      assert s[i + 1..i + |letters|] == letters[1..];
      WordAt(s, i + 1, letters[1..]);
    }
  }

  /** A name with one "AMD EPYC" in it is read as the number after it if white space comes
      next, and is not recognised otherwise. */
  lemma NumberRead(before: string, sep: string, number: string, letters: string, rest: string)
    requires Around(before, sep) && NumberOf(number, letters) && (rest != "" ==> !IsWord(rest[0])) && !Holds(rest, "AMD EPYC")
    ensures ModelOf(EpycName(before, sep, number, letters, rest))
         == if BeginsWithSpace(rest) then Epyc(Digit(number[1]), Digit(number[3])) else EpycUnnumbered
  {
    var s := EpycName(before, sep, number, letters, rest);
    NumberFound(before, sep, number, letters, rest);
    if !BeginsWithSpace(rest) {
      NameParts(s, before, sep, number, letters, rest);
      NumberStands(s, |before| + 8 + |sep|, number, letters, rest);
      assert HasAt(s, |before|, "AMD EPYC");
      forall i: nat ensures NumberAfter(s, i) == None {
        BareAt(s, |before|, |before| + 8 + |sep|, |before| + 12 + |sep| + |letters|, rest, i);
      }
      NoNumber(s, 0);
    }
  }

  lemma BareAt(s: string, b: nat, j: nat, w: nat, rest: string, i: nat)
    requires (j == b + 9 || j == b + 10) && j + 4 <= w <= |s| && s[b..b + 8] == "AMD EPYC" && s[w..] == rest
    requires s[j - 1] == ' ' && IsSpace(s[b + 8]) && !NumberAt(s, j) && forall k :: j <= k < w ==> IsWord(s[k])
    requires rest != "" ==> !IsWord(rest[0]) && !IsSpace(rest[0])
    requires !Holds(rest, "AMD EPYC") && forall k: nat :: k < b ==> !HasAt(s, k, "AMD EPYC")
    ensures NumberAfter(s, i) == None
  {
    if HasAt(s, i, "AMD EPYC") {
      assert s[i..i + 8][3] == s[i + 3] == ' ' && s[i..i + 8][0] == s[i] == 'A';
      assert s[i..i + 8][1] == s[i + 1] == 'M' && s[i..i + 8][2] == s[i + 2] == 'D';
      if i >= w {
        assert rest[i - w..i - w + 8] == s[i..i + 8];
        assert HasAt(rest, i - w, "AMD EPYC");
      } else {
        var amd := s[b..b + 8];
        assert forall k :: 0 <= k < 8 ==> amd[k] == s[b + k];
        assert w < |s| ==> s[w] == rest[0];
        assert i == b;
      }
    }
  }

  lemma {:induction false} NoNumber(s: string, i: nat)
    requires forall k: nat :: NumberAfter(s, k) == None
    ensures EpycNumber(s, i) == None
    decreases |s| - i
  {
    if i < |s| {
      NoNumber(s, i + 1);
    }
  }

  // ---- the builders

  /** The CPUs of a NUMA node of the given size: a slice of the cores, and of their second threads. */
  function Slice(start: int, size: int, cores: int, threads: int): set<int> {
    Range(start, start + size) + (if threads > 1 then Range(start + cores, start + cores + size) else {})
  }

  function NodeInfo(n: Host, nps: nat, i: int): NUMAInfo
    requires nps > 0 && n.cores > 0
  {
    NUMAInfo(Slice(i * (n.cores / nps), n.cores / nps, n.cores, n.cpus / n.cores), n.memory / nps)
  }

  function Nodes(n: Host, nps: nat): map<int, NUMAInfo>
    requires nps > 0 && n.cores > 0
  {
    map i | 0 <= i < nps :: NodeInfo(n, nps, i)
  }

  /** One turn of the loop all three builders share. A node without cores is an error: its
      range is written backwards and does not parse. */
  method BuildNode(n: Host, nps: nat, i: nat) returns (ok: bool, info: NUMAInfo)
    requires nps > 0 && n.cores > 0
    ensures ok <==> n.cores / nps > 0
    ensures ok ==> info == NodeInfo(n, nps, i)
  {
    var cpuPerNuma := n.cores / nps;
    var startCPU := i * cpuPerNuma;
    var endCPU := startCPU + cpuPerNuma;
    if startCPU > endCPU - 1 {
      return false, NUMAInfo({}, 0);
    }
    var cpus := Range(startCPU, endCPU);
    if n.cpus / n.cores > 1 {
      var threadStartCPU := startCPU + n.cores;
      var threadEndCPU := threadStartCPU + cpuPerNuma;
      cpus := cpus + Range(threadStartCPU, threadEndCPU);
    }
    return true, NUMAInfo(cpus, n.memory / nps);
  }

  method FillNodes(n: Host, nps: nat) returns (ok: bool, nodes: map<int, NUMAInfo>)
    requires nps > 0 && n.cores > 0
    ensures ok <==> n.cores / nps > 0
    ensures ok ==> nodes == Nodes(n, nps)
  {
    nodes := map[];
    for i := 0 to nps
      invariant i > 0 ==> n.cores / nps > 0
      invariant nodes == map k | 0 <= k < i :: NodeInfo(n, nps, k)
    {
      var one, info := BuildNode(n, nps, i);
      if !one {
        return false, nodes;
      }
      nodes := nodes[i := info];
    }
    return true, nodes;
  }

  function CoresPerCCX(second: nat): nat {
    match second
    case 2 => 4
    case 3 => 4
    case 4 => 6
    case 5 => 8
    case 6 => 8
    case 7 => 8
    case 8 => 8
    case _ => 0
  }

  function NodesPerSocket(m: Model): nat {
    match m
    case Epyc(_, last) => if last in {1, 2, 4, 5} then 4 else 1
    case _ => 1
  }

  function NodeCount(n: Host): (nps: nat)
    ensures n.sockets > 0 ==> nps > 0
  {
    if NodesPerSocket(n.Family()) == 4 then 4 * n.sockets else n.sockets
  }

  /** The L3 caches the builder writes down; zero means unknown. */
  function Caches(n: Host): nat
    requires n.sockets > 0
  {
    match n.Family()
    case Epyc(second, _) => if CoresPerCCX(second) > 0 then (n.cores / n.sockets) / CoresPerCCX(second) else 0
    case Intel => n.sockets
    case _ => 0
  }

  method NodeSettingsAMDEPYC(n: Host) returns (r: Built)
    requires n.cores > 0 && n.sockets > 0 && Holds(n.name, "AMD EPYC")
    ensures r == FamilyBuilt(n)
  {
    hide Nodes, NodeCount, Caches, Holds, EpycNumber;
    if EpycNumber(n.name, 0).None? {
      return NotKnown;
    }
    var ok, nodes := FillNodes(n, NodeCount(n));
    return if ok then Known(Settings(n.cores, n.sockets, n.cpus / n.cores, Caches(n), nodes)) else Failed;
  }

  method NodeSettingsAMD(n: Host) returns (r: Built)
    requires n.cores > 0 && n.sockets > 0 && n.Family().Amd?
    ensures r == FamilyBuilt(n)
  {
    var ok, nodes := FillNodes(n, n.sockets);
    return if ok then Known(Settings(n.cores, n.sockets, n.cpus / n.cores, 0, nodes)) else Failed;
  }

  method NodeSettingsIntel(n: Host) returns (r: Built)
    requires n.cores > 0 && n.sockets > 0 && n.Family().Intel?
    ensures r == FamilyBuilt(n)
  {
    var ok, nodes := FillNodes(n, n.sockets);
    return if ok then Known(Settings(n.cores, n.sockets, n.cpus / n.cores, n.sockets, nodes)) else Failed;
  }

  function FamilyBuilt(n: Host): Built
    requires n.cores > 0 && n.sockets > 0
  {
    if n.Family().EpycUnnumbered? || n.Family().Other? || n.Family().Unnamed? then NotKnown
    else
      if n.cores / NodeCount(n) == 0 then Failed
      else Known(Settings(n.cores, n.sockets, n.cpus / n.cores, Caches(n), Nodes(n, NodeCount(n))))
  }

  function BuiltFor(n: Host): Built {
    if n.cpus == 0 || n.cores == 0 || n.sockets == 0 || n.Family().Unnamed? then Failed else FamilyBuilt(n)
  }

  // ---- what is built, in numbers

  /** A node's share: a slice of the cores, of their second threads if there are any, and of
      the memory. */
  ghost predicate Share(n: Host, nodes: nat, i: int, info: NUMAInfo)
    requires n.cores > 0 && nodes > 0
  {
    var per := n.cores / nodes;
    && info.memSize == n.memory / nodes
    && forall c :: c in info.cpus <==>
         || 0 <= c - i * per < per || (n.cpus / n.cores >= 2 && 0 <= c - n.cores - i * per < per)
  }

  /** The host cut into equal nodes. */
  ghost predicate CutInto(n: Host, nodes: nat, caches: nat, s: Settings)
    requires n.cores > 0 && nodes > 0
  {
    && s.numCores == n.cores && s.numSockets == n.sockets && s.numThreads == n.cpus / n.cores
    && s.numUncoreCaches == caches
    && (forall i :: i in s.numaNodes <==> 0 <= i < nodes)
    && (forall i :: i in s.numaNodes ==> Share(n, nodes, i, s.numaNodes[i]))
  }

  /** With fewer cores than nodes nothing can be built. */
  ghost predicate BuiltAs(n: Host, nodes: nat, caches: nat, r: Built)
    requires n.cores > 0 && nodes > 0
  {
    if n.cores < nodes then r == Failed else r.Known? && CutInto(n, nodes, caches, r.settings)
  }

  lemma SliceIs(start: int, size: nat, cores: int, threads: int, c: int)
    ensures c in Slice(start, size, cores, threads) <==>
      0 <= c - start < size || (threads >= 2 && 0 <= c - cores - start < size)
  {
    RangeSize(start, start + size);
    RangeSize(start + cores, start + cores + size);
  }

  lemma NodeShare(n: Host, nodes: nat, i: int)
    requires n.cores > 0 && nodes > 0
    ensures Share(n, nodes, i, NodeInfo(n, nodes, i))
  {
    hide Slice;
    var per := n.cores / nodes;
    forall c ensures c in NodeInfo(n, nodes, i).cpus <==>
      0 <= c - i * per < per || (n.cpus / n.cores >= 2 && 0 <= c - n.cores - i * per < per)
    {
      SliceIs(i * per, per, n.cores, n.cpus / n.cores, c);
    }
  }

  lemma NodesCut(n: Host, nodes: nat, caches: nat)
    requires n.cores > 0 && nodes > 0
    ensures CutInto(n, nodes, caches, Settings(n.cores, n.sockets, n.cpus / n.cores, caches, Nodes(n, nodes)))
    ensures n.cores / nodes == 0 <==> n.cores < nodes
  {
    hide NodeInfo, Share;
    NoneLeft(n.cores, nodes);
    forall i | 0 <= i < nodes ensures Share(n, nodes, i, NodeInfo(n, nodes, i)) {
      NodeShare(n, nodes, i);
    }
  }

  lemma NoneLeft(cores: nat, nodes: nat)
    requires nodes > 0
    ensures cores / nodes == 0 <==> cores < nodes
  {
    DivBounds(cores, nodes);
  }

  predicate Complete(n: Host) {
    n.cpus > 0 && n.cores > 0 && n.sockets > 0 && n.name != ""
  }

  /** The EPYC tables. The second digit gives the cores of a cache: four for 2 and 3, six for 4,
      eight for 5 to 8, and no caches are written for the others. The last digit gives the NUMA
      nodes of a socket: four for 1, 2, 4 and 5, one for the others. */
  lemma EpycSettings(n: Host, before: string, sep: string, number: string, letters: string, rest: string)
    requires Complete(n) && n.name == EpycName(before, sep, number, letters, rest)
    requires Around(before, sep) && NumberOf(number, letters) && BeginsWithSpace(rest)
    ensures
      var perSocket := n.cores / n.sockets;
      var caches :=
        if number[1] in "23" then perSocket / 4 else if number[1] == '4' then perSocket / 6
        else if number[1] in "5678" then perSocket / 8 else 0;
      BuiltAs(n, if number[3] in "1245" then 4 * n.sockets else n.sockets, caches, BuiltFor(n))
  {
    NumberFound(before, sep, number, letters, rest);
    NodesCut(n, NodeCount(n), Caches(n));
  }

  /** An EPYC whose number is not followed by white space gets no settings. */
  lemma EpycUnread(n: Host, before: string, sep: string, number: string, letters: string, rest: string)
    requires Complete(n) && n.name == EpycName(before, sep, number, letters, rest)
    requires Around(before, sep) && NumberOf(number, letters) && !Holds(rest, "AMD EPYC")
    requires rest != "" ==> !IsWord(rest[0]) && !IsSpace(rest[0])
    ensures BuiltFor(n) == NotKnown
  {
    NumberRead(before, sep, number, letters, rest);
  }

  lemma PlainSettings(n: Host)
    requires Complete(n) && !Holds(n.name, "AMD EPYC")
    ensures Holds(n.name, "AMD") ==> BuiltAs(n, n.sockets, 0, BuiltFor(n))
    ensures !Holds(n.name, "AMD") && Holds(n.name, "Intel") ==> BuiltAs(n, n.sockets, n.sockets, BuiltFor(n))
    ensures !Holds(n.name, "AMD") && !Holds(n.name, "Intel") ==> BuiltFor(n) == NotKnown
  {
    NodesCut(n, n.sockets, 0);
    NodesCut(n, n.sockets, n.sockets);
  }

  method GetNodeSettingByNode(n: Host) returns (r: Built)
    ensures r == BuiltFor(n)
    ensures !Complete(n) ==> r == Failed
    ensures Complete(n) && !Holds(n.name, "AMD EPYC") ==>
      if Holds(n.name, "AMD") then BuiltAs(n, n.sockets, 0, r)
      else if Holds(n.name, "Intel") then BuiltAs(n, n.sockets, n.sockets, r)
      else r == NotKnown
  {
    hide BuiltAs;
    if Complete(n) && !Holds(n.name, "AMD EPYC") {
      PlainSettings(n);
    }
    if n.cpus == 0 || n.cores == 0 || n.sockets == 0 || n.name == "" {
      return Failed;
    }
    if Holds(n.name, "AMD EPYC") {
      r := NodeSettingsAMDEPYC(n);
    } else if Holds(n.name, "AMD") {
      r := NodeSettingsAMD(n);
    } else if Holds(n.name, "Intel") {
      r := NodeSettingsIntel(n);
    } else {
      r := NotKnown;
    }
  }
}
