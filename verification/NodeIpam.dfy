/** The list of IPv4 subnets: the first pool that contains an address serves it. */
module NodeIpam {
  import opened Arith
  import opened Sorting
  import opened IPPools

  // ---- prefixes nest or are disjoint (section 5.1 of RFC 4632)

  ghost predicate Disjoint(a: Net, b: Net)
    requires a.len <= 32 && b.len <= 32
  {
    forall ip: nat :: !(a.Contains(ip) && b.Contains(ip))
  }

  ghost predicate StrictlyInside(a: Net, b: Net)
    requires a.len <= 32 && b.len <= 32
  {
    a.len > b.len && forall ip: nat :: a.Contains(ip) ==> b.Contains(ip)
  }

  lemma {:induction false} Pow2Adds(m: nat, n: nat)
    ensures Pow2(m + n) == Pow2(m) * Pow2(n)
    decreases n
  {
    if n > 0 {
      Pow2Adds(m, n - 1);
      assert Pow2(m) * (2 * Pow2(n - 1)) == 2 * (Pow2(m) * Pow2(n - 1));
    }
  }

  /** An address is in a masked prefix exactly when it is in the same block. */
  lemma InBlock(net: Net, ip: nat)
    requires net.Masked()
    ensures net.Contains(ip) <==> ip / net.Width() == net.base / net.Width()
  {
    var w := net.Width();
    var q := net.base / w;
    assert net.base == w * q;
    if net.Contains(ip) {
      DivUnique(w, q, ip);
    } else {
      DivBounds(ip, w);
    }
  }

  /** Where two prefixes meet, the longer one lies inside the other. */
  lemma MeetNests(a: Net, b: Net, ip: nat)
    requires a.Masked() && b.Masked() && a.len >= b.len && a.Contains(ip) && b.Contains(ip)
    ensures forall x: nat :: a.Contains(x) ==> b.Contains(x)
  {
    var n := a.len - b.len;
    Pow2Adds(32 - a.len, n);
    InBlock(a, ip);
    InBlock(b, ip);
    forall x: nat | a.Contains(x) ensures b.Contains(x) {
      InBlock(a, x);
      InBlock(b, x);
      DivDiv(x, a.Width(), Pow2(n));
      DivDiv(ip, a.Width(), Pow2(n));
    }
  }

  /** A new prefix whose network address an old one does not hold is disjoint from it or
      strictly around it. */
  lemma NewNests(kept: Net, added: Net)
    requires kept.Masked() && added.Masked() && !kept.Contains(added.base)
    ensures Disjoint(kept, added) || StrictlyInside(kept, added)
  {
    if ip: nat :| kept.Contains(ip) && added.Contains(ip) {
      if kept.len > added.len {
        MeetNests(kept, added, ip);
      } else {
        MeetNests(added, kept, ip);
        assert added.Contains(added.base);
      }
    }
  }

  // ---- the list

  ghost predicate Ordered(nets: seq<Net>) {
    && (forall i :: 0 <= i < |nets| ==> nets[i].Masked())
    && (forall i, j :: 0 <= i < j < |nets| ==> Disjoint(nets[i], nets[j]) || StrictlyInside(nets[i], nets[j]))
  }

  ghost predicate IsFirst(nets: seq<Net>, ip: nat, k: nat)
    requires forall i :: 0 <= i < |nets| ==> nets[i].len <= 32
  {
    k < |nets| && nets[k].Contains(ip) && forall j :: 0 <= j < k ==> !nets[j].Contains(ip)
  }

  /** First match is longest-prefix match: of all the subnets that hold an address, the first
      is strictly inside every other. */
  lemma FirstIsMostSpecific(nets: seq<Net>, ip: nat, k: nat, j: nat)
    requires Ordered(nets) && IsFirst(nets, ip, k) && j < |nets| && j != k && nets[j].Contains(ip)
    ensures StrictlyInside(nets[k], nets[j])
  {
    assert k < j;
  }

  /** What the list of networks becomes. */
  datatype Change = Allocated(ip: nat, len: nat) | Dropped(ip: nat, len: nat)

  function Find(nets: seq<Net>, ip: nat): (k: nat)
    requires forall i :: 0 <= i < |nets| ==> nets[i].len <= 32
    ensures k <= |nets|
    ensures k < |nets| ==> nets[k].Contains(ip)
    ensures forall j :: 0 <= j < k ==> !nets[j].Contains(ip)
  {
    if nets == [] then 0 else if nets[0].Contains(ip) then 0 else 1 + Find(nets[1..], ip)
  }

  function Drop(nets: seq<Net>, net: Net): seq<Net> {
    if nets == [] then [] else if nets[0] == net then nets[1..] else [nets[0]] + Drop(nets[1..], net)
  }

  function After(nets: seq<Net>, c: Change): seq<Net>
    requires forall i :: 0 <= i < |nets| ==> nets[i].len <= 32
  {
    if c.len > 32 then nets
    else
      var net := Mask(c.ip, c.len);
      if c.Dropped? then Drop(nets, net) else if Find(nets, net.base) == |nets| then nets + [net] else nets
  }

  ghost predicate IsEqual(nets: seq<Net>, net: Net, k: nat) {
    k <= |nets| && net !in nets[..k] && (k < |nets| ==> nets[k] == net)
  }

  lemma {:induction false} DropAt(nets: seq<Net>, net: Net, k: nat)
    requires IsEqual(nets, net, k)
    ensures Drop(nets, net) == if k < |nets| then nets[..k] + nets[k + 1..] else nets
    decreases |nets|
  {
    if k > 0 {
      var rest := nets[1..];
      assert nets[..k] == [nets[0]] + rest[..k - 1];
      DropAt(rest, net, k - 1);
      assert k < |nets| ==> rest[k..] == nets[k + 1..];
    }
  }

  lemma {:induction false} DropOrdered(nets: seq<Net>, net: Net)
    requires Ordered(nets)
    ensures Ordered(Drop(nets, net)) && forall x :: x in Drop(nets, net) ==> x in nets
    decreases |nets|
  {
    if nets != [] && nets[0] != net {
      var rest := Drop(nets[1..], net);
      DropOrdered(nets[1..], net);
      forall j | 0 <= j < |rest| ensures Disjoint(nets[0], rest[j]) || StrictlyInside(nets[0], rest[j]) {
        var i := IndexOf(nets[1..], rest[j]);
        assert nets[i + 1] == rest[j];
      }
      assert nets == [nets[0]] + nets[1..];
    } else if nets != [] {
      assert nets == [nets[0]] + nets[1..];
    }
  }

  lemma AppendOrdered(nets: seq<Net>, net: Net)
    requires Ordered(nets) && net.Masked() && Find(nets, net.base) == |nets|
    ensures Ordered(nets + [net])
  {
    forall i | 0 <= i < |nets| ensures Disjoint(nets[i], net) || StrictlyInside(nets[i], net) {
      NewNests(nets[i], net);
    }
  }

  lemma AfterOrdered(nets: seq<Net>, c: Change)
    requires Ordered(nets)
    ensures Ordered(After(nets, c))
  {
    if c.len <= 32 {
      if c.Dropped? {
        DropOrdered(nets, Mask(c.ip, c.len));
      } else if Find(nets, Mask(c.ip, c.len).base) == |nets| {
        AppendOrdered(nets, Mask(c.ip, c.len));
      }
    }
  }

  function Reached(changes: seq<Change>): (nets: seq<Net>)
    ensures Ordered(nets)
    decreases |changes|
  {
    if changes == [] then []
    else
      var before := Reached(changes[..|changes| - 1]);
      AfterOrdered(before, changes[|changes| - 1]);
      After(before, changes[|changes| - 1])
  }

  /** Over every run of AllocateOrOccupyCIDR and ReleaseCIDR, whatever the prefixes and their
      order, the first subnet that holds an address is the most specific one that does. */
  lemma FirstMatchIsLongestPrefix(changes: seq<Change>, ip: nat)
    ensures var nets := Reached(changes);
      forall k: nat, j: nat :: IsFirst(nets, ip, k) && j < |nets| && j != k && nets[j].Contains(ip) ==>
        StrictlyInside(nets[k], nets[j]) && nets[k].len > nets[j].len
  {
    var nets := Reached(changes);
    forall k: nat, j: nat | IsFirst(nets, ip, k) && j < |nets| && j != k && nets[j].Contains(ip)
      ensures StrictlyInside(nets[k], nets[j]) && nets[k].len > nets[j].len
    {
      FirstIsMostSpecific(nets, ip, k, j);
    }
  }

  // ---- addresses of different subnets

  /** An address the subnet can hand out. */
  predicate HostOf(net: Net, ip: nat)
    requires net.len <= 32
  {
    Index(ip - net.base - 1, Hosts(net))
  }

  ghost predicate Share(a: Net, b: Net)
    requires a.len <= 32 && b.len <= 32
  {
    exists ip: nat :: HostOf(a, ip) && HostOf(b, ip)
  }

  lemma NestedShare(a: Net, b: Net)
    requires a.Masked() && b.Masked() && (Disjoint(a, b) || StrictlyInside(a, b))
    ensures Share(a, b) <==> StrictlyInside(a, b) && a.len < 32
  {
    if StrictlyInside(a, b) && a.len < 32 {
      assert Pow2(32 - a.len) == 2 * Pow2(31 - a.len);
      assert a.Contains(a.base) && a.Contains(a.base + 1);
      assert HostOf(a, a.base + 1) && HostOf(b, a.base + 1);
    }
    if ip: nat :| HostOf(a, ip) && HostOf(b, ip) {
      assert a.Contains(ip) && b.Contains(ip);
    }
  }

  /** Over every run, two subnets of the list can both hand out some address if and only if
      the earlier one lies strictly inside the later one and has host addresses at all. */
  lemma OverlappingSubnetsShare(changes: seq<Change>, i: nat, j: nat)
    requires i < j < |Reached(changes)|
    ensures var nets := Reached(changes);
      Share(nets[i], nets[j]) <==> StrictlyInside(nets[i], nets[j]) && nets[i].len < 32
  {
    NestedShare(Reached(changes)[i], Reached(changes)[j]);
  }

  // ---- the provider

  /** The bit an address has in a network's pool, if it has one. */
  function Marks(net: Net, ip: nat): set<int>
    requires net.len <= 32
  {
    if net.Contains(ip) && ip != net.base then {ip - net.base - 1} else {}
  }

  /** A subnet that holds a prefix's network address misses some address of the prefix if and
      only if it lies strictly inside the prefix: only then can an address go unmarked. */
  lemma MissedIffInside(net: Net, prefix: Net)
    requires net.Masked() && prefix.Masked() && net.Contains(prefix.base)
    ensures (exists ip: nat :: prefix.Contains(ip) && !net.Contains(ip)) <==> StrictlyInside(net, prefix)
  {
    if net.len > prefix.len {
      MeetNests(net, prefix, prefix.base);
      Pow2Adds(32 - net.len, net.len - prefix.len - 1);
      assert Pow2(32 - prefix.len) == 2 * Pow2(31 - prefix.len);
      MulMonotone(net.Width(), 1, Pow2(net.len - prefix.len - 1));
      assert net.Contains(net.base);
      var ip := net.base + net.Width();
      assert prefix.Contains(ip) && !net.Contains(ip);
    } else {
      MeetNests(prefix, net, prefix.base);
    }
  }

  /** And that happens: with 0.0.0.0/24 in the list, 0.0.1.0/16 gets no subnet of its own and
      no subnet holds its address. */
  lemma WiderPrefixIsLost()
    ensures var nets := [Net(0, 24)];
      Ordered(nets) && After(nets, Allocated(256, 16)) == nets && Find(nets, 256) == |nets|
  {
    assert Pow2(8) == 256 && Pow2(16) == 65536 by {
      Pow2Adds(4, 4);
      Pow2Adds(8, 8);
      assert Pow2(4) == 16;
    }
  }

  /** Taking an address: the bitmaps of the pools afterwards, and the address. */
  function Taken(nets: seq<Net>, bits: seq<set<int>>, ip: nat): (seq<set<int>>, Address)
    requires |bits| == |nets| && forall i :: 0 <= i < |nets| ==> nets[i].len <= 32
  {
    var k := Find(nets, ip);
    if k == |nets| then (bits, NoAddress)
    else
      var i := NextIndex(nets[k], bits[k], Address(ip));
      (bits[k := bits[k] + {i}], if Hosts(nets[k]) == 0 then NoAddress else Address(IpAt(nets[k], i)))
  }

  /** What OccupyIP answers: from the first subnet that holds the address, the first free
      address from that one on, which is marked there and nowhere else; no address if no subnet
      holds it or the subnet has no host addresses. */
  ghost predicate Serves(nets: seq<Net>, bits: seq<set<int>>, ip: nat, after: seq<set<int>>, r: Address)
    requires |bits| == |nets| && forall i :: 0 <= i < |nets| ==> nets[i].len <= 32
  {
    if forall i :: 0 <= i < |nets| ==> !nets[i].Contains(ip) then r == NoAddress && after == bits
    else
      exists k :: 0 <= k < |nets| && IsFirst(nets, ip, k) && |after| == |bits|
                  && (forall i :: 0 <= i < |bits| && i != k ==> after[i] == bits[i])
                  && if nets[k].Width() < 2 then r == NoAddress
                     else r.Address? && TakesNext(nets[k], bits[k], Begin(nets[k], Address(ip)), r.ip)
                          && after[k] == bits[k] + {r.ip - nets[k].base - 1}
  }

  lemma TakenServes(nets: seq<Net>, bits: seq<set<int>>, ip: nat)
    requires |bits| == |nets| && forall i :: 0 <= i < |nets| ==> nets[i].len <= 32
    ensures Serves(nets, bits, ip, Taken(nets, bits, ip).0, Taken(nets, bits, ip).1)
  {
    var k := Find(nets, ip);
    if k < |nets| {
      assert IsFirst(nets, ip, k);
      if nets[k].Width() >= 2 {
        NextTakes(nets[k], bits[k], Address(ip));
      }
    }
  }

  class Provider {
    var subnets: seq<IPPool>

    ghost function Bits(): (bits: seq<set<int>>)
      reads this, Pools()
      ensures |bits| == |subnets| && forall i :: 0 <= i < |bits| ==> bits[i] == subnets[i].pool
    {
      seq(|subnets|, i requires 0 <= i < |subnets| reads this, Pools() => subnets[i].pool)
    }

    ghost function Nets(): (nets: seq<Net>)
      reads this
      ensures |nets| == |subnets| && forall i :: 0 <= i < |nets| ==> nets[i] == subnets[i].net
    {
      seq(|subnets|, i requires 0 <= i < |subnets| reads this => subnets[i].net)
    }

    ghost function Pools(): set<object>
      reads this
    {
      set p | p in subnets
    }

    ghost predicate Valid()
      reads this, Pools()
    {
      && this !in Pools() && Ordered(Nets())
      && (forall i :: 0 <= i < |subnets| ==> subnets[i].Valid())
      && (forall i, j :: 0 <= i < j < |subnets| ==> subnets[i] != subnets[j])
    }

    constructor ()
      ensures Valid() && subnets == []
    {
      subnets := [];
    }

    method FindSubnet(ip: nat) returns (k: nat)
      requires Valid()
      ensures k == Find(Nets(), ip)
    {
      k := 0;
      while k < |subnets|
        invariant k <= |subnets| && Find(Nets(), ip) == k + Find(Nets()[k..], ip)
      {
        assert Nets()[k..][0] == subnets[k].net && Nets()[k..][1..] == Nets()[k + 1..];
        if subnets[k].net.base <= ip < subnets[k].net.base + subnets[k].maxIPs + 1 {
          return;
        }
        k := k + 1;
      }
    }

    /** The pool that serves the network address of a prefix; a new one at the end of the list
        when there is none. */
    method EnsureSubnet(ip: nat, len: nat) returns (ipPool: IPPool, ghost k: nat)
      requires Valid() && len <= 32
      modifies this
      ensures Valid() && Nets() == After(old(Nets()), Allocated(ip, len))
      ensures subnets == if k < |old(subnets)| then old(subnets) else old(subnets) + [ipPool]
      ensures k == Find(old(Nets()), Mask(ip, len).base) && subnets[k] == ipPool
      ensures k == |old(subnets)| ==> fresh(ipPool) && ipPool.pool == {}
    {
      ghost var nets := Nets();
      AfterOrdered(nets, Allocated(ip, len));
      k := FindSubnet(Mask(ip, len).base);
      var i := FindSubnet(Mask(ip, len).base);
      if i < |subnets| {
        return subnets[i], k;
      }
      ipPool := new IPPool(ip, len);
      subnets := subnets + [ipPool];
      assert Nets() == nets + [Mask(ip, len)];
    }

    /** The subnet of the prefix joins the list unless some subnet holds its network address;
        the address, when it is not that one, is occupied in the subnet that serves it. */
    method AllocateOrOccupyCIDR(ip: nat, len: nat) returns (ok: bool)
      requires Valid()
      modifies this, Pools()
      ensures Valid()
      ensures ok <==> len <= 32
      ensures Nets() == After(old(Nets()), Allocated(ip, len))
      ensures old(subnets) <= subnets
      ensures !ok ==> Untouched(old(subnets), |old(subnets)|)
      ensures ok ==> Untouched(old(subnets), Find(old(Nets()), Mask(ip, len).base))
      ensures ok ==>
        var k := Find(old(Nets()), Mask(ip, len).base);
        && k < |subnets| && (k == |old(subnets)| ==> fresh(subnets[k]))
        && subnets[k].pool == (if k < |old(subnets)| then old(subnets[k].pool) else {})
                              + (if ip == Mask(ip, len).base then {} else Marks(subnets[k].net, ip))
    {
      if len > 32 {
        return false;
      }
      var ipPool, k := EnsureSubnet(ip, len);
      if ip != Mask(ip, len).base {
        MarkIn(ipPool, ip);
      }
      return true;
    }

    /** Marks an address in one of the pools; the others stay as they are. */
    method MarkIn(ipPool: IPPool, ip: nat)
      requires Valid() && ipPool in subnets
      modifies ipPool
      ensures Valid()
      ensures ipPool.pool == old(ipPool.pool) + Marks(ipPool.net, ip)
    {
      var _ := ipPool.Occupy(ip);
    }

    /** The pools of a list, all but one, have not changed. */
    twostate predicate Untouched(pools: seq<IPPool>, k: nat)
      reads set p | p in pools
    {
      forall i :: 0 <= i < |pools| && i != k ==> pools[i].pool == old(pools[i].pool)
    }

    /** The index of the first subnet that is the prefix. */
    method FindEqual(net: Net) returns (k: nat)
      requires forall i :: 0 <= i < |subnets| ==> subnets[i].net.len <= 32
      ensures k <= |subnets| && IsEqual(Nets(), net, k)
    {
      k := 0;
      while k < |subnets|
        invariant k <= |subnets| && net !in Nets()[..k]
      {
        if subnets[k].net == net {
          return;
        }
        assert Nets()[..k + 1] == Nets()[..k] + [Nets()[k]];
        k := k + 1;
      }
    }

    method ReleaseCIDR(ip: nat, len: nat) returns (ok: bool)
      requires Valid()
      modifies this
      ensures Valid()
      ensures ok <==> len <= 32
      ensures Nets() == After(old(Nets()), Dropped(ip, len))
      ensures forall p :: p in subnets ==> p in old(subnets)
    {
      if len > 32 {
        return false;
      }
      ghost var nets := Nets();
      var i := FindEqual(Mask(ip, len));
      DropAt(nets, Mask(ip, len), i);
      DropOrdered(nets, Mask(ip, len));
      if i < |subnets| {
        Cut(i);
      }
      return true;
    }

    method Cut(i: nat)
      requires Valid() && i < |subnets| && Ordered(Nets()[..i] + Nets()[i + 1..])
      modifies this
      ensures Valid() && Nets() == old(Nets())[..i] + old(Nets())[i + 1..]
      ensures forall p :: p in subnets ==> p in old(subnets)
    {
      ghost var nets := Nets();
      subnets := subnets[..i] + subnets[i + 1..];
      assert Nets() == nets[..i] + nets[i + 1..];
    }

    /** Takes the next free address, from the given one on, of the most specific subnet that
        holds it. */
    method OccupyIP(ip: nat, len: nat) returns (r: Address)
      requires Valid() && len <= 32
      modifies Pools()
      ensures Valid() && subnets == old(subnets)
      ensures (Bits(), r) == Taken(Nets(), old(Bits()), ip)
      ensures Serves(Nets(), old(Bits()), ip, Bits(), r)
    {
      TakenServes(Nets(), Bits(), ip);
      var k := FindSubnet(ip);
      if k == |subnets| {
        return NoAddress;
      }
      ghost var bits := Bits();
      r := subnets[k].Next(Address(ip));
      assert Bits() == bits[k := bits[k] + {NextIndex(Nets()[k], bits[k], Address(ip))}];
    }

    method ReleaseIP(ip: nat, len: nat) returns (ok: bool)
      requires Valid() && len <= 32
      modifies Pools()
      ensures Valid() && subnets == old(subnets)
      ensures ok <==> Find(Nets(), ip) < |subnets|
      ensures var k := Find(Nets(), ip);
        && (forall i :: 0 <= i < |subnets| && i != k ==> subnets[i].pool == old(subnets[i].pool))
        && (ok ==> subnets[k].pool == old(subnets[k].pool) - {ip - subnets[k].net.base - 1})
    {
      if |subnets| == 0 {
        return false;
      }
      var k := FindSubnet(ip);
      if k == |subnets| {
        return false;
      }
      ok := subnets[k].Release(ip);
    }
  }

  // ---- an address given out twice

  lemma SmallPowers()
    ensures Pow2(0) == 1 && Pow2(1) == 2 && Pow2(2) == 4
  {
  }

  /** 0.0.0.2/31, then 0.0.0.0/30 around it. */
  function Nested(): seq<Net> {
    [Net(2, 31), Net(0, 30)]
  }

  lemma ReachedAppend(changes: seq<Change>, c: Change)
    ensures Reached(changes + [c]) == After(Reached(changes), c)
  {
    assert (changes + [c])[..|changes|] == changes;
  }

  lemma MaskSelf(net: Net)
    requires net.Masked()
    ensures Mask(net.base, net.len) == net
  {
    var b := RoundDown(net.base, net.Width());
    DivUnique(net.Width(), net.base / net.Width(), net.base);
  }

  lemma Joins(nets: seq<Net>, net: Net)
    requires net.Masked() && (forall i :: 0 <= i < |nets| ==> nets[i].len <= 32) && Find(nets, net.base) == |nets|
    ensures After(nets, Allocated(net.base, net.len)) == nets + [net]
  {
    MaskSelf(net);
  }

  lemma InnerReached()
    ensures Reached([Allocated(2, 31)]) == [Net(2, 31)]
  {
    SmallPowers();
    ReachedAppend([], Allocated(2, 31));
    Joins([], Net(2, 31));
    assert [] + [Allocated(2, 31)] == [Allocated(2, 31)];
  }

  lemma NestedReached()
    ensures Reached([Allocated(2, 31), Allocated(0, 30)]) == Nested()
  {
    SmallPowers();
    InnerReached();
    NotHeld(Net(2, 31), 0);
    Joins([Net(2, 31)], Net(0, 30));
    ReachedAppend([Allocated(2, 31)], Allocated(0, 30));
    assert [Allocated(2, 31)] + [Allocated(0, 30)] == [Allocated(2, 31), Allocated(0, 30)];
  }

  lemma NotHeld(net: Net, ip: nat)
    requires net.len <= 32 && !net.Contains(ip)
    ensures Find([net], ip) == 1
  {
    assert [net][1..] == [];
  }

  lemma NestedFinds()
    ensures Find(Nested(), 3) == 0 && Find(Nested(), 1) == 1
  {
    SmallPowers();
    assert Nested()[1..] == [Net(0, 30)];
  }

  lemma NestedPicks()
    ensures NextIndex(Net(2, 31), {}, Address(3)) == 0 && NextIndex(Net(0, 30), {}, Address(1)) == 0
    ensures NextIndex(Net(0, 30), {0}, Address(1)) == 1 && NextIndex(Net(0, 30), {0, 1}, Address(1)) == 2
  {
    SmallPowers();
  }

  /** The addresses that successive calls of OccupyIP return. */
  function Answers(nets: seq<Net>, bits: seq<set<int>>, ips: seq<nat>): seq<Address>
    requires |bits| == |nets| && forall i :: 0 <= i < |nets| ==> nets[i].len <= 32
    decreases |ips|
  {
    if ips == [] then []
    else
      var (after, r) := Taken(nets, bits, ips[0]);
      [r] + Answers(nets, after, ips[1..])
  }

  /** One call on a list of two subnets, with the bitmaps x and y before and x' and y' after. */
  lemma AnswersStep(nets: seq<Net>, x: set<int>, y: set<int>, ip: nat, rest: seq<nat>, k: nat, i: nat, x': set<int>, y': set<int>)
    requires |nets| == 2 && forall j :: 0 <= j < 2 ==> nets[j].len <= 32
    requires k < 2 && Find(nets, ip) == k && Hosts(nets[k]) > 0 && NextIndex(nets[k], [x, y][k], Address(ip)) == i
    requires x' == (if k == 0 then x + {i} else x) && y' == (if k == 1 then y + {i} else y)
    ensures Answers(nets, [x, y], [ip] + rest) == [Address(nets[k].base + i + 1)] + Answers(nets, [x', y'], rest)
  {
    assert ([ip] + rest)[1..] == rest;
    assert [x, y][k := [x, y][k] + {i}] == [x', y'];
  }

  lemma NestedAnswers(nets: seq<Net>)
    requires nets == Nested()
    ensures Answers(nets, [{}, {}], [3, 1, 1, 1]) == [Address(3), Address(1), Address(2), Address(3)]
  {
    SmallPowers();
    NestedFinds();
    NestedPicks();
    AnswersStep(nets, {}, {}, 3, [1, 1, 1], 0, 0, {0}, {});
    AnswersStep(nets, {0}, {}, 1, [1, 1], 1, 0, {0}, {0});
    AnswersStep(nets, {0}, {0}, 1, [1], 1, 1, {0}, {0, 1});
    AnswersStep(nets, {0}, {0, 1}, 1, [], 1, 2, {0}, {0, 1, 2});
    assert [3] + [1, 1, 1] == [3, 1, 1, 1] && [1] + [1, 1] == [1, 1, 1] && [1] + [1] == [1, 1] && [1] + [] == [1];
  }

  /** With the subnets 0.0.0.2/31 and 0.0.0.0/30, created in this order and still empty, the
      first and the last of these calls return the same address, which nobody released in
      between: each of the two subnets has a pool of its own. */
  lemma SameAddressTwice()
    ensures Reached([Allocated(2, 31), Allocated(0, 30)]) == Nested()
    ensures Answers(Nested(), [{}, {}], [3, 1, 1, 1]) == [Address(3), Address(1), Address(2), Address(3)]
  {
    NestedReached();
    NestedAnswers(Nested());
  }
}
