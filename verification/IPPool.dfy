/** IPv4 pools: the addresses of one prefix, handed out with a bitmap. */
module IPPools {
  import opened Arith

  function Pow2(n: nat): (p: nat)
    ensures p > 0
  {
    if n == 0 then 1 else 2 * Pow2(n - 1)
  }

  /** A masked prefix: its network address and its length. */
  datatype Net = Net(base: nat, len: nat) {
    predicate Masked() {
      len <= 32 && base % Pow2(32 - len) == 0
    }

    function Width(): nat
      requires len <= 32
    {
      Pow2(32 - len)
    }

    predicate Contains(ip: nat)
      requires len <= 32
    {
      base <= ip < base + Width()
    }
  }

  datatype Address = Address(ip: nat) | NoAddress

  function RoundDown(ip: nat, width: nat): (b: nat)
    requires width > 0
    ensures b % width == 0 && b <= ip < b + width
  {
    DivModUnique(width, ip / width, 0);
    ip - ip % width
  }

  /** The prefix of the given length that holds an address. */
  function Mask(ip: nat, len: nat): Net
    requires len <= 32
  {
    Net(RoundDown(ip, Pow2(32 - len)), len)
  }

  /** Bits an index can have. */
  predicate Index(i: int, max: nat) {
    0 <= i < max
  }

  /** The candidate the search of Next ends on: the first free index at or after start, going
      round; start itself again when none is free. */
  function FirstFreeFrom(bits: set<int>, max: nat, start: nat, left: nat): (i: nat)
    requires max > 0 && start < max
    ensures i < max
    decreases left
  {
    if left == 0 || start !in bits then start else FirstFreeFrom(bits, max, (start + 1) % max, left - 1)
  }

  /** The index k places on from start. */
  function Round(start: nat, k: nat, max: nat): nat
    requires max > 0
  {
    (start + k) % max
  }

  ghost predicate Full(bits: set<int>, max: nat) {
    forall i :: Index(i, max) ==> i in bits
  }

  lemma RoundNext(start: nat, k: nat, max: nat)
    requires max > 0 && start < max
    ensures Round((start + 1) % max, k, max) == Round(start, k + 1, max)
  {
    if start + 1 < max {
      DivUnique(max, 0, start + 1);
    } else {
      DivUnique(max, 1, start + 1);
      ModAddMultiple(max, k, max);
    }
  }

  lemma RoundZero(start: nat, max: nat)
    requires start < max
    ensures Round(start, 0, max) == start && Round(start, max, max) == start
  {
    DivUnique(max, 0, start);
    DivUnique(max, 1, start + max);
  }

  /** The search stops on a free index after only taken ones, or finds left taken ones. */
  ghost predicate Searched(bits: set<int>, max: nat, start: nat, left: nat, k: nat, i: nat)
    requires max > 0
  {
    && k <= left && i == Round(start, k, max)
    && (forall j :: 0 <= j < k ==> Round(start, j, max) in bits)
    && (k < left ==> i !in bits)
  }

  lemma {:induction false} SearchIs(bits: set<int>, max: nat, start: nat, left: nat) returns (k: nat)
    requires max > 0 && start < max
    ensures Searched(bits, max, start, left, k, FirstFreeFrom(bits, max, start, left))
    decreases left
  {
    RoundZero(start, max);
    if left == 0 || start !in bits {
      k := 0;
    } else {
      var next := (start + 1) % max;
      var n := SearchIs(bits, max, next, left - 1);
      k := n + 1;
      RoundNext(start, n, max);
      forall j | 0 <= j < k ensures Round(start, j, max) in bits {
        if j > 0 {
          RoundNext(start, j - 1, max);
        }
      }
    }
  }

  /** Every index is met within one round. */
  lemma RoundMeets(start: nat, i: nat, max: nat) returns (k: nat)
    requires start < max && i < max
    ensures k < max && Round(start, k, max) == i
  {
    if start <= i {
      k := i - start;
      DivUnique(max, 0, i);
    } else {
      k := i + max - start;
      DivUnique(max, 1, i + max);
    }
  }

  /** Next's search is exact: while some index is free it finds the first free one in cyclic
      order; on a full pool it comes back to where it started. */
  lemma FirstFreeExact(bits: set<int>, max: nat, start: nat)
    requires max > 0 && start < max
    ensures var i := FirstFreeFrom(bits, max, start, max);
      && (i !in bits <==> !Full(bits, max))
      && (Full(bits, max) ==> i == start)
      && (!Full(bits, max) ==> exists k: nat :: k < max && Searched(bits, max, start, max, k, i))
  {
    var i := FirstFreeFrom(bits, max, start, max);
    var k := SearchIs(bits, max, start, max);
    RoundZero(start, max);
    if k < max {
      assert Index(i, max);
    } else {
      forall x | Index(x, max) ensures x in bits {
        var n := RoundMeets(start, x, max);
      }
      assert Index(i, max);
    }
  }

  // ---- the pool

  /** Bits and addresses: index i stands for the (i+1)-th address of the network. */
  function IpAt(net: Net, i: int): int {
    net.base + i + 1
  }

  function Hosts(net: Net): nat
    requires net.len <= 32
  {
    net.Width() - 1
  }

  datatype HostIndexResult = At(index: int) | OutOfRange

  /** HostIndex: -1 for the network address itself. */
  function HostIndex(net: Net, ip: nat): HostIndexResult
    requires net.len <= 32
  {
    if !net.Contains(ip) then OutOfRange
    else if ip - net.base > Hosts(net) then OutOfRange
    else At(ip - net.base - 1)
  }

  /** HostIndex inverts the map from indices to addresses. */
  lemma HostIndexInverts(net: Net, ip: nat, i: int)
    requires net.len <= 32
    ensures HostIndex(net, ip) == At(i) && i >= 0 <==> Index(i, Hosts(net)) && ip == IpAt(net, i)
    ensures HostIndex(net, ip) == At(-1) <==> ip == net.base
    ensures HostIndex(net, ip).OutOfRange? <==> !net.Contains(ip)
  {
  }

  function StartOf(net: Net, hint: Address): nat
    requires net.len <= 32
    ensures Hosts(net) > 0 ==> StartOf(net, hint) < Hosts(net)
  {
    if hint.Address? && hint.ip != net.base && HostIndex(net, hint.ip).At? then HostIndex(net, hint.ip).index else 0
  }

  function NextIndex(net: Net, bits: set<int>, hint: Address): nat
    requires net.len <= 32
  {
    if Hosts(net) == 0 then 0 else FirstFreeFrom(bits, Hosts(net), StartOf(net, hint), Hosts(net))
  }

  // ---- Next in terms of addresses

  /** A host address of the network that is not taken. */
  ghost predicate Free(net: Net, bits: set<int>, a: int)
    requires net.len <= 32
  {
    net.base < a < net.base + net.Width() && a - net.base - 1 !in bits
  }

  /** Where Next begins: at the hint if it is a host address, at the first host address if not. */
  ghost function Begin(net: Net, hint: Address): int
    requires net.len <= 32
  {
    if hint.Address? && net.base < hint.ip < net.base + net.Width() then hint.ip else net.base + 1
  }

  /** The first free address from there on, or else the first free one of all; where it begins
      if none is free. */
  ghost predicate TakesNext(net: Net, bits: set<int>, begin: int, a: int)
    requires net.len <= 32
  {
    if forall x :: !Free(net, bits, x) then a == begin
    else
      && Free(net, bits, a)
      && if a >= begin then forall x :: begin <= x < a ==> !Free(net, bits, x)
         else forall x :: x < a || begin <= x ==> !Free(net, bits, x)
  }

  lemma RoundAt(start: nat, k: nat, max: nat)
    requires start < max && k < max
    ensures Round(start, k, max) == if start + k < max then start + k else start + k - max
  {
    if start + k < max {
      DivUnique(max, 0, start + k);
    } else {
      DivUnique(max, 1, start + k);
    }
  }

  /** The indices passed over by the search. */
  lemma PassedOver(bits: set<int>, max: nat, start: nat, k: nat, i: nat)
    requires start < max && k < max && Searched(bits, max, start, max, k, i)
    ensures i < max && i !in bits
    ensures i >= start ==> forall x :: start <= x < i ==> x in bits
    ensures i < start ==> (forall x :: 0 <= x < i ==> x in bits) && forall x :: start <= x < max ==> x in bits
  {
    RoundAt(start, k, max);
    forall x | 0 <= x < max && (if x >= start then x - start else x + max - start) < k ensures x in bits {
      var j := if x >= start then x - start else x + max - start;
      RoundAt(start, j, max);
    }
  }

  lemma FreeIndex(net: Net, bits: set<int>, x: int)
    requires net.len <= 32
    ensures Free(net, bits, x) <==> Index(x - net.base - 1, Hosts(net)) && x - net.base - 1 !in bits
  {
  }

  lemma NextTakes(net: Net, bits: set<int>, hint: Address)
    requires net.len <= 32 && Hosts(net) > 0
    ensures TakesNext(net, bits, Begin(net, hint), IpAt(net, NextIndex(net, bits, hint)))
  {
    var start, i := StartOf(net, hint), NextIndex(net, bits, hint);
    FirstFreeExact(bits, Hosts(net), start);
    forall x ensures Free(net, bits, x) <==> Index(x - net.base - 1, Hosts(net)) && x - net.base - 1 !in bits {
      FreeIndex(net, bits, x);
    }
    assert Begin(net, hint) == IpAt(net, start);
    if Full(bits, Hosts(net)) {
    } else {
      var k: nat :| k < Hosts(net) && Searched(bits, Hosts(net), start, Hosts(net), k, i);
      PassedOver(bits, Hosts(net), start, k, i);
      assert Free(net, bits, IpAt(net, i));
    }
  }

  /** The second call of Next on a /31 returns the one address of the first call again. */
  lemma FullPoolRepeats()
    ensures var net := Net(0, 31);
      && net.Masked() && NextIndex(net, {}, NoAddress) == 0
      && Full({0}, Hosts(net)) && NextIndex(net, {0}, NoAddress) == 0
  {
    assert Pow2(1) == 2 * Pow2(0);
  }

  class IPPool {
    const net: Net
    const maxIPs: nat
    var pool: set<int>

    ghost predicate Valid()
      reads this
    {
      && net.Masked() && maxIPs == Hosts(net)
      && (forall i :: i in pool ==> 0 <= i <= maxIPs)
    }

    constructor (ip: nat, len: nat)
      requires len <= 32
      ensures Valid() && net == Mask(ip, len) && pool == {}
    {
      net := Mask(ip, len);
      maxIPs := Pow2(32 - len) - 1;
      pool := {};
    }

    method IsEmpty() returns (empty: bool)
      ensures empty == (pool == {})
    {
      empty := pool == {};
    }

    /** The number of addresses taken. */
    method Size() returns (size: nat)
      requires Valid()
      ensures size == |pool|
    {
      size := 0;
      ghost var seen: set<int> := {};
      for i := 0 to maxIPs + 1
        invariant seen <= pool && size == |seen|
        invariant forall x :: x in pool && x < i ==> x in seen
        invariant forall x :: x in seen ==> x < i
      {
        if i in pool {
          size := size + 1;
          seen := seen + {i};
        }
      }
      assert forall x :: x in pool ==> x in seen;
      assert seen == pool;
    }

    method Occupy(ip: nat) returns (ok: bool)
      requires Valid()
      modifies this
      ensures Valid()
      ensures ok <==> exists i :: Index(i, maxIPs) && ip == IpAt(net, i) && i !in old(pool)
      ensures pool == if ok then old(pool) + {ip - net.base - 1} else old(pool)
    {
      if ip == net.base {
        return false;
      }
      var r := HostIndex(net, ip);
      if r.OutOfRange? {
        return false;
      }
      assert Index(r.index, maxIPs) && ip == IpAt(net, r.index);
      if r.index !in pool {
        pool := pool + {r.index};
        return true;
      }
      return false;
    }

    /** Next: takes and returns an address. While one is free it returns the first free one
        from the hint on, and never the network address; on a full pool it returns an address
        that is already taken. */
    method Next(hint: Address) returns (r: Address)
      requires Valid()
      modifies this
      ensures Valid()
      ensures pool == old(pool) + {NextIndex(net, old(pool), hint)}
      ensures r == if maxIPs == 0 then NoAddress else Address(IpAt(net, NextIndex(net, old(pool), hint)))
      ensures maxIPs > 0 ==> net.Contains(r.ip) && r.ip != net.base
      ensures maxIPs > 0 ==> (r.ip - net.base - 1 !in old(pool) <==> !Full(old(pool), maxIPs))
      ensures maxIPs > 0 ==> TakesNext(net, old(pool), Begin(net, hint), r.ip)
    {
      if maxIPs > 0 {
        NextTakes(net, pool, hint);
      }
      var candidate: nat := 0;
      if hint.Address? && net.base != hint.ip {
        var r := HostIndex(net, hint.ip);
        if r.At? {
          candidate := r.index;
        }
      }
      ghost var start := candidate;
      assert start == StartOf(net, hint);
      var left := maxIPs;
      while left > 0 && candidate in pool
        invariant maxIPs > 0 ==> candidate < maxIPs
        invariant maxIPs > 0 ==>
          FirstFreeFrom(pool, maxIPs, candidate, left) == FirstFreeFrom(pool, maxIPs, start, maxIPs)
        invariant maxIPs == 0 ==> left == 0 && candidate == 0
      {
        candidate := (candidate + 1) % maxIPs;
        left := left - 1;
      }
      if maxIPs > 0 {
        FirstFreeExact(pool, maxIPs, start);
      }
      pool := pool + {candidate};
      return if candidate + 1 > maxIPs then NoAddress else Address(net.base + candidate + 1);
    }

    method Release(ip: nat) returns (ok: bool)
      requires Valid()
      modifies this
      ensures Valid()
      ensures ok <==> net.Contains(ip)
      ensures pool == if ok && ip != net.base then old(pool) - {ip - net.base - 1} else old(pool)
    {
      if ip == net.base {
        return true;
      }
      var r := HostIndex(net, ip);
      if r.OutOfRange? {
        return false;
      }
      if r.index in pool {
        pool := pool - {r.index};
      }
      return true;
    }
  }
}
