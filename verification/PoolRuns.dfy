/** Whole runs of one pool: who holds which address. */
module PoolRuns {
  import opened Sorting
  import opened IPPools

  datatype Event = Took(hint: Address) | Occupied(ip: nat) | Freed(ip: nat)

  /** The bitmap, and the addresses given out and not freed since, in the order given out. */
  datatype Pool = Pool(bits: set<int>, held: seq<int>)

  function Without(held: seq<int>, ip: int): seq<int> {
    if held == [] then [] else (if held[0] == ip then [] else [held[0]]) + Without(held[1..], ip)
  }

  function Step(net: Net, p: Pool, e: Event): Pool
    requires net.len <= 31
  {
    match e
    case Took(hint) =>
      var i := NextIndex(net, p.bits, hint);
      Pool(p.bits + {i}, p.held + [IpAt(net, i)])
    case Occupied(ip) =>
      var r := HostIndex(net, ip);
      if r.At? && ip != net.base && r.index !in p.bits then Pool(p.bits + {r.index}, p.held + [ip]) else p
    case Freed(ip) =>
      var r := HostIndex(net, ip);
      if r.At? && ip != net.base then Pool(p.bits - {r.index}, Without(p.held, ip)) else p
  }

  function Reached(net: Net, events: seq<Event>): Pool
    requires net.len <= 31
    decreases |events|
  {
    if events == [] then Pool({}, []) else Step(net, Reached(net, events[..|events| - 1]), events[|events| - 1])
  }

  /** The bitmap marks exactly the addresses held. */
  ghost predicate Marked(net: Net, p: Pool)
    requires net.len <= 31
  {
    && (forall i :: i in p.bits ==> Index(i, Hosts(net)))
    && (forall ip :: ip in p.held <==> ip - net.base - 1 in p.bits)
  }

  /** And no address is held twice. */
  ghost predicate Consistent(net: Net, p: Pool)
    requires net.len <= 31
  {
    Marked(net, p) && NoDup(p.held)
  }

  ghost predicate NeverFull(net: Net, events: seq<Event>)
    requires net.len <= 31
  {
    forall n :: 0 <= n < |events| && events[n].Took? ==> !Full(Reached(net, events[..n]).bits, Hosts(net))
  }

  lemma Wide(net: Net)
    requires net.len <= 31
    ensures Hosts(net) >= 1
  {
    assert Pow2(32 - net.len) == 2 * Pow2(31 - net.len);
  }

  lemma {:induction false} WithoutHolds(held: seq<int>, ip: int)
    ensures forall x :: x in Without(held, ip) <==> x in held && x != ip
    ensures NoDup(held) ==> NoDup(Without(held, ip))
    decreases |held|
  {
    if held != [] {
      var rest := Without(held[1..], ip);
      WithoutHolds(held[1..], ip);
      assert held == [held[0]] + held[1..];
      if NoDup(held) {
        assert held[0] !in held[1..];
      }
    }
  }

  /** Taking an address keeps every address with one holder exactly when the pool had one free. */
  lemma TookConsistent(net: Net, p: Pool, hint: Address)
    requires net.len <= 31 && Consistent(net, p)
    ensures Marked(net, Step(net, p, Took(hint)))
    ensures NoDup(Step(net, p, Took(hint)).held) <==> !Full(p.bits, Hosts(net))
  {
    Wide(net);
    var i := NextIndex(net, p.bits, hint);
    FirstFreeExact(p.bits, Hosts(net), StartOf(net, hint));
    var ip, more := IpAt(net, i), p.held + [IpAt(net, i)];
    assert Index(i, Hosts(net));
    if ip in p.held {
      var k := IndexOf(p.held, ip);
      assert more[k] == more[|p.held|];
    }
  }

  lemma StepConsistent(net: Net, p: Pool, e: Event)
    requires net.len <= 31 && Consistent(net, p) && (e.Took? ==> !Full(p.bits, Hosts(net)))
    ensures Consistent(net, Step(net, p, e))
  {
    match e
    case Took(hint) =>
      TookConsistent(net, p, hint);
    case Occupied(ip) =>
      if Step(net, p, e) != p {
        assert Index(ip - net.base - 1, Hosts(net));
        assert ip !in p.held;
      }
    case Freed(ip) =>
      WithoutHolds(p.held, ip);
  }

  /** Over any run in which no Next meets a full pool, the addresses held are pairwise
      different host addresses of the network and the bitmap counts them. */
  lemma {:induction false} HeldDistinct(net: Net, events: seq<Event>)
    requires net.len <= 31 && NeverFull(net, events)
    ensures Consistent(net, Reached(net, events))
    ensures |Reached(net, events).bits| == |Reached(net, events).held|
    decreases |events|
  {
    if events != [] {
      var n := |events| - 1;
      assert forall m :: 0 <= m <= n ==> events[..n][..m] == events[..m];
      forall m | 0 <= m < n && events[..n][m].Took? ensures !Full(Reached(net, events[..n][..m]).bits, Hosts(net)) {
        assert events[m].Took?;
      }
      HeldDistinct(net, events[..n]);
      assert events[n].Took? ==> !Full(Reached(net, events[..n]).bits, Hosts(net));
      StepConsistent(net, Reached(net, events[..n]), events[n]);
    }
    CountHeld(net, Reached(net, events));
  }

  lemma CountHeld(net: Net, p: Pool)
    requires net.len <= 31 && Consistent(net, p)
    ensures |p.bits| == |p.held|
  {
    NoDupSize(p.held);
    ShiftSize(Elements(p.held), p.bits, net.base + 1);
  }

  lemma {:induction false} ShiftSize(a: set<int>, b: set<int>, shift: int)
    requires forall x :: x in a <==> x - shift in b
    ensures |a| == |b|
    decreases |a|
  {
    if a == {} {
      forall y ensures y !in b {
        assert y + shift !in a;
      }
    } else {
      var x := Pick(a);
      ShiftSize(a - {x}, b - {x - shift}, shift);
    }
  }

  // ---- the runs are those of the pool's methods

  /** One event carried out by the pool itself: who holds what changes as in a step of the run. */
  method Perform(p: IPPool, e: Event, ghost held: seq<int>) returns (ghost after: seq<int>)
    requires p.Valid() && p.net.len <= 31
    modifies p
    ensures p.Valid() && Pool(p.pool, after) == Step(p.net, Pool(old(p.pool), held), e)
  {
    Wide(p.net);
    match e
    case Took(hint) =>
      var r := p.Next(hint);
      after := held + [r.ip];
    case Occupied(ip) =>
      var ok := p.Occupy(ip);
      after := if ok then held + [ip] else held;
    case Freed(ip) =>
      var ok := p.Release(ip);
      after := if ok && ip != p.net.base then Without(held, ip) else held;
  }

  /** A whole run of a new pool: unless some Next met a full pool, the addresses held are
      pairwise different and the bitmap counts them. */
  method PerformAll(ip: nat, len: nat, events: seq<Event>) returns (p: IPPool, ghost held: seq<int>)
    requires len <= 31
    ensures fresh(p) && p.net == Mask(ip, len) && Pool(p.pool, held) == Reached(p.net, events)
    ensures NeverFull(p.net, events) ==> Consistent(p.net, Pool(p.pool, held)) && |p.pool| == |held|
  {
    p := new IPPool(ip, len);
    held := [];
    for i := 0 to |events|
      invariant p.Valid() && fresh(p) && p.net == Mask(ip, len)
      invariant Pool(p.pool, held) == Reached(p.net, events[..i])
    {
      assert events[..i + 1][..i] == events[..i];
      held := Perform(p, events[i], held);
    }
    assert events[..|events|] == events;
    if NeverFull(p.net, events) {
      HeldDistinct(p.net, events);
    }
  }
}
