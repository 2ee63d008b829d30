/** Whole runs of a policy: its books are a function of the VMs that are live. */
module PolicyRuns {
  import opened Sorting
  import opened PolicyModel

  // ---- sums over the live VMs

  function Total(live: seq<VM>, f: VM -> int): int {
    if live == [] then 0 else f(live[0]) + Total(live[1..], f)
  }

  function RemoveAt(live: seq<VM>, k: nat): (r: seq<VM>)
    requires k < |live|
    ensures |r| == |live| - 1
    ensures forall i :: 0 <= i < |r| ==> r[i] == live[if i < k then i else i + 1]
  {
    live[..k] + live[k + 1..]
  }

  lemma {:induction false} TotalRemove(live: seq<VM>, k: nat, f: VM -> int)
    requires k < |live|
    ensures Total(live, f) == f(live[k]) + Total(RemoveAt(live, k), f)
  {
    if k == 0 {
      assert RemoveAt(live, 0) == live[1..];
    } else {
      TotalRemove(live[1..], k - 1, f);
      assert RemoveAt(live, k) == [live[0]] + RemoveAt(live[1..], k - 1);
    }
  }

  lemma TotalAppend(live: seq<VM>, vm: VM, f: VM -> int)
    ensures Total(live + [vm], f) == Total(live, f) + f(vm)
  {
    TotalRemove(live + [vm], |live|, f);
    assert RemoveAt(live + [vm], |live|) == live;
  }

  lemma RemovedOne(live: seq<VM>, k: nat)
    requires k < |live|
    ensures multiset(RemoveAt(live, k)) == multiset(live) - multiset{live[k]}
  {
    assert live == live[..k] + ([live[k]] + live[k + 1..]);
    assert multiset(live) == multiset(live[..k]) + multiset{live[k]} + multiset(live[k + 1..]);
  }

  lemma {:induction false} TotalPermuted(a: seq<VM>, b: seq<VM>, f: VM -> int)
    requires multiset(a) == multiset(b)
    ensures Total(a, f) == Total(b, f)
    decreases |a|
  {
    if a == [] {
      assert |multiset(b)| == 0;
    } else {
      assert a[0] in multiset(b);
      var k := IndexOf(b, a[0]);
      TotalRemove(b, k, f);
      RemovedOne(a, 0);
      RemovedOne(b, k);
      assert a[1..] == RemoveAt(a, 0);
      TotalPermuted(a[1..], RemoveAt(b, k), f);
    }
  }

  lemma {:induction false} TotalAtLeast(live: seq<VM>, k: nat, f: VM -> int)
    requires k < |live| && forall i :: 0 <= i < |live| ==> f(live[i]) >= 0
    ensures Total(live, f) >= f(live[k]) && Total(live, f) >= 0
    decreases |live|
  {
    TotalRemove(live, k, f);
    var rest := RemoveAt(live, k);
    if rest != [] {
      TotalAtLeast(rest, 0, f);
    }
  }

  function MemoryOf(vm: VM): int {
    vm.memory
  }

  /** CPUs promised to a VM that is not pinned to particular ones. */
  function FloatingCPUs(vm: VM): int {
    if vm.cpuSet == {} then vm.cpus else 0
  }

  function BytesOn(i: int): VM -> int {
    vm => NodeBytes(vm, i)
  }

  function PinnedBy(cfg: Config, live: seq<VM>): set<int> {
    set k, c | 0 <= k < |live| && c in live[k].cpuSet && c !in cfg.reserved :: c
  }

  /** The books that the live VMs alone determine. */
  function Expected(cfg: Config, live: seq<VM>): Books
    requires Total(live, MemoryOf) >= 0
  {
    var used := PinnedBy(cfg, live);
    Books(cfg.all - cfg.reserved - used, used, Total(live, FloatingCPUs), Total(live, MemoryOf),
          map i | i in cfg.numa :: cfg.numa[i] - Total(live, BytesOn(i)))
  }

  // ---- runs

  datatype Event = Placed(vm: VM) | Updated(vm: VM) | Released(k: nat)

  datatype Run = Run(books: Books, live: seq<VM>)

  /** The resource manager turns away requests without CPUs or memory. */
  ghost predicate WellFormedVM(cfg: Config, vm: VM) {
    vm.cpus > 0 && vm.memory > 0 && vm.cpuSet <= cfg.all && vm.numaNodes.Keys <= cfg.numa.Keys
  }

  /** What the environment promises, and for a placement what Allocate is proved to return:
      placements take free CPUs of known nodes with enough memory; pinned updates lie in the
      machine, off the used CPUs and on known nodes, and succeed; releases name a live VM. */
  ghost predicate Legal(cfg: Config, r: Run, e: Event) {
    match e
    case Placed(vm) =>
      && WellFormedVM(cfg, vm) && vm.cpuSet != {} && vm.cpuSet <= r.books.available
      && r.books.assignedMemory + vm.memory <= cfg.memory && NodesFit(r.books.numa, vm)
    case Updated(vm) =>
      && WellFormedVM(cfg, vm) && (vm.cpuSet - cfg.reserved) !! r.books.used
      && UpdateOutcome(cfg, r.books, vm) == Done
    case Released(k) => k < |r.live|
  }

  function Step(cfg: Config, r: Run, e: Event): Run {
    match e
    case Placed(vm) => Run(Place(r.books, vm), r.live + [vm])
    case Updated(vm) => Run(Update(cfg, r.books, vm), r.live + [vm])
    case Released(k) => if k < |r.live| then Run(Release(cfg, r.books, r.live[k]), RemoveAt(r.live, k)) else r
  }

  function Reached(cfg: Config, events: seq<Event>): Run
    decreases |events|
  {
    if events == [] then Run(Start(cfg), [])
    else Step(cfg, Reached(cfg, events[..|events| - 1]), events[|events| - 1])
  }

  ghost predicate LegalRun(cfg: Config, events: seq<Event>) {
    forall n :: 0 <= n < |events| ==> Legal(cfg, Reached(cfg, events[..n]), events[n])
  }

  ghost predicate Exclusive(cfg: Config, live: seq<VM>) {
    forall a, b :: 0 <= a < b < |live| ==> (live[a].cpuSet - cfg.reserved) !! (live[b].cpuSet - cfg.reserved)
  }

  /** The books are those of the live VMs, no pinned CPU is shared, no counter is overdrawn. */
  ghost predicate Balanced(cfg: Config, r: Run) {
    && (forall k :: 0 <= k < |r.live| ==> WellFormedVM(cfg, r.live[k]))
    && Exclusive(cfg, r.live)
    && Total(r.live, MemoryOf) >= 0
    && r.books == Expected(cfg, r.live)
    && r.books.assignedMemory <= cfg.memory
    && (forall i :: i in r.books.numa ==> r.books.numa[i] >= 0)
  }

  lemma PinnedAppend(cfg: Config, live: seq<VM>, vm: VM)
    ensures PinnedBy(cfg, live + [vm]) == PinnedBy(cfg, live) + (vm.cpuSet - cfg.reserved)
  {
    var more := live + [vm];
    forall c ensures c in PinnedBy(cfg, more) <==> c in PinnedBy(cfg, live) + (vm.cpuSet - cfg.reserved) {
      if c in PinnedBy(cfg, live) {
        var k :| 0 <= k < |live| && c in live[k].cpuSet && c !in cfg.reserved;
        assert more[k] == live[k];
      }
      if c in vm.cpuSet - cfg.reserved {
        assert more[|live|] == vm;
      }
    }
  }

  lemma PinnedMember(cfg: Config, live: seq<VM>, k: nat)
    requires k < |live|
    ensures live[k].cpuSet - cfg.reserved <= PinnedBy(cfg, live)
  {
    forall c | c in live[k].cpuSet - cfg.reserved ensures c in PinnedBy(cfg, live) {
      assert c in live[k].cpuSet && c !in cfg.reserved;
    }
  }

  lemma PinnedRemove(cfg: Config, live: seq<VM>, k: nat)
    requires k < |live| && Exclusive(cfg, live)
    ensures PinnedBy(cfg, RemoveAt(live, k)) == PinnedBy(cfg, live) - (live[k].cpuSet - cfg.reserved)
    ensures live[k].cpuSet - cfg.reserved <= PinnedBy(cfg, live)
  {
    var rest := RemoveAt(live, k);
    PinnedMember(cfg, live, k);
    forall c ensures c in PinnedBy(cfg, rest) <==> c in PinnedBy(cfg, live) - (live[k].cpuSet - cfg.reserved) {
      if c in PinnedBy(cfg, rest) {
        var j :| 0 <= j < |rest| && c in rest[j].cpuSet && c !in cfg.reserved;
        var i := if j < k then j else j + 1;
        assert rest[j] == live[i];
        assert (live[if i < k then i else k].cpuSet - cfg.reserved) !! (live[if i < k then k else i].cpuSet - cfg.reserved);
      }
      if c in PinnedBy(cfg, live) && c !in live[k].cpuSet {
        var i :| 0 <= i < |live| && c in live[i].cpuSet && c !in cfg.reserved;
        assert rest[if i < k then i else i - 1] == live[i];
      }
    }
  }

  /** A VM joining the live ones is charged exactly its own share. */
  lemma Joined(cfg: Config, r: Run, vm: VM, s: Books)
    requires Balanced(cfg, r) && WellFormedVM(cfg, vm) && (vm.cpuSet - cfg.reserved) !! r.books.used
    requires NodesFit(r.books.numa, vm) && r.books.assignedMemory + vm.memory <= cfg.memory
    requires s == Books(r.books.available - (vm.cpuSet - cfg.reserved), r.books.used + (vm.cpuSet - cfg.reserved),
                        r.books.assignedCPUs + FloatingCPUs(vm), r.books.assignedMemory + vm.memory,
                        Charge(r.books.numa, vm))
    ensures Balanced(cfg, Run(s, r.live + [vm]))
  {
    var live := r.live + [vm];
    PinnedAppend(cfg, r.live, vm);
    TotalAppend(r.live, vm, FloatingCPUs);
    TotalAppend(r.live, vm, MemoryOf);
    forall i ensures Total(live, BytesOn(i)) == Total(r.live, BytesOn(i)) + NodeBytes(vm, i) {
      TotalAppend(r.live, vm, BytesOn(i));
    }
    forall a, b | 0 <= a < b < |live| ensures (live[a].cpuSet - cfg.reserved) !! (live[b].cpuSet - cfg.reserved) {
      if b == |r.live| {
        PinnedMember(cfg, r.live, a);
      }
    }
    assert s.numa == Expected(cfg, live).numa;
  }

  /** A live VM can always be released and gives back exactly its own share. */
  lemma Left(cfg: Config, r: Run, k: nat)
    requires Balanced(cfg, r) && k < |r.live|
    ensures ReleaseOutcome(r.books, r.live[k]) == Done
    ensures Balanced(cfg, Run(Release(cfg, r.books, r.live[k]), RemoveAt(r.live, k)))
  {
    var vm, live := r.live[k], RemoveAt(r.live, k);
    PinnedRemove(cfg, r.live, k);
    TotalRemove(r.live, k, FloatingCPUs);
    TotalRemove(r.live, k, MemoryOf);
    TotalAtLeast(r.live, k, FloatingCPUs);
    TotalAtLeast(r.live, k, MemoryOf);
    forall i ensures Total(live, BytesOn(i)) == Total(r.live, BytesOn(i)) - NodeBytes(vm, i) {
      TotalRemove(r.live, k, BytesOn(i));
    }
    assert vm.cpuSet - cfg.reserved <= cfg.all - cfg.reserved;
    var s := Release(cfg, r.books, vm);
    assert s.numa == Expected(cfg, live).numa;
    assert s.available == cfg.all - cfg.reserved - PinnedBy(cfg, live);
  }

  lemma UpdateJoins(cfg: Config, r: Run, vm: VM)
    requires Balanced(cfg, r) && Legal(cfg, r, Updated(vm))
    ensures Balanced(cfg, Run(Update(cfg, r.books, vm), r.live + [vm]))
  {
    LegalUpdate(cfg, r, vm);
    Joined(cfg, r, vm, Update(cfg, r.books, vm));
  }

  lemma LegalUpdate(cfg: Config, r: Run, vm: VM)
    requires Legal(cfg, r, Updated(vm))
    ensures WellFormedVM(cfg, vm) && (vm.cpuSet - cfg.reserved) !! r.books.used
    ensures NodesFit(r.books.numa, vm) && r.books.assignedMemory + vm.memory <= cfg.memory
    ensures Update(cfg, r.books, vm)
         == Books(r.books.available - (vm.cpuSet - cfg.reserved), r.books.used + (vm.cpuSet - cfg.reserved),
                  r.books.assignedCPUs + FloatingCPUs(vm), r.books.assignedMemory + vm.memory,
                  Charge(r.books.numa, vm))
  {
    UpdateFits(cfg, r.books, vm);
  }

  lemma UpdateFits(cfg: Config, s: Books, vm: VM)
    requires UpdateOutcome(cfg, s, vm) == Done && vm.cpus > 0
    ensures NodesFit(s.numa, vm) && s.assignedMemory + vm.memory <= cfg.memory
  {
  }

  lemma StepBalanced(cfg: Config, r: Run, e: Event)
    requires Balanced(cfg, r) && Legal(cfg, r, e)
    ensures Balanced(cfg, Step(cfg, r, e))
  {
    match e
    case Placed(vm) =>
      assert vm.cpuSet - cfg.reserved == vm.cpuSet;
      Joined(cfg, r, vm, Place(r.books, vm));
    case Updated(vm) =>
      UpdateJoins(cfg, r, vm);
    case Released(k) =>
      Left(cfg, r, k);
  }

  /** In every reachable state the books are balanced. */
  lemma {:induction false} RunBalanced(cfg: Config, events: seq<Event>)
    requires LegalRun(cfg, events) && forall i :: i in cfg.numa ==> cfg.numa[i] >= 0
    ensures Balanced(cfg, Reached(cfg, events))
    decreases |events|
  {
    if events == [] {
      StartBalanced(cfg);
    } else {
      var n := |events| - 1;
      LegalPrefix(cfg, events, n);
      RunBalanced(cfg, events[..n]);
      StepBalanced(cfg, Reached(cfg, events[..n]), events[n]);
    }
  }

  lemma StartBalanced(cfg: Config)
    requires forall i :: i in cfg.numa ==> cfg.numa[i] >= 0
    ensures Balanced(cfg, Run(Start(cfg), []))
  {
    assert Start(cfg).numa == Expected(cfg, []).numa;
    assert PinnedBy(cfg, []) == {};
  }

  lemma LegalPrefix(cfg: Config, events: seq<Event>, n: nat)
    requires LegalRun(cfg, events) && n < |events|
    ensures LegalRun(cfg, events[..n]) && Legal(cfg, Reached(cfg, events[..n]), events[n])
  {
    assert forall m :: 0 <= m < n ==> events[..n][m] == events[m] && events[..n][..m] == events[..m];
  }

  /** The state depends only on the live VMs: two runs that end with the same VMs live, in
      whatever order they came, end with the same books. */
  lemma BooksDependOnLiveVMs(cfg: Config, a: seq<Event>, b: seq<Event>)
    requires LegalRun(cfg, a) && LegalRun(cfg, b) && forall i :: i in cfg.numa ==> cfg.numa[i] >= 0
    requires multiset(Reached(cfg, a).live) == multiset(Reached(cfg, b).live)
    ensures Reached(cfg, a).books == Reached(cfg, b).books
  {
    RunBalanced(cfg, a);
    RunBalanced(cfg, b);
    ExpectedPermuted(cfg, Reached(cfg, a).live, Reached(cfg, b).live);
  }

  lemma ExpectedPermuted(cfg: Config, x: seq<VM>, y: seq<VM>)
    requires multiset(x) == multiset(y) && Total(x, MemoryOf) >= 0
    ensures Total(y, MemoryOf) >= 0 && Expected(cfg, x) == Expected(cfg, y)
  {
    SamePinned(cfg, x, y);
    TotalPermuted(x, y, FloatingCPUs);
    TotalPermuted(x, y, MemoryOf);
    forall i ensures Total(x, BytesOn(i)) == Total(y, BytesOn(i)) {
      TotalPermuted(x, y, BytesOn(i));
    }
    assert Expected(cfg, x).numa == Expected(cfg, y).numa;
  }

  lemma SamePinned(cfg: Config, x: seq<VM>, y: seq<VM>)
    requires multiset(x) == multiset(y)
    ensures PinnedBy(cfg, x) == PinnedBy(cfg, y)
  {
    PinnedSubset(cfg, x, y);
    PinnedSubset(cfg, y, x);
  }

  lemma PinnedSubset(cfg: Config, x: seq<VM>, y: seq<VM>)
    requires multiset(x) == multiset(y)
    ensures PinnedBy(cfg, x) <= PinnedBy(cfg, y)
  {
    forall c | c in PinnedBy(cfg, x) ensures c in PinnedBy(cfg, y) {
      var k :| 0 <= k < |x| && c in x[k].cpuSet && c !in cfg.reserved;
      assert x[k] in multiset(y);
      var j := IndexOf(y, x[k]);
    }
  }

  function Releases(order: seq<nat>): seq<Event> {
    seq(|order|, i requires 0 <= i < |order| => Released(order[i]))
  }

  lemma ReleasesSplit(events: seq<Event>, order: seq<nat>)
    requires order != []
    ensures events + Releases(order) == events + [Released(order[0])] + Releases(order[1..])
  {
    assert Releases(order) == [Released(order[0])] + Releases(order[1..]);
  }

  lemma LegalExtend(cfg: Config, events: seq<Event>, e: Event)
    requires LegalRun(cfg, events) && Legal(cfg, Reached(cfg, events), e)
    ensures LegalRun(cfg, events + [e])
    ensures Reached(cfg, events + [e]) == Step(cfg, Reached(cfg, events), e)
  {
    var next := events + [e];
    assert next[..|events|] == events;
    forall n | 0 <= n < |next| ensures Legal(cfg, Reached(cfg, next[..n]), next[n]) {
      if n < |events| {
        assert next[..n] == events[..n] && next[n] == events[n];
      }
    }
  }

  lemma NothingLive(cfg: Config, r: Run)
    requires Balanced(cfg, r) && r.live == []
    ensures r.books == Start(cfg)
  {
    assert PinnedBy(cfg, []) == {};
    assert Start(cfg).numa == Expected(cfg, []).numa;
  }

  /** Releasing every live VM, in any order, is always possible and restores the start. */
  lemma {:induction false} ReleasingAllRestores(cfg: Config, events: seq<Event>, order: seq<nat>)
    requires LegalRun(cfg, events) && forall i :: i in cfg.numa ==> cfg.numa[i] >= 0
    requires |order| == |Reached(cfg, events).live|
    requires forall j :: 0 <= j < |order| ==> order[j] < |order| - j
    ensures LegalRun(cfg, events + Releases(order))
    ensures Reached(cfg, events + Releases(order)) == Run(Start(cfg), [])
    decreases |order|
  {
    RunBalanced(cfg, events);
    if order == [] {
      assert events + Releases(order) == events;
      NothingLive(cfg, Reached(cfg, events));
    } else {
      var first, rest := Released(order[0]), order[1..];
      LegalExtend(cfg, events, first);
      ReleasesSplit(events, order);
      ReleasingAllRestores(cfg, events + [first], rest);
    }
  }
}
