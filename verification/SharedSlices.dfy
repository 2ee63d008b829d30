/** What iterateCombinations leaves in the slices it passed to its callback. Go's append writes
    into the backing array while there is room, so combinations that differ only beyond the
    length at which their array was allocated are one array, and hold what was written last. */
module SharedSlices {
  import opened Sorting
  import opened Combinations

  /** The backing arrays, each as long as its capacity. */
  type Store = seq<seq<int>>

  datatype Slice = Slice(id: nat, len: nat)

  ghost predicate InStore(st: Store, s: Slice) {
    s.id < |st| && s.len <= |st[s.id]|
  }

  function Content(st: Store, s: Slice): seq<int>
    requires InStore(st, s)
  {
    st[s.id][..s.len]
  }

  /** The capacity append asks for when an array of the given capacity is full. */
  function Grown(capacity: nat): nat {
    if capacity == 0 then 1 else 2 * capacity
  }

  function Append(st: Store, s: Slice, x: int): (r: (Store, Slice))
    requires InStore(st, s)
    ensures InStore(r.0, r.1) && r.1.len == s.len + 1 && Content(r.0, r.1) == Content(st, s) + [x]
  {
    if s.len < |st[s.id]| then (st[s.id := st[s.id][s.len := x]], Slice(s.id, s.len + 1))
    else
      var array' := Content(st, s) + [x] + seq(Grown(s.len) - s.len - 1, i => 0);
      (st + [array'], Slice(|st|, s.len + 1))
  }

  /** The helper of iterateCombinations, making at most `left` calls: the store afterwards and
      the slices passed to the callback. */
  function Walk(n: seq<int>, k: nat, start: nat, accum: Slice, st: Store, left: nat): (r: (Store, seq<Slice>))
    requires InStore(st, accum)
    ensures |r.1| <= left && Extends(st, accum, r.0)
    decreases k, |n| - start
  {
    if left == 0 || (k > 0 && start + k > |n|) then (st, [])
    else if k == 0 then (st, [accum])
    else
      var (st1, longer) := Append(st, accum, n[start]);
      var (st2, inner) := Walk(n, k - 1, start + 1, longer, st1, left);
      var (st3, outer) := Walk(n, k, start + 1, accum, st2, left - |inner|);
      (st3, inner + outer)
  }

  /** Nothing changes but new arrays and what lies behind the slice in its own. */
  ghost predicate Extends(st: Store, s: Slice, st': Store) {
    && |st| <= |st'|
    && (forall id :: 0 <= id < |st| ==> |st'[id]| == |st[id]|)
    && (forall id :: 0 <= id < |st| && id != s.id ==> st'[id] == st[id])
    && (InStore(st, s) ==> st'[s.id][..s.len] == st[s.id][..s.len])
  }

  // ---- arrays and prefixes

  /** The length at which an array for slices of length m is allocated, the capacity so far
      being too small. */
  function AllocatedAt(capacity: nat, m: nat): (l: nat)
    requires capacity < m
    ensures capacity < l <= m
    decreases m - capacity
  {
    if Grown(capacity) >= m then capacity + 1 else AllocatedAt(Grown(capacity), m)
  }

  /** i is the last of the first v positions that begin as the j-th does, l long. */
  ghost predicate LastLike(ps: seq<seq<nat>>, l: nat, j: nat, v: nat, i: nat) {
    && j <= i < v <= |ps|
    && |ps[i]| >= l && |ps[j]| >= l && ps[i][..l] == ps[j][..l]
    && forall x :: i < x < v && |ps[x]| >= l ==> ps[x][..l] != ps[j][..l]
  }

  /** The part of the prefix that is still to be chosen. */
  function ToAgree(st: Store, s: Slice, k: nat): (l: nat)
    requires InStore(st, s)
    ensures l <= k
  {
    var capacity := |st[s.id]|;
    if s.len + k <= capacity then 0 else AllocatedAt(capacity, s.len + k) - s.len
  }

  /** Each slice passed to the callback ends up with the last combination that begins alike. */
  ghost predicate HoldsLast(n: seq<int>, k: nat, start: nat, prefix: seq<int>, l: nat, st: Store, slices: seq<Slice>) {
    var ps, combos := Positions(|n|, k, start), Below(n, k, start, prefix);
    && |slices| <= |combos|
    && (forall j :: 0 <= j < |slices| ==> InStore(st, slices[j]))
    && forall j: nat, i: nat :: LastLike(ps, l, j, |slices|, i) ==> Content(st, slices[j]) == combos[i]
  }

  /** In the part that begins with the first position the rest of the prefix decides. */
  lemma LikeInFirst(len: nat, k: nat, start: nat, l: nat, j: nat, va: nat, vb: nat, i: nat)
    requires k >= 1 && start + k <= len && 1 <= l <= k && j < va
    requires va <= |Positions(len, k - 1, start + 1)| && (vb > 0 ==> va == |Positions(len, k - 1, start + 1)|)
    requires LastLike(Positions(len, k, start), l, j, va + vb, i)
    ensures i < va && LastLike(Positions(len, k - 1, start + 1), l - 1, j, va, i)
  {
    var a, b := PartsSound(len, k, start);
    FirstPart(a, b, start, k, l, j, va, vb, i);
  }

  lemma PartsSound(len: nat, k: nat, start: nat) returns (a: seq<seq<nat>>, b: seq<seq<nat>>)
    requires k >= 1
    ensures a == Positions(len, k - 1, start + 1) && b == Positions(len, k, start + 1)
    ensures (forall x :: 0 <= x < |a| ==> |a[x]| == k - 1) && forall x :: 0 <= x < |b| ==> |b[x]| == k && b[x][0] > start
  {
    PositionsSound(len, k, start + 1);
    PositionsSound(len, k - 1, start + 1);
    a, b := Positions(len, k - 1, start + 1), Positions(len, k, start + 1);
    forall x | 0 <= x < |a| ensures |a[x]| == k - 1 {
      assert a[x] in a;
    }
    forall x | 0 <= x < |b| ensures |b[x]| == k && b[x][0] > start {
      assert b[x] in b;
    }
  }

  lemma FirstPart(a: seq<seq<nat>>, b: seq<seq<nat>>, start: nat, k: nat, l: nat, j: nat, va: nat, vb: nat, i: nat)
    requires 1 <= l <= k && j < va <= |a| && (vb > 0 ==> va == |a|)
    requires (forall x :: 0 <= x < |a| ==> |a[x]| == k - 1) && forall x :: 0 <= x < |b| ==> |b[x]| == k && b[x][0] > start
    requires LastLike(Prepend(start, a) + b, l, j, va + vb, i)
    ensures i < va && LastLike(a, l - 1, j, va, i)
  {
    var ps := Prepend(start, a) + b;
    assert ps[j] == [start] + a[j];
    forall x | |a| <= x < |ps| ensures ps[x][..l] != ps[j][..l] {
      assert ps[x] == b[x - |a|];
      FirstDiffers(ps[x], ps[j], l);
    }
    assert ps[i] == [start] + a[i];
    FirstAlike(start, a[i], a[j], l);
    forall x | i < x < va ensures a[x][..l - 1] != a[j][..l - 1] {
      assert ps[x] == [start] + a[x] && |ps[x]| >= l;
      FirstAlike(start, a[x], a[j], l);
    }
  }

  lemma FirstDiffers(p: seq<nat>, q: seq<nat>, l: nat)
    requires 1 <= l <= |p| && l <= |q| && p[0] != q[0]
    ensures p[..l] != q[..l]
  {
    assert p[..l][0] == p[0] && q[..l][0] == q[0];
  }

  lemma FirstAlike(start: nat, p: seq<nat>, q: seq<nat>, l: nat)
    requires 1 <= l <= |p| + 1 && l <= |q| + 1
    ensures ([start] + p)[..l] == ([start] + q)[..l] <==> p[..l - 1] == q[..l - 1]
  {
    assert ([start] + p)[..l] == [start] + p[..l - 1] && ([start] + q)[..l] == [start] + q[..l - 1];
    assert ([start] + p[..l - 1])[1..] == p[..l - 1] && ([start] + q[..l - 1])[1..] == q[..l - 1];
  }

  /** In the part after it positions count from where that part begins. */
  lemma LikeInRest(len: nat, k: nat, start: nat, l: nat, size: nat, j: nat, vb: nat, i: nat)
    requires k >= 1 && start + k <= len && size == |Positions(len, k - 1, start + 1)|
    requires LastLike(Positions(len, k, start), l, size + j, size + vb, size + i)
    ensures LastLike(Positions(len, k, start + 1), l, j, vb, i)
  {
    RestPart(Prepend(start, Positions(len, k - 1, start + 1)), Positions(len, k, start + 1), l, j, vb, i);
  }

  lemma RestPart(a: seq<seq<nat>>, b: seq<seq<nat>>, l: nat, j: nat, vb: nat, i: nat)
    requires LastLike(a + b, l, |a| + j, |a| + vb, |a| + i)
    ensures LastLike(b, l, j, vb, i)
  {
    var ps := a + b;
    assert forall x :: |a| <= x < |ps| ==> ps[x] == b[x - |a|];
    forall x | i < x < vb && |b[x]| >= l ensures b[x][..l] != b[j][..l] {
      assert ps[x + |a|] == b[x];
    }
  }

  /** What the walk does: as many calls as there are combinations or as are let, and what the
      slices hold in the end. */
  ghost predicate Walked(n: seq<int>, k: nat, start: nat, accum: Slice, st: Store, left: nat, st': Store, slices: seq<Slice>)
  {
    var all := |Positions(|n|, k, start)|;
    && InStore(st, accum)
    && |slices| == (if left < all then left else all)
    && (slices == [] ==> st' == st)
    && Placed(accum, st, k, slices)
    && HoldsLast(n, k, start, Content(st, accum), ToAgree(st, accum, k), st', slices)
  }

  /** Where the slices lie: all in the array they grew from if it has the room, else all in
      new ones. */
  ghost predicate Placed(accum: Slice, st: Store, k: nat, slices: seq<Slice>) {
    && accum.id < |st|
    && (forall j :: 0 <= j < |slices| ==> slices[j].len == accum.len + k)
    && (forall j :: 0 <= j < |slices| ==>
          if accum.len + k <= |st[accum.id]| then slices[j].id == accum.id else slices[j].id >= |st|)
  }

  /** A slice one longer: in the same array while there is room, else in a new one. */
  ghost predicate Appended(st: Store, s: Slice, k: nat, st1: Store, longer: Slice) {
    && InStore(st, s) && InStore(st1, longer) && k >= 1
    && Extends(st, s, st1) && longer.len == s.len + 1
    && (if s.len < |st[s.id]| then longer.id == s.id else longer.id == |st| < |st1|)
    && (s.len + k <= |st[s.id]| ==> longer.id == s.id)
    && ToAgree(st1, longer, k - 1) == (if ToAgree(st, s, k) == 0 then 0 else ToAgree(st, s, k) - 1)
  }

  lemma AppendIs(st: Store, s: Slice, x: int, k: nat)
    requires InStore(st, s) && k >= 1
    ensures Appended(st, s, k, Append(st, s, x).0, Append(st, s, x).1)
  {
  }

  lemma PlacedBoth(accum: Slice, st: Store, k: nat, st1: Store, longer: Slice, inner: seq<Slice>, st2: Store, outer: seq<Slice>)
    requires Appended(st, accum, k, st1, longer) && Extends(st1, longer, st2)
    requires Placed(longer, st1, k - 1, inner) && Placed(accum, st2, k, outer)
    ensures Placed(accum, st, k, inner + outer)
    ensures accum.len + k > |st[accum.id]| ==> forall j :: 0 <= j < |inner| ==> inner[j].id != accum.id
  {
  }

  lemma {:induction false} WalkHolds(n: seq<int>, k: nat, start: nat, accum: Slice, st: Store, left: nat)
    requires InStore(st, accum)
    ensures Walked(n, k, start, accum, st, left, Walk(n, k, start, accum, st, left).0, Walk(n, k, start, accum, st, left).1)
    decreases k, |n| - start
  {
    if left == 0 || (k > 0 && start + k > |n|) {
    } else if k == 0 {
      WalkOne(n, start, accum, st, left);
    } else {
      var (st1, longer) := Append(st, accum, n[start]);
      AppendIs(st, accum, n[start], k);
      WalkHolds(n, k - 1, start + 1, longer, st1, left);
      var (st2, inner) := Walk(n, k - 1, start + 1, longer, st1, left);
      StillThere(st, accum, st1, longer, st2);
      WalkHolds(n, k, start + 1, accum, st2, left - |inner|);
      var (st3, outer) := Walk(n, k, start + 1, accum, st2, left - |inner|);
      WalkStep(n, k, start, accum, st, left, st1, longer, st2, inner, st3, outer);
    }
  }

  lemma WalkOne(n: seq<int>, start: nat, accum: Slice, st: Store, left: nat)
    requires InStore(st, accum) && left > 0
    ensures Walked(n, 0, start, accum, st, left, st, [accum])
  {
    var prefix := Content(st, accum);
    assert prefix + Select(n, []) == prefix;
    assert Below(n, 0, start, prefix) == [prefix];
  }

  lemma StillThere(st: Store, accum: Slice, st1: Store, longer: Slice, st2: Store)
    requires InStore(st, accum) && InStore(st1, longer) && Extends(st, accum, st1) && Extends(st1, longer, st2)
    requires longer.id != accum.id || longer.len >= accum.len
    ensures InStore(st2, accum) && Content(st2, accum) == Content(st, accum) && |st2[accum.id]| == |st[accum.id]|
  {
    assert st2[accum.id][..accum.len] == st1[accum.id][..accum.len] by {
      if longer.id == accum.id {
        assert st2[longer.id][..longer.len][..accum.len] == st1[longer.id][..longer.len][..accum.len];
        assert st2[longer.id][..longer.len][..accum.len] == st2[accum.id][..accum.len];
        assert st1[longer.id][..longer.len][..accum.len] == st1[accum.id][..accum.len];
      }
    }
  }

  lemma AllAlike(ps: seq<seq<nat>>, j: nat, v: nat, i: nat)
    ensures LastLike(ps, 0, j, v, i) <==> j <= i && i + 1 == v <= |ps|
  {
    assert forall x :: 0 <= x < |ps| ==> ps[x][..0] == [];
    if 0 <= i && i + 1 < v <= |ps| {
      var x := i + 1;
      assert ps[x][..0] == [];
    }
  }

  /** In one array every slice holds what was written last. */
  lemma HoldsShared(n: seq<int>, k: nat, start: nat, prefix: seq<int>, s: Slice, st2: Store, inner: seq<Slice>,
                    st3: Store, outer: seq<Slice>)
    requires k >= 1 && start + k <= |n|
    requires (forall j :: 0 <= j < |inner| ==> inner[j] == s) && forall j :: 0 <= j < |outer| ==> outer[j] == s
    requires HoldsLast(n, k - 1, start + 1, prefix + [n[start]], 0, st2, inner)
    requires HoldsLast(n, k, start + 1, prefix, 0, st3, outer)
    requires if outer == [] then st3 == st2 else |inner| == |Below(n, k - 1, start + 1, prefix + [n[start]])|
    ensures HoldsLast(n, k, start, prefix, 0, st3, inner + outer)
  {
    BelowStep(n, k, start, prefix);
    var a, b, slices := Positions(|n|, k - 1, start + 1), Positions(|n|, k, start + 1), inner + outer;
    forall j | 0 <= j < |slices| ensures InStore(st3, slices[j]) {
      assert slices[j] == if outer == [] then inner[j] else outer[0];
    }
    forall j: nat, i: nat | LastLike(Positions(|n|, k, start), 0, j, |slices|, i)
      ensures Content(st3, slices[j]) == Below(n, k, start, prefix)[i]
    {
      AllAlike(Positions(|n|, k, start), j, |slices|, i);
      if outer == [] {
        AllAlike(a, j, |inner|, i);
      } else {
        AllAlike(b, 0, |outer|, |outer| - 1);
        assert slices[j] == outer[0];
      }
    }
  }

  /** The slices hold in st3 what they hold in st2. */
  ghost predicate Unwritten(st2: Store, slices: seq<Slice>, st3: Store) {
    forall j :: (0 <= j < |slices| && InStore(st2, slices[j])
      ==> InStore(st3, slices[j]) && Content(st3, slices[j]) == Content(st2, slices[j]))
  }

  lemma InnerApart(n: seq<int>, k: nat, start: nat, prefix: seq<int>, l: nat, st2: Store, inner: seq<Slice>,
                   st3: Store, more: nat, j: nat, i: nat)
    requires 1 <= l <= k && start + k <= |n| && j < |inner| && Unwritten(st2, inner, st3)
    requires HoldsLast(n, k - 1, start + 1, prefix + [n[start]], l - 1, st2, inner)
    requires more > 0 ==> |inner| == |Positions(|n|, k - 1, start + 1)|
    requires LastLike(Positions(|n|, k, start), l, j, |inner| + more, i)
    ensures i < |Below(n, k, start, prefix)|
    ensures InStore(st3, inner[j]) && Content(st3, inner[j]) == Below(n, k, start, prefix)[i]
  {
    FirstApart(n, k, start, prefix, l, st2, inner, more, j, i);
    LikeBounds(Positions(|n|, k, start), l, j, |inner| + more, i);
    BelowAt(n, k, start, prefix, i);
  }

  lemma OuterApart(n: seq<int>, k: nat, start: nat, prefix: seq<int>, l: nat, st3: Store, outer: seq<Slice>, size: nat,
                   j: nat, i: nat)
    requires k >= 1 && start + k <= |n| && size == |Positions(|n|, k - 1, start + 1)|
    requires HoldsLast(n, k, start + 1, prefix, l, st3, outer)
    requires LastLike(Positions(|n|, k, start), l, size + j, size + |outer|, size + i)
    ensures j < |outer| && size + i < |Below(n, k, start, prefix)|
    ensures InStore(st3, outer[j]) && Content(st3, outer[j]) == Below(n, k, start, prefix)[size + i]
  {
    LikeInRest(|n|, k, start, l, size, j, |outer|, i);
    LikeBounds(Positions(|n|, k, start), l, size + j, size + |outer|, size + i);
    HoldsOne(n, k, start + 1, prefix, l, st3, outer, j, i);
    BelowAt(n, k, start, prefix, size + i);
  }

  lemma LikeBounds(ps: seq<seq<nat>>, l: nat, j: nat, v: nat, i: nat)
    requires LastLike(ps, l, j, v, i)
    ensures j <= i < v <= |ps|
  {
  }

  /** In separate arrays the slices of the one part keep what they hold. */
  lemma HoldsApart(n: seq<int>, k: nat, start: nat, prefix: seq<int>, l: nat, st2: Store, inner: seq<Slice>,
                   st3: Store, outer: seq<Slice>)
    requires 1 <= l <= k && start + k <= |n| && Unwritten(st2, inner, st3)
    requires HoldsLast(n, k - 1, start + 1, prefix + [n[start]], l - 1, st2, inner)
    requires HoldsLast(n, k, start + 1, prefix, l, st3, outer)
    requires |outer| > 0 ==> |inner| == |Positions(|n|, k - 1, start + 1)|
    ensures HoldsLast(n, k, start, prefix, l, st3, inner + outer)
  {
    SizeBelow(n, k, start, prefix);
    var slices := inner + outer;
    forall j: nat, i: nat | LastLike(Positions(|n|, k, start), l, j, |slices|, i)
      ensures Content(st3, slices[j]) == Below(n, k, start, prefix)[i]
    {
      LikeBounds(Positions(|n|, k, start), l, j, |slices|, i);
      if j < |inner| {
        InnerApart(n, k, start, prefix, l, st2, inner, st3, |outer|, j, i);
      } else {
        OuterApart(n, k, start, prefix, l, st3, outer, |inner|, j - |inner|, i - |inner|);
      }
    }
  }

  lemma FirstApart(n: seq<int>, k: nat, start: nat, prefix: seq<int>, l: nat, st: Store, inner: seq<Slice>, more: nat,
                   j: nat, i: nat)
    requires 1 <= l <= k && start + k <= |n| && j < |inner|
    requires HoldsLast(n, k - 1, start + 1, prefix + [n[start]], l - 1, st, inner)
    requires more > 0 ==> |inner| == |Positions(|n|, k - 1, start + 1)|
    requires LastLike(Positions(|n|, k, start), l, j, |inner| + more, i)
    ensures i < |Below(n, k - 1, start + 1, prefix + [n[start]])|
    ensures InStore(st, inner[j]) && Content(st, inner[j]) == Below(n, k - 1, start + 1, prefix + [n[start]])[i]
  {
    SmallerCount(n, k - 1, start + 1, prefix + [n[start]], l - 1, st, inner);
    LikeInFirst(|n|, k, start, l, j, |inner|, more, i);
    HoldsOne(n, k - 1, start + 1, prefix + [n[start]], l - 1, st, inner, j, i);
  }

  lemma SmallerCount(n: seq<int>, k: nat, start: nat, prefix: seq<int>, l: nat, st: Store, slices: seq<Slice>)
    requires HoldsLast(n, k, start, prefix, l, st, slices)
    ensures |slices| <= |Positions(|n|, k, start)| == |Below(n, k, start, prefix)|
  {
  }

  lemma BelowAt(n: seq<int>, k: nat, start: nat, prefix: seq<int>, i: nat)
    requires k >= 1 && start + k <= |n| && i < |Positions(|n|, k, start)|
    ensures var first := Below(n, k - 1, start + 1, prefix + [n[start]]);
      && |first| == |Positions(|n|, k - 1, start + 1)|
      && |Below(n, k, start, prefix)| == |first| + |Below(n, k, start + 1, prefix)| == |Positions(|n|, k, start)|
      && Below(n, k, start, prefix)[i]
         == if i < |first| then first[i] else Below(n, k, start + 1, prefix)[i - |first|]
  {
    BelowStep(n, k, start, prefix);
  }

  lemma HoldsOne(n: seq<int>, k: nat, start: nat, prefix: seq<int>, l: nat, st: Store, slices: seq<Slice>, j: nat, i: nat)
    requires HoldsLast(n, k, start, prefix, l, st, slices) && LastLike(Positions(|n|, k, start), l, j, |slices|, i)
    ensures InStore(st, slices[j]) && i < |Below(n, k, start, prefix)|
    ensures Content(st, slices[j]) == Below(n, k, start, prefix)[i]
  {
  }

  lemma KeptApart(accum: Slice, st2: Store, inner: seq<Slice>, st3: Store)
    requires InStore(st2, accum) && Extends(st2, accum, st3) && forall j :: 0 <= j < |inner| ==> inner[j].id != accum.id
    ensures Unwritten(st2, inner, st3)
  {
  }

  lemma WalkStep(n: seq<int>, k: nat, start: nat, accum: Slice, st: Store, left: nat,
                 st1: Store, longer: Slice, st2: Store, inner: seq<Slice>, st3: Store, outer: seq<Slice>)
    requires start + k <= |n| && left > 0 && |inner| <= left && Appended(st, accum, k, st1, longer)
    requires Content(st1, longer) == Content(st, accum) + [n[start]]
    requires Extends(st1, longer, st2) && InStore(st2, accum) && Content(st2, accum) == Content(st, accum)
    requires |st2[accum.id]| == |st[accum.id]| && Extends(st2, accum, st3)
    requires Walked(n, k - 1, start + 1, longer, st1, left, st2, inner)
    requires Walked(n, k, start + 1, accum, st2, left - |inner|, st3, outer)
    ensures Walked(n, k, start, accum, st, left, st3, inner + outer)
  {
    PlacedBoth(accum, st, k, st1, longer, inner, st2, outer);
    var prefix := Content(st, accum);
    SizeBelow(n, k, start, prefix);
    StepCounts(n, k, start, left, inner, outer);
    StepHolds(n, k, start, accum, st, st1, longer, st2, inner, st3, outer);
  }

  lemma StepCounts(n: seq<int>, k: nat, start: nat, left: nat, inner: seq<Slice>, outer: seq<Slice>)
    requires k >= 1 && start + k <= |n| && left > 0
    requires var a, b := |Positions(|n|, k - 1, start + 1)|, |Positions(|n|, k, start + 1)|;
      && |inner| == (if left < a then left else a) && |outer| == (if left - |inner| < b then left - |inner| else b)
    ensures var all := |Positions(|n|, k, start)|; |inner + outer| == if left < all then left else all
    ensures inner + outer != []
  {
    SomePositions(|n|, k - 1, start + 1);
  }

  lemma StepHolds(n: seq<int>, k: nat, start: nat, accum: Slice, st: Store,
                  st1: Store, longer: Slice, st2: Store, inner: seq<Slice>, st3: Store, outer: seq<Slice>)
    requires start + k <= |n| && Appended(st, accum, k, st1, longer) && InStore(st2, accum)
    requires |st2[accum.id]| == |st[accum.id]| && Extends(st2, accum, st3)
    requires Placed(accum, st, k, inner + outer)
    requires accum.len + k > |st[accum.id]| ==> forall j :: 0 <= j < |inner| ==> inner[j].id != accum.id
    requires HoldsLast(n, k - 1, start + 1, Content(st, accum) + [n[start]], ToAgree(st1, longer, k - 1), st2, inner)
    requires HoldsLast(n, k, start + 1, Content(st, accum), ToAgree(st2, accum, k), st3, outer)
    requires if outer == [] then st3 == st2
             else |inner| == |Below(n, k - 1, start + 1, Content(st, accum) + [n[start]])|
    ensures HoldsLast(n, k, start, Content(st, accum), ToAgree(st, accum, k), st3, inner + outer)
  {
    var prefix, l := Content(st, accum), ToAgree(st, accum, k);
    assert ToAgree(st2, accum, k) == l;
    if accum.len + k > |st[accum.id]| {
      KeptApart(accum, st2, inner, st3);
    }
    HoldsBoth(n, k, start, accum, prefix, l, accum.len + k <= |st[accum.id]|, st2, inner, st3, outer);
  }

  lemma HoldsBoth(n: seq<int>, k: nat, start: nat, accum: Slice, prefix: seq<int>, l: nat, fits: bool, st2: Store,
                  inner: seq<Slice>, st3: Store, outer: seq<Slice>)
    requires k >= 1 && l <= k && start + k <= |n| && (fits <==> l == 0)
    requires fits ==> forall j :: 0 <= j < |inner + outer| ==> (inner + outer)[j] == Slice(accum.id, accum.len + k)
    requires !fits ==> Unwritten(st2, inner, st3)
    requires HoldsLast(n, k - 1, start + 1, prefix + [n[start]], if l == 0 then 0 else l - 1, st2, inner)
    requires HoldsLast(n, k, start + 1, prefix, l, st3, outer)
    requires if outer == [] then st3 == st2 else |inner| == |Below(n, k - 1, start + 1, prefix + [n[start]])|
    ensures HoldsLast(n, k, start, prefix, l, st3, inner + outer)
  {
    if fits {
      var s := Slice(accum.id, accum.len + k);
      assert forall j :: 0 <= j < |inner| ==> inner[j] == (inner + outer)[j];
      assert forall j :: 0 <= j < |outer| ==> outer[j] == (inner + outer)[|inner| + j];
      HoldsShared(n, k, start, prefix, s, st2, inner, st3, outer);
    } else {
      HoldsApart(n, k, start, prefix, l, st2, inner, st3, outer);
    }
  }

  lemma {:induction false} SomePositions(len: nat, k: nat, start: nat)
    requires start + k <= len
    ensures Positions(len, k, start) != []
    decreases k
  {
    if k > 0 {
      SomePositions(len, k - 1, start + 1);
    }
  }

  lemma SizeBelow(n: seq<int>, k: nat, start: nat, prefix: seq<int>)
    requires k >= 1 && start + k <= |n|
    ensures |Below(n, k - 1, start + 1, prefix + [n[start]])| == |Positions(|n|, k - 1, start + 1)|
    ensures |Positions(|n|, k, start)| == |Positions(|n|, k - 1, start + 1)| + |Positions(|n|, k, start + 1)|
  {
  }

  // ---- what a saved combination becomes

  /** Combinations of k elements have an array of their own from this length on. */
  function OwnLength(k: nat): (l: nat)
    requires k >= 1
    ensures 1 <= l <= k
  {
    AllocatedAt(0, k)
  }

  function LastIndex(ps: seq<seq<nat>>, l: nat, j: nat, v: nat): (i: nat)
    requires j < v <= |ps| && forall x :: 0 <= x < |ps| ==> |ps[x]| >= l
    ensures LastLike(ps, l, j, v, i)
    decreases v
  {
    if ps[v - 1][..l] == ps[j][..l] then v - 1 else LastIndex(ps, l, j, v - 1)
  }

  /** What the slice of the j-th combination holds after v calls of the callback: the last of
      the v combinations that lies in the same array. */
  function Held(n: seq<int>, k: nat, j: nat, v: nat): seq<int>
    requires k >= 1 && j < v <= |Combos(n, k)|
  {
    CombosExact(n, k);
    Combos(n, k)[LastIndex(Positions(|n|, k, 0), OwnLength(k), j, v)]
  }

  /** The walk over all combinations, from an empty slice without an array. */
  function WalkAll(n: seq<int>, k: nat, left: nat): (Store, seq<Slice>) {
    Walk(n, k, 0, Slice(0, 0), [[]], left)
  }

  /** After the walk, broken off or not, every slice passed to the callback holds that. */
  lemma SavedSlices(n: seq<int>, k: nat, left: nat, j: nat)
    requires k >= 1 && j < |WalkAll(n, k, left).1|
    ensures var (st, slices) := WalkAll(n, k, left);
      && |slices| == (if left < |Combos(n, k)| then left else |Combos(n, k)|)
      && InStore(st, slices[j]) && Content(st, slices[j]) == Held(n, k, j, |slices|)
  {
    WalkHolds(n, k, 0, Slice(0, 0), [[]], left);
    SavedFrom(n, k, [[]], left, WalkAll(n, k, left).0, WalkAll(n, k, left).1, j);
  }

  lemma SavedFrom(n: seq<int>, k: nat, st: Store, left: nat, st': Store, slices: seq<Slice>, j: nat)
    requires k >= 1 && st == [[]] && Walked(n, k, 0, Slice(0, 0), st, left, st', slices) && j < |slices|
    ensures |slices| == (if left < |Combos(n, k)| then left else |Combos(n, k)|)
    ensures InStore(st', slices[j]) && Content(st', slices[j]) == Held(n, k, j, |slices|)
  {
    CombosExact(n, k);
    assert Content(st, Slice(0, 0)) == [] && ToAgree(st, Slice(0, 0), k) == OwnLength(k);
    HoldsOne(n, k, 0, [], OwnLength(k), st', slices, j, LastIndex(Positions(|n|, k, 0), OwnLength(k), j, |slices|));
  }

  lemma SelectAlike(n: seq<int>, p: seq<nat>, q: seq<nat>, l: nat)
    requires (forall i :: 0 <= i < |p| ==> p[i] < |n|) && forall i :: 0 <= i < |q| ==> q[i] < |n|
    requires l <= |p| && l <= |q| && p[..l] == q[..l]
    ensures Select(n, p)[..l] == Select(n, q)[..l]
  {
    assert forall x :: 0 <= x < l ==> p[x] == p[..l][x] && q[x] == q[..l][x];
  }

  /** It is a combination of the list that begins as the saved one did. */
  lemma HeldIs(n: seq<int>, k: nat, j: nat, v: nat)
    requires k >= 1 && j < v <= |Combos(n, k)|
    ensures Held(n, k, j, v) in Combos(n, k) && |Held(n, k, j, v)| == |Combos(n, k)[j]| == k
    ensures Held(n, k, j, v)[..OwnLength(k)] == Combos(n, k)[j][..OwnLength(k)]
  {
    CombosExact(n, k);
    var ps := Positions(|n|, k, 0);
    var i := LastIndex(ps, OwnLength(k), j, v);
    SelectAlike(n, ps[i], ps[j], OwnLength(k));
  }

  /** It is the saved combination itself where combinations of that size have their own array,
      and where there is only one. */
  lemma HeldIntact(n: seq<int>, k: nat, j: nat, v: nat)
    requires k >= 1 && j < v <= |Combos(n, k)| && (OwnLength(k) == k || |n| <= k)
    ensures Held(n, k, j, v) == Combos(n, k)[j]
  {
    CombosExact(n, k);
    var ps := Positions(|n|, k, 0);
    var i := LastIndex(ps, OwnLength(k), j, v);
    if OwnLength(k) == k {
      WholePrefix(ps[i], ps[j]);
    } else {
      OneChoice(|n|, k, ps[i], ps[j]);
    }
  }

  /** In general it is the saved combination if and only if no later one that was visited
      begins alike. */
  lemma HeldIff(n: seq<int>, k: nat, j: nat, v: nat)
    requires NoDup(n) && k >= 1 && j < v <= |Combos(n, k)|
    ensures Held(n, k, j, v) == Combos(n, k)[j] <==> LastLike(Positions(|n|, k, 0), OwnLength(k), j, v, j)
  {
    CombosExact(n, k);
    var ps := Positions(|n|, k, 0);
    var i := LastIndex(ps, OwnLength(k), j, v);
    SamePositions(n, ps[i], ps[j]);
    LastOne(ps, OwnLength(k), j, v, i);
    if j < i {
      LaterDiffers(ps, j, i);
    }
  }

  lemma LastOne(ps: seq<seq<nat>>, l: nat, j: nat, v: nat, i: nat)
    requires LastLike(ps, l, j, v, i)
    ensures j <= i && (LastLike(ps, l, j, v, j) <==> i == j)
  {
  }

  /** The first two lists of k positions differ in the last one only. */
  ghost predicate Twins(ps: seq<seq<nat>>, k: nat) {
    && k >= 1 && |ps| >= 2 && |ps[0]| == |ps[1]| == k
    && ps[0][..k - 1] == ps[1][..k - 1] && ps[0][k - 1] != ps[1][k - 1]
  }

  lemma TwinsMore(a: seq<seq<nat>>, b: seq<seq<nat>>, start: nat, k: nat)
    requires Twins(a, k)
    ensures Twins(Prepend(start, a) + b, k + 1)
  {
    var ps := Prepend(start, a) + b;
    assert ps[0] == [start] + a[0] && ps[1] == [start] + a[1];
    FirstAlike(start, a[0], a[1], k);
  }

  lemma TwinsOne(len: nat, start: nat)
    requires start + 1 < len
    ensures Twins(Positions(len, 1, start), 1)
  {
    var a, b, ps := Positions(len, 1, start + 2), Positions(len, 1, start + 1), Positions(len, 1, start);
    assert Positions(len, 0, start + 1) == [[]] && Positions(len, 0, start + 2) == [[]];
    assert b == Prepend(start + 1, [[]]) + a && ps == Prepend(start, [[]]) + b;
    assert ps[0] == [start] && ps[1] == b[0] == [start + 1];
  }

  lemma {:induction false} FirstTwins(len: nat, k: nat, start: nat)
    requires k >= 1 && start + k < len
    ensures Twins(Positions(len, k, start), k)
    decreases k
  {
    if k == 1 {
      TwinsOne(len, start);
    } else {
      FirstTwins(len, k - 1, start + 1);
      TwinsMore(Positions(len, k - 1, start + 1), Positions(len, k, start + 1), start, k - 1);
    }
  }

  /** The first k elements are visited first. */
  lemma {:induction false} FirstChoice(len: nat, k: nat, start: nat)
    requires start + k <= len
    ensures var ps := Positions(len, k, start);
      ps != [] && |ps[0]| == k && forall x :: 0 <= x < k ==> ps[0][x] == start + x
    decreases k
  {
    if k > 0 {
      FirstChoice(len, k - 1, start + 1);
      assert Positions(len, k, start)[0] == [start] + Positions(len, k - 1, start + 1)[0];
    }
  }

  lemma FirstElements(n: seq<int>, k: nat)
    requires k <= |n|
    ensures Combos(n, k) != [] && Combos(n, k)[0] == n[..k]
  {
    CombosExact(n, k);
    FirstChoice(|n|, k, 0);
    FirstSelected(n, Positions(|n|, k, 0)[0]);
  }

  lemma FirstSelected(n: seq<int>, p: seq<nat>)
    requires |p| <= |n| && forall x :: 0 <= x < |p| ==> p[x] == x
    ensures Select(n, p) == n[..|p|]
  {
  }

  /** All slices keep their combination, however far the walk goes, if and only if combinations
      of that size have their own array or there is at most one. */
  lemma AllIntactIff(n: seq<int>, k: nat)
    requires NoDup(n) && k >= 1
    ensures (forall j: nat, v: nat :: j < v <= |Combos(n, k)| ==> Held(n, k, j, v) == Combos(n, k)[j])
      <==> OwnLength(k) == k || |n| <= k
  {
    if OwnLength(k) == k || |n| <= k {
      forall j: nat, v: nat | j < v <= |Combos(n, k)| ensures Held(n, k, j, v) == Combos(n, k)[j] {
        HeldIntact(n, k, j, v);
      }
    } else {
      FirstTwins(|n|, k, 0);
      FirstLost(n, k, 2);
    }
  }

  /** Otherwise the slice of the first one is written over by the next call. */
  lemma FirstLost(n: seq<int>, k: nat, v: nat)
    requires NoDup(n) && k >= 1 && OwnLength(k) < k < |n| && 2 <= v <= |Positions(|n|, k, 0)|
    ensures v <= |Combos(n, k)| && Held(n, k, 0, v) != Combos(n, k)[0]
  {
    FirstTwins(|n|, k, 0);
    NotLast(Positions(|n|, k, 0), k, OwnLength(k), v);
    CombosSize(n, k);
    HeldIff(n, k, 0, v);
  }

  lemma CombosSize(n: seq<int>, k: nat)
    ensures |Combos(n, k)| == |Positions(|n|, k, 0)|
  {
  }

  lemma NotLast(ps: seq<seq<nat>>, k: nat, l: nat, v: nat)
    requires Twins(ps, k) && l < k && 2 <= v <= |ps|
    ensures !LastLike(ps, l, 0, v, 0)
  {
    assert ps[0][..k - 1][..l] == ps[0][..l] && ps[1][..k - 1][..l] == ps[1][..l];
  }

  lemma LaterDiffers(ps: seq<seq<nat>>, j: nat, i: nat)
    requires LexSorted(ps) && j < i < |ps|
    ensures ps[i] != ps[j]
  {
    assert LexLess(ps[j], ps[i]);
  }

  lemma SamePositions(n: seq<int>, p: seq<nat>, q: seq<nat>)
    requires NoDup(n) && |p| == |q| && Increasing(p, 0, |n|) && Increasing(q, 0, |n|)
    ensures Select(n, p) == Select(n, q) <==> p == q
  {
    if Select(n, p) == Select(n, q) {
      forall x | 0 <= x < |p| ensures p[x] == q[x] {
        assert Select(n, p)[x] == n[p[x]] && Select(n, q)[x] == n[q[x]];
      }
    }
  }

  lemma WholePrefix(p: seq<nat>, q: seq<nat>)
    requires |p| == |q| && p[..|p|] == q[..|p|]
    ensures p == q
  {
    assert p[..|p|] == p && q[..|p|] == q;
  }

  lemma {:induction false} PositionBounds(len: nat, p: seq<nat>, start: nat, x: nat)
    requires Increasing(p, start, len) && x < |p|
    ensures start + x <= p[x] <= len - (|p| - x)
    decreases |p|
  {
    if |p| > 1 {
      IncreasingTail(p, start, len);
      PositionBounds(len, p[1..], p[0] + 1, if x > 0 then x - 1 else 0);
    }
  }

  lemma OneChoice(len: nat, k: nat, p: seq<nat>, q: seq<nat>)
    requires |p| == |q| == k >= len && Increasing(p, 0, len) && Increasing(q, 0, len)
    ensures p == q
  {
    forall x | 0 <= x < k ensures p[x] == q[x] {
      PositionBounds(len, p, 0, x);
      PositionBounds(len, q, 0, x);
    }
  }

  /** Up to three elements, and at five, every combination has its own array; four share. */
  lemma SmallLengths()
    ensures OwnLength(1) == 1 && OwnLength(2) == 2 && OwnLength(3) == 3 && OwnLength(4) == 3 && OwnLength(5) == 5
  {
    assert AllocatedAt(2, 3) == 3 && AllocatedAt(2, 4) == 3;
    assert AllocatedAt(4, 5) == 5 && AllocatedAt(2, 5) == 5;
    assert AllocatedAt(1, 3) == 3 && AllocatedAt(1, 4) == 3 && AllocatedAt(1, 5) == 5;
  }
}
