/** The deterministic order used by every sort of the CPU accumulator: ids are ordered
    by a weight (how many CPUs are free in the unit) and, on ties, by the id itself. */
module Sorting {

  /** The comparison function handed to sort.Slice. */
  predicate Before(w: map<int, int>, a: int, b: int)
    requires a in w && b in w
  {
    w[a] < w[b] || (w[a] == w[b] && a < b)
  }

  ghost predicate NoDup(s: seq<int>) {
    forall i, j :: 0 <= i < j < |s| ==> s[i] != s[j]
  }

  ghost predicate SortedBy(w: map<int, int>, s: seq<int>)
    requires forall x :: x in s ==> x in w
  {
    forall i, j :: 0 <= i < j < |s| ==> Before(w, s[i], s[j])
  }

  function Elements(s: seq<int>): set<int> {
    set x | x in s
  }

  lemma Pick<T>(s: set<T>) returns (x: T)
    requires s != {}
    ensures x in s
  {
    x :| x in s;
  }

  /** The same for iteration over a set in any order. */
  method AnyOf<T(==)>(s: set<T>) returns (x: T)
    requires s != {}
    ensures x in s
  {
    x :| x in s;
  }

  lemma IndexOf<T>(s: seq<T>, x: T) returns (i: nat)
    requires x in s
    ensures i < |s| && s[i] == x
  {
    i :| 0 <= i < |s| && s[i] == x;
  }

  lemma AppendMoves<T>(done: seq<T>, next: seq<T>, rest: seq<T>)
    ensures (done + next) + rest == done + (next + rest)
  {
  }

  /** The elements of a list, its head taken apart. */
  lemma HeadTail(s: seq<int>)
    requires s != []
    ensures s == [s[0]] + s[1..]
    ensures Elements(s) == {s[0]} + Elements(s[1..])
    ensures NoDup(s) ==> NoDup(s[1..]) && s[0] !in Elements(s[1..])
  {
    var t := s[1..];
    forall x ensures x in Elements(s) <==> x in {s[0]} + Elements(t) {
      if x in Elements(t) {
        var i := IndexOf(t, x);
        assert s[i + 1] == x;
      }
      if x in Elements(s) {
        var i := IndexOf(s, x);
        assert i > 0 ==> t[i - 1] == x;
      }
    }
    if NoDup(s) {
      forall i | 0 <= i < |t| ensures t[i] == s[i + 1] && t[i] != s[0] {
      }
    }
  }

  ghost predicate IsFirst(w: map<int, int>, ids: set<int>, m: int)
    requires ids <= w.Keys
  {
    m in ids && forall x :: x in ids && x != m ==> Before(w, m, x)
  }

  lemma {:induction false} FirstExists(w: map<int, int>, ids: set<int>)
    requires ids != {} && ids <= w.Keys
    ensures exists m :: IsFirst(w, ids, m)
    decreases |ids|
  {
    var y := Pick(ids);
    var rest := ids - {y};
    if rest == {} {
      assert ids == {y};
      assert IsFirst(w, ids, y);
    } else {
      FirstExists(w, rest);
      var m :| IsFirst(w, rest, m);
      var k := if Before(w, m, y) then m else y;
      forall x | x in ids && x != k ensures Before(w, k, x) {
        assert x == y || x in rest;
      }
      assert IsFirst(w, ids, k);
    }
  }

  function First(w: map<int, int>, ids: set<int>): (m: int)
    requires ids != {} && ids <= w.Keys
    ensures IsFirst(w, ids, m)
  {
    FirstExists(w, ids);
    assert forall a, b :: IsFirst(w, ids, a) && IsFirst(w, ids, b) ==> a == b;
    var m :| m in ids && forall x :: x in ids && x != m ==> Before(w, m, x);
    m
  }

  /** sort.Slice over a list of distinct ids: the order is strict, so the result is unique
      (SortUnique) and does not depend on the order in which the ids are supplied. */
  function SortIds(w: map<int, int>, ids: set<int>): (r: seq<int>)
    requires ids <= w.Keys
    ensures |r| == |ids|
    ensures forall x :: x in r <==> x in ids
    ensures SortedBy(w, r)
    decreases |ids|
  {
    if ids == {} then []
    else
      var m := First(w, ids);
      [m] + SortIds(w, ids - {m})
  }

  lemma SortedHeadFirst(w: map<int, int>, s: seq<int>)
    requires s != [] && Elements(s) <= w.Keys && (forall x :: x in s ==> x in w) && SortedBy(w, s)
    ensures IsFirst(w, Elements(s), s[0]) && Elements(s[1..]) == Elements(s) - {s[0]}
  {
    HeadTail(s);
    forall x | x in Elements(s[1..]) ensures x != s[0] && Before(w, s[0], x) {
      var i := IndexOf(s[1..], x);
      assert Before(w, s[0], s[i + 1]);
    }
  }

  lemma {:induction false} SortUnique(w: map<int, int>, ids: set<int>, s: seq<int>)
    requires ids <= w.Keys
    requires Elements(s) == ids
    requires SortedBy(w, s)
    ensures s == SortIds(w, ids)
    decreases |s|
  {
    if s == [] {
    } else {
      SortedHeadFirst(w, s);
      assert s[0] == First(w, ids);
      assert s == [s[0]] + s[1..];
      SortUnique(w, ids - {s[0]}, s[1..]);
    }
  }

  lemma SortedNoDup(w: map<int, int>, s: seq<int>)
    requires forall x :: x in s ==> x in w
    requires SortedBy(w, s)
    ensures NoDup(s)
  {
    forall i, j | 0 <= i < j < |s| ensures s[i] != s[j] {
      assert Before(w, s[i], s[j]);
    }
  }

  /** cpuset.List(): the elements of a set in ascending order. */
  function List(s: set<int>): (r: seq<int>)
    ensures |r| == |s|
    ensures forall x :: x in r <==> x in s
    ensures forall i, j :: 0 <= i < j < |r| ==> r[i] < r[j]
  {
    var w := map x | x in s :: 0;
    var r := SortIds(w, s);
    assert forall i, j :: 0 <= i < j < |r| ==> Before(w, r[i], r[j]);
    r
  }

  lemma {:induction false} NoDupSize(s: seq<int>)
    requires NoDup(s)
    ensures |Elements(s)| == |s|
  {
    if s == [] {
      assert Elements(s) == {};
    } else {
      var t := s[..|s| - 1];
      NoDupSize(t);
      assert Elements(s) == Elements(t) + {s[|s| - 1]};
      assert s[|s| - 1] !in Elements(t);
    }
  }

  lemma {:induction false} SubsetSize(a: set<int>, b: set<int>)
    requires a <= b
    ensures |a| <= |b| && (|a| == |b| ==> a == b)
    ensures |b - a| == |b| - |a|
  {
    assert b == a + (b - a);
    assert |b| == |a| + |b - a|;
    if |a| == |b| {
      assert b - a == {};
    }
  }

  predicate InRange(c: int, lo: int, hi: int) {
    lo <= c < hi
  }

  /** The ids lo .. hi - 1. */
  function Range(lo: int, hi: int): set<int> {
    set c | lo <= c < hi && InRange(c, lo, hi) :: c
  }

  lemma {:induction false} RangeSize(lo: int, hi: int)
    requires lo <= hi
    ensures |Range(lo, hi)| == hi - lo
    ensures forall c :: c in Range(lo, hi) <==> lo <= c < hi
    decreases hi - lo
  {
    forall c ensures c in Range(lo, hi) <==> lo <= c < hi {
      assert InRange(c, lo, hi) <==> lo <= c < hi;
    }
    if lo == hi {
      assert Range(lo, hi) == {};
    } else {
      RangeSize(lo + 1, hi);
      assert Range(lo, hi) == {lo} + Range(lo + 1, hi);
    }
  }
}
