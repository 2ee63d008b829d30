/** iterateCombinations: calls a function on every k-element subsequence of a list. */
module Combinations {

  datatype LoopControl = Continue | Break

  function Prepend(p: nat, rest: seq<seq<nat>>): (r: seq<seq<nat>>)
    ensures |r| == |rest| && forall i :: 0 <= i < |r| ==> r[i] == [p] + rest[i]
  {
    seq(|rest|, i requires 0 <= i < |rest| => [p] + rest[i])
  }

  /** The positions chosen by the successive calls when k more are to be chosen at or after
      `start` below `len`. */
  function Positions(len: nat, k: nat, start: nat): seq<seq<nat>>
    decreases k, len - start
  {
    if k == 0 then [[]]
    else if start + k > len then []
    else Prepend(start, Positions(len, k - 1, start + 1)) + Positions(len, k, start + 1)
  }

  ghost predicate Increasing(p: seq<nat>, start: nat, len: nat) {
    && (forall i :: 0 <= i < |p| ==> start <= p[i] < len)
    && (forall i, j :: 0 <= i < j < |p| ==> p[i] < p[j])
  }

  ghost predicate LexLess(p: seq<nat>, q: seq<nat>) {
    exists k :: 0 <= k < |p| && k < |q| && p[..k] == q[..k] && p[k] < q[k]
  }

  ghost predicate LexSorted(ps: seq<seq<nat>>) {
    forall i, j :: 0 <= i < j < |ps| ==> LexLess(ps[i], ps[j])
  }

  lemma PrependIncreasing(q: seq<nat>, start: nat, len: nat)
    requires Increasing(q, start + 1, len) && start < len
    ensures Increasing([start] + q, start, len)
  {
    var p := [start] + q;
    forall i, j | 0 <= i < j < |p| ensures p[i] < p[j] {
      assert p[j] == q[j - 1];
      assert i > 0 ==> p[i] == q[i - 1];
    }
  }

  /** Every choice made is an increasing run of k positions. */
  lemma {:induction false} PositionsSound(len: nat, k: nat, start: nat)
    ensures forall p :: p in Positions(len, k, start) ==> |p| == k && Increasing(p, start, len)
    decreases k, len - start
  {
    if k == 0 || start + k > len {
    } else {
      var inner := Positions(len, k - 1, start + 1);
      PositionsSound(len, k - 1, start + 1);
      PositionsSound(len, k, start + 1);
      forall p | p in Positions(len, k, start) ensures |p| == k && Increasing(p, start, len) {
        if p in Prepend(start, inner) {
          var i :| 0 <= i < |inner| && p == [start] + inner[i];
          assert inner[i] in inner;
          PrependIncreasing(inner[i], start, len);
        } else {
          assert p in Positions(len, k, start + 1);
          assert Increasing(p, start + 1, len);
        }
      }
    }
  }

  lemma IncreasingTail(p: seq<nat>, start: nat, len: nat)
    requires Increasing(p, start, len) && p != []
    ensures Increasing(p[1..], p[0] + 1, len)
    ensures p[0] > start ==> Increasing(p, start + 1, len)
  {
    assert forall i :: 0 <= i < |p| - 1 ==> p[1..][i] == p[i + 1];
    assert forall i :: 0 < i < |p| ==> p[0] < p[i];
  }

  lemma PrependContains(x: nat, inner: seq<seq<nat>>, q: seq<nat>)
    requires q in inner
    ensures [x] + q in Prepend(x, inner)
  {
    var i :| 0 <= i < |inner| && inner[i] == q;
    assert Prepend(x, inner)[i] == [x] + q;
  }

  /** Every increasing run of k positions is chosen. */
  lemma {:induction false} PositionsComplete(len: nat, k: nat, start: nat, p: seq<nat>)
    requires |p| == k && Increasing(p, start, len)
    ensures p in Positions(len, k, start)
    decreases k, len - start
  {
    if k == 0 {
      assert p == [];
    } else {
      assert p == [p[0]] + p[1..];
      IncreasingFits(p, start, len);
      IncreasingTail(p, start, len);
      if p[0] == start {
        PositionsComplete(len, k - 1, start + 1, p[1..]);
        PrependContains(start, Positions(len, k - 1, start + 1), p[1..]);
      } else {
        PositionsComplete(len, k, start + 1, p);
      }
    }
  }

  lemma {:induction false} IncreasingFits(p: seq<nat>, start: nat, len: nat)
    requires Increasing(p, start, len) && p != []
    ensures start + |p| <= len
    decreases |p|
  {
    if |p| == 1 {
    } else {
      IncreasingTail(p, start, len);
      IncreasingFits(p[1..], p[0] + 1, len);
    }
  }

  /** The choices come in strictly lexicographic order, so none is made twice. */
  lemma {:induction false} PositionsOrdered(len: nat, k: nat, start: nat)
    ensures LexSorted(Positions(len, k, start))
    decreases k, len - start
  {
    if k == 0 || start + k > len {
    } else {
      var inner, tail := Positions(len, k - 1, start + 1), Positions(len, k, start + 1);
      var head := Prepend(start, inner);
      var ps := head + tail;
      PositionsOrdered(len, k - 1, start + 1);
      PositionsOrdered(len, k, start + 1);
      PositionsSound(len, k, start + 1);
      forall i, j | 0 <= i < j < |ps| ensures LexLess(ps[i], ps[j]) {
        if j < |head| {
          LexPrepend(start, inner[i], inner[j]);
        } else if i < |head| {
          assert ps[j] in tail;
          assert ps[i][..0] == ps[j][..0] && ps[i][0] < ps[j][0];
        } else {
          assert ps[i] == tail[i - |head|] && ps[j] == tail[j - |head|];
        }
      }
    }
  }

  lemma LexPrepend(x: nat, p: seq<nat>, q: seq<nat>)
    requires LexLess(p, q)
    ensures LexLess([x] + p, [x] + q)
  {
    var k :| 0 <= k < |p| && k < |q| && p[..k] == q[..k] && p[k] < q[k];
    var p', q' := [x] + p, [x] + q;
    assert p'[..k + 1] == [x] + p[..k] && q'[..k + 1] == [x] + q[..k];
    assert p'[k + 1] < q'[k + 1];
  }

  /** The elements at the given positions. */
  function Select<T>(n: seq<T>, p: seq<nat>): (r: seq<T>)
    requires forall i :: 0 <= i < |p| ==> p[i] < |n|
    ensures |r| == |p| && forall i :: 0 <= i < |p| ==> r[i] == n[p[i]]
  {
    seq(|p|, i requires 0 <= i < |p| => n[p[i]])
  }

  ghost predicate AllBelow(ps: seq<seq<nat>>, len: nat) {
    forall p :: p in ps ==> forall i :: 0 <= i < |p| ==> p[i] < len
  }

  lemma PositionsBelow(len: nat, k: nat, start: nat)
    ensures AllBelow(Positions(len, k, start), len)
  {
    PositionsSound(len, k, start);
    forall p | p in Positions(len, k, start) ensures forall i :: 0 <= i < |p| ==> p[i] < len {
      assert Increasing(p, start, len);
    }
  }

  function SelectAll<T>(n: seq<T>, ps: seq<seq<nat>>, accum: seq<T>): (r: seq<seq<T>>)
    requires AllBelow(ps, |n|)
    ensures |r| == |ps| && forall j :: 0 <= j < |r| ==> r[j] == accum + Select(n, ps[j])
  {
    seq(|ps|, j requires 0 <= j < |ps| => assert ps[j] in ps; accum + Select(n, ps[j]))
  }

  /** The arguments of the successive calls below one helper activation. */
  function Below<T>(n: seq<T>, k: nat, start: nat, accum: seq<T>): seq<seq<T>> {
    PositionsBelow(|n|, k, start);
    SelectAll(n, Positions(|n|, k, start), accum)
  }

  /** The arguments of the successive calls. */
  function Combos<T>(n: seq<T>, k: nat): seq<seq<T>> {
    Below(n, k, 0, [])
  }

  /** f called on the elements of a list in turn, threading its state, until it says Break. */
  function Run<S, T>(f: (S, seq<T>) -> (S, LoopControl), s: S, args: seq<seq<T>>): (S, LoopControl) {
    if args == [] then (s, Continue)
    else
      var (s', control) := f(s, args[0]);
      if control == Break then (s', Break) else Run(f, s', args[1..])
  }

  /** The calls made: the arguments up to and including the first one answered by Break. */
  ghost function Calls<S, T>(f: (S, seq<T>) -> (S, LoopControl), s: S, args: seq<seq<T>>): seq<seq<T>> {
    if args == [] then []
    else
      var (s', control) := f(s, args[0]);
      if control == Break then [args[0]] else [args[0]] + Calls(f, s', args[1..])
  }

  lemma {:induction false} RunConcat<S, T>(f: (S, seq<T>) -> (S, LoopControl), s: S, a: seq<seq<T>>, b: seq<seq<T>>)
    ensures Run(f, s, a + b)
         == (var (s', control) := Run(f, s, a); if control == Break then (s', Break) else Run(f, s', b))
    decreases |a|
  {
    if a == [] {
      assert a + b == b;
    } else {
      assert (a + b)[0] == a[0] && (a + b)[1..] == a[1..] + b;
      var (s', control) := f(s, a[0]);
      if control != Break {
        RunConcat(f, s', a[1..], b);
      }
    }
  }

  lemma SelectPrepend<T>(n: seq<T>, x: nat, p: seq<nat>, accum: seq<T>)
    requires x < |n| && forall i :: 0 <= i < |p| ==> p[i] < |n|
    ensures (forall i :: 0 <= i < |[x] + p| ==> ([x] + p)[i] < |n|)
      && accum + Select(n, [x] + p) == accum + [n[x]] + Select(n, p)
  {
    var q := [x] + p;
    assert forall i :: 0 < i < |q| ==> q[i] == p[i - 1];
    assert Select(n, q) == [n[x]] + Select(n, p);
  }

  lemma SelectAllPrepend<T>(n: seq<T>, x: nat, inner: seq<seq<nat>>, accum: seq<T>)
    requires x < |n| && AllBelow(inner, |n|) && AllBelow(Prepend(x, inner), |n|)
    ensures SelectAll(n, Prepend(x, inner), accum) == SelectAll(n, inner, accum + [n[x]])
  {
    forall j | 0 <= j < |inner|
      ensures SelectAll(n, Prepend(x, inner), accum)[j] == SelectAll(n, inner, accum + [n[x]])[j]
    {
      assert inner[j] in inner;
      SelectPrepend(n, x, inner[j], accum);
    }
  }

  lemma SelectAllConcat<T>(n: seq<T>, a: seq<seq<nat>>, b: seq<seq<nat>>, accum: seq<T>)
    requires AllBelow(a, |n|) && AllBelow(b, |n|) && AllBelow(a + b, |n|)
    ensures SelectAll(n, a + b, accum) == SelectAll(n, a, accum) + SelectAll(n, b, accum)
  {
  }

  lemma SelectAllStep<T>(n: seq<T>, x: nat, inner: seq<seq<nat>>, outer: seq<seq<nat>>, accum: seq<T>)
    requires x < |n| && AllBelow(inner, |n|) && AllBelow(outer, |n|) && AllBelow(Prepend(x, inner) + outer, |n|)
    ensures SelectAll(n, Prepend(x, inner) + outer, accum)
         == SelectAll(n, inner, accum + [n[x]]) + SelectAll(n, outer, accum)
  {
    var head := Prepend(x, inner);
    AllBelowHead(head, outer, |n|);
    SelectAllConcat(n, head, outer, accum);
    SelectAllPrepend(n, x, inner, accum);
  }

  lemma BelowStep<T>(n: seq<T>, k: nat, start: nat, accum: seq<T>)
    requires k >= 1 && start + k <= |n|
    ensures Below(n, k, start, accum) == Below(n, k - 1, start + 1, accum + [n[start]]) + Below(n, k, start + 1, accum)
  {
    PositionsBelow(|n|, k, start);
    PositionsBelow(|n|, k - 1, start + 1);
    PositionsBelow(|n|, k, start + 1);
    SelectAllStep(n, start, Positions(|n|, k - 1, start + 1), Positions(|n|, k, start + 1), accum);
  }

  lemma AllBelowHead(a: seq<seq<nat>>, b: seq<seq<nat>>, len: nat)
    requires AllBelow(a + b, len)
    ensures AllBelow(a, len)
  {
    forall p | p in a ensures forall i :: 0 <= i < |p| ==> p[i] < len {
      assert p in a + b;
    }
  }

  lemma RunBelow<S, T>(n: seq<T>, k: nat, i: nat, accum: seq<T>, f: (S, seq<T>) -> (S, LoopControl), s: S)
    requires k >= 1 && i + k <= |n|
    ensures Run(f, s, Below(n, k, i, accum))
         == (var (s', control) := Run(f, s, Below(n, k - 1, i + 1, accum + [n[i]]));
             if control == Break then (s', Break) else Run(f, s', Below(n, k, i + 1, accum)))
  {
    BelowStep(n, k, i, accum);
    RunConcat(f, s, Below(n, k - 1, i + 1, accum + [n[i]]), Below(n, k, i + 1, accum));
  }

  method Helper<S, T>(n: seq<T>, k: nat, start: nat, accum: seq<T>, f: (S, seq<T>) -> (S, LoopControl), s: S)
    returns (s': S, control: LoopControl)
    ensures (s', control) == Run(f, s, Below(n, k, start, accum))
    decreases k
  {
    if k == 0 {
      var (r, c) := f(s, accum);
      assert accum + Select(n, []) == accum;
      assert Below(n, 0, start, accum) == [accum];
      assert [accum][1..] == [];
      return r, c;
    }
    s', control := s, Continue;
    var i := start;
    while i + k <= |n|
      invariant start <= i
      invariant control == Continue
      invariant Run(f, s', Below(n, k, i, accum)) == Run(f, s, Below(n, k, start, accum))
      decreases |n| - i
    {
      RunBelow(n, k, i, accum, f, s');
      s', control := Helper(n, k - 1, i + 1, accum + [n[i]], f, s');
      if control == Break {
        return;
      }
      i := i + 1;
    }
    assert Below(n, k, i, accum) == [];
  }

  /** iterateCombinations, with the variables its callback captures passed as a state. */
  method IterateCombinations<S, T>(n: seq<T>, k: int, f: (S, seq<T>) -> (S, LoopControl), s: S) returns (s': S)
    ensures s' == if k < 1 then s else Run(f, s, Combos(n, k)).0
  {
    if k < 1 {
      return s;
    }
    var control;
    s', control := Helper(n, k, 0, [], f, s);
  }

  lemma CombosAt<T>(n: seq<T>, k: nat, j: nat) returns (p: seq<nat>)
    requires j < |Combos(n, k)|
    ensures |p| == k && Increasing(p, 0, |n|) && Combos(n, k)[j] == Select(n, p)
  {
    PositionsSound(|n|, k, 0);
    PositionsBelow(|n|, k, 0);
    p := Positions(|n|, k, 0)[j];
    assert p in Positions(|n|, k, 0);
  }

  /** The callback sees every k-element subsequence, exactly once, in lexicographic order of
      the positions chosen. */
  lemma CombosExact<T>(n: seq<T>, k: nat)
    ensures var ps := Positions(|n|, k, 0);
      && |Combos(n, k)| == |ps|
      && (forall i :: 0 <= i < |ps| ==> |ps[i]| == k && Increasing(ps[i], 0, |n|) && Combos(n, k)[i] == Select(n, ps[i]))
      && (forall p :: |p| == k && Increasing(p, 0, |n|) ==> p in ps)
      && LexSorted(ps)
  {
    var ps := Positions(|n|, k, 0);
    PositionsSound(|n|, k, 0);
    PositionsOrdered(|n|, k, 0);
    forall i | 0 <= i < |ps|
      ensures |ps[i]| == k && Increasing(ps[i], 0, |n|) && Combos(n, k)[i] == Select(n, ps[i])
    {
      assert ps[i] in ps;
    }
    forall p | |p| == k && Increasing(p, 0, |n|) ensures p in ps {
      PositionsComplete(|n|, k, 0, p);
    }
  }

  /** After the first Break there is no further call: the calls are a prefix of the list, all
      of it unless the last call answered Break. */
  lemma {:induction false} CallsArePrefix<S, T>(f: (S, seq<T>) -> (S, LoopControl), s: S, args: seq<seq<T>>)
    ensures Calls(f, s, args) <= args
    ensures Run(f, s, args).1 == Continue <==> Run(f, s, Calls(f, s, args)).1 == Continue
    ensures Run(f, s, args).1 == Continue ==> Calls(f, s, args) == args
    ensures Run(f, s, args).1 == Break ==>
      Calls(f, s, args) != [] && Run(f, s, Calls(f, s, args)[..|Calls(f, s, args)| - 1]).1 == Continue
    ensures Run(f, s, Calls(f, s, args)) == Run(f, s, args)
    decreases |args|
  {
    if args == [] {
    } else {
      var (s', control) := f(s, args[0]);
      if control == Break {
        assert [args[0]][..0] == [];
        assert [args[0]][1..] == [];
      } else {
        CallsArePrefix(f, s', args[1..]);
        var rest := Calls(f, s', args[1..]);
        var calls := Calls(f, s, args);
        assert calls == [args[0]] + rest && calls[1..] == rest;
        if Run(f, s, args).1 == Break {
          assert calls[..|calls| - 1] == [args[0]] + rest[..|rest| - 1];
          assert calls[..|calls| - 1][1..] == rest[..|rest| - 1];
        }
      }
    }
  }
}
