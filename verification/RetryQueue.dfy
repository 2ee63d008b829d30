/** The retry queue of the reconciler, as functions on values, and its whole runs. */
module RetryQueue {
  import opened Sorting

  datatype Event = Event(kind: string, key: string)

  /** A pending event. The submission number stands for the event's data: it tells which
      submission of the same kind and key is meant. */
  datatype Entry = Entry(event: Event, attempts: nat, nextRetry: int, id: nat)

  datatype Limits = Limits(maxRetries: nat, baseDelay: nat, maxDelay: nat)

  /** What the handler and the clock do during one step. */
  datatype World = World(fails: Entry -> bool, done: Entry -> int)

  /** One call of the handler. */
  datatype Call = Call(id: nat, failed: bool)

  function Doubled(n: nat, times: nat): nat {
    if times == 0 then n else 2 * Doubled(n, times - 1)
  }

  function Delay(l: Limits, attempts: nat): nat {
    if Doubled(l.baseDelay, attempts) > l.maxDelay then l.maxDelay else Doubled(l.baseDelay, attempts)
  }

  function Again(l: Limits, e: Entry, w: World): Entry {
    e.(attempts := e.attempts + 1, nextRetry := w.done(e) + Delay(l, e.attempts))
  }

  predicate Retried(l: Limits, e: Entry, w: World) {
    w.fails(e) && e.attempts < l.maxRetries
  }

  /** What is left to do of an entry once it is reconciled. */
  function Reconciled(l: Limits, e: Entry, w: World): seq<Entry> {
    if Retried(l, e, w) then [Again(l, e, w)] else []
  }

  /** The delay doubles with every attempt, from the base delay up to the largest one. */
  lemma DelayDoubles(l: Limits, attempts: nat)
    ensures Delay(l, 0) == if l.baseDelay < l.maxDelay then l.baseDelay else l.maxDelay
    ensures Delay(l, attempts + 1) == if 2 * Delay(l, attempts) < l.maxDelay then 2 * Delay(l, attempts) else l.maxDelay
    ensures Delay(l, attempts) <= l.maxDelay
  {
  }

  predicate Due(e: Entry, now: int) {
    now > e.nextRetry
  }

  // ---- a tick

  function TickLeft(l: Limits, e: Entry, now: int, w: World): seq<Entry> {
    if Due(e, now) then Reconciled(l, e, w) else [e]
  }

  function TickCall(e: Entry, now: int, w: World): seq<Call> {
    if Due(e, now) then [Call(e.id, w.fails(e))] else []
  }

  function Ticked(l: Limits, q: seq<Entry>, now: int, w: World): seq<Entry> {
    if q == [] then []
    else TickLeft(l, q[0], now, w) + Ticked(l, q[1..], now, w)
  }

  function TickCalls(q: seq<Entry>, now: int, w: World): seq<Call> {
    if q == [] then []
    else TickCall(q[0], now, w) + TickCalls(q[1..], now, w)
  }

  /** A tick works entry by entry, in order. */
  lemma {:induction false} TickAppends(l: Limits, a: seq<Entry>, b: seq<Entry>, now: int, w: World)
    ensures Ticked(l, a + b, now, w) == Ticked(l, a, now, w) + Ticked(l, b, now, w)
    ensures TickCalls(a + b, now, w) == TickCalls(a, now, w) + TickCalls(b, now, w)
    decreases |a|
  {
    if a == [] {
      assert a + b == b;
    } else {
      assert (a + b)[1..] == a[1..] + b;
      TickAppends(l, a[1..], b, now, w);
    }
  }

  /** An entry whose time is past is given to the handler; if that fails and there are attempts
      left it stays, for later, and otherwise it goes. Any other entry stays as it is. */
  lemma TickOfOne(l: Limits, e: Entry, now: int, w: World)
    ensures Ticked(l, [e], now, w)
         == if e.nextRetry >= now then [e]
            else if w.fails(e) && e.attempts < l.maxRetries then
              [Entry(e.event, e.attempts + 1, w.done(e) + Delay(l, e.attempts), e.id)]
            else []
    ensures TickCalls([e], now, w) == if e.nextRetry >= now then [] else [Call(e.id, w.fails(e))]
  {
    assert [e][1..] == [];
  }

  /** It keeps exactly the entries not yet due and, with one more attempt, the due ones that
      failed and may be tried again. */
  lemma {:induction false} TickKeeps(l: Limits, q: seq<Entry>, now: int, w: World, x: Entry)
    ensures x in Ticked(l, q, now, w)
      <==> || (x in q && x.nextRetry >= now)
           || (exists e :: e in q && e.nextRetry < now && w.fails(e) && e.attempts < l.maxRetries
                           && x == Entry(e.event, e.attempts + 1, w.done(e) + Delay(l, e.attempts), e.id))
    decreases |q|
  {
    if q != [] {
      TickKeeps(l, q[1..], now, w, x);
      assert q == [q[0]] + q[1..];
      assert forall e :: e in q <==> e == q[0] || e in q[1..];
    }
  }

  // ---- an arrival

  predicate Same(a: Entry, b: Entry) {
    a.event.kind == b.event.kind && a.event.key == b.event.key
  }

  /** The place of the entry for the same event, or the end. */
  function Position(q: seq<Entry>, e: Entry): (i: nat)
    ensures i <= |q|
    ensures i < |q| ==> Same(q[i], e)
    ensures forall j :: 0 <= j < i ==> !Same(q[j], e)
  {
    if q == [] || Same(q[0], e) then 0 else 1 + Position(q[1..], e)
  }

  function Arrived(l: Limits, q: seq<Entry>, e: Entry, now: int, w: World): seq<Entry> {
    if Position(q, e) < |q| then q[Position(q, e) := e]
    else if e.attempts == 0 || Due(e, now) then q + Reconciled(l, e, w)
    else q + [e]
  }

  function ArrivalCalls(q: seq<Entry>, e: Entry, now: int, w: World): seq<Call> {
    if Position(q, e) < |q| then [] else if e.attempts == 0 || Due(e, now) then [Call(e.id, w.fails(e))] else []
  }

  ghost predicate SameEvent(q: seq<Entry>, i: int, e: Entry) {
    0 <= i < |q| && q[i].event.kind == e.event.kind && q[i].event.key == e.event.key
  }

  /** An event takes the place of the first pending one of its kind and key. Otherwise it is
      given to the handler if it is new or its time is past, and waits at the end if not. */
  lemma ArrivalIs(l: Limits, q: seq<Entry>, e: Entry, now: int, w: World)
    ensures forall i :: SameEvent(q, i, e) && (forall j :: 0 <= j < i ==> !SameEvent(q, j, e)) ==>
      Arrived(l, q, e, now, w) == q[i := e] && ArrivalCalls(q, e, now, w) == []
    ensures (forall i :: !SameEvent(q, i, e)) ==>
      if e.attempts > 0 && e.nextRetry >= now then
        Arrived(l, q, e, now, w) == q + [e] && ArrivalCalls(q, e, now, w) == []
      else
        && ArrivalCalls(q, e, now, w) == [Call(e.id, w.fails(e))]
        && Arrived(l, q, e, now, w)
           == if w.fails(e) && e.attempts < l.maxRetries then
                q + [Entry(e.event, e.attempts + 1, w.done(e) + Delay(l, e.attempts), e.id)]
              else q
  {
    var p := Position(q, e);
    if p < |q| {
      assert SameEvent(q, p, e);
    }
    forall i | SameEvent(q, i, e) && (forall j :: 0 <= j < i ==> !SameEvent(q, j, e)) ensures i == p {
      assert Same(q[i], e);
    }
    assert q + [] == q;
  }

  // ---- runs

  /** Every submission arrives without attempts; ticks come at any time. */
  datatype Step = Submit(event: Event, now: int, w: World) | Tick(now: int, w: World)

  /** The pending entries, the calls made, the number of submissions so far and those of them
      that a later one replaced before they were settled. */
  datatype State = State(pending: seq<Entry>, calls: seq<Call>, submitted: nat, replaced: set<nat>)

  function New(s: State, event: Event): Entry {
    Entry(event, 0, 0, s.submitted)
  }

  function After(l: Limits, s: State, step: Step): State {
    match step
    case Submit(event, now, w) =>
      var e := New(s, event);
      var i := Position(s.pending, e);
      State(Arrived(l, s.pending, e, now, w), s.calls + ArrivalCalls(s.pending, e, now, w), s.submitted + 1,
            if i < |s.pending| then s.replaced + {s.pending[i].id} else s.replaced)
    case Tick(now, w) =>
      s.(pending := Ticked(l, s.pending, now, w), calls := s.calls + TickCalls(s.pending, now, w))
  }

  function Reached(l: Limits, steps: seq<Step>): State
    decreases |steps|
  {
    if steps == [] then State([], [], 0, {}) else After(l, Reached(l, steps[..|steps| - 1]), steps[|steps| - 1])
  }

  function Count(calls: seq<Call>, id: nat): nat {
    if calls == [] then 0 else Count(calls[..|calls| - 1], id) + (if calls[|calls| - 1].id == id then 1 else 0)
  }

  predicate Succeeded(calls: seq<Call>, id: nat) {
    Call(id, false) in calls
  }

  ghost predicate Waiting(pending: seq<Entry>, id: nat) {
    exists i :: 0 <= i < |pending| && pending[i].id == id
  }

  /** One pending entry an event, its attempts counted right. */
  ghost predicate Orderly(l: Limits, pending: seq<Entry>, calls: seq<Call>, submitted: nat) {
    && (forall i, j :: 0 <= i < j < |pending| ==> !Same(pending[i], pending[j]) && pending[i].id != pending[j].id)
    && (forall i :: 0 <= i < |pending| ==> pending[i].id < submitted && pending[i].attempts <= l.maxRetries)
    && (forall i :: 0 <= i < |pending| ==> Count(calls, pending[i].id) == pending[i].attempts)
  }

  /** No submission is reconciled too often, and none is given up without reason. */
  ghost predicate Settled(l: Limits, pending: seq<Entry>, calls: seq<Call>, submitted: nat, replaced: set<nat>) {
    && (forall id: nat :: Count(calls, id) <= l.maxRetries + 1)
    && (forall id: nat :: id >= submitted ==> Count(calls, id) == 0)
    && (forall id: nat :: id < submitted ==>
          Waiting(pending, id) || id in replaced || Succeeded(calls, id) || Count(calls, id) == l.maxRetries + 1)
  }

  ghost predicate Good(l: Limits, s: State) {
    Orderly(l, s.pending, s.calls, s.submitted) && Settled(l, s.pending, s.calls, s.submitted, s.replaced)
  }

  lemma CountMore(calls: seq<Call>, c: Call)
    ensures forall id: nat :: Count(calls + [c], id) == Count(calls, id) + (if c.id == id then 1 else 0)
  {
    assert (calls + [c])[..|calls|] == calls;
  }

  /** The entry at the end of the processed part is reconciled: it stays with one more attempt
      or goes, and the call is counted. */
  lemma ReconcileGood(l: Limits, kept: seq<Entry>, e: Entry, rest: seq<Entry>, calls: seq<Call>, submitted: nat,
                      replaced: set<nat>, w: World)
    requires Orderly(l, kept + ([e] + rest), calls, submitted)
    requires Settled(l, kept + ([e] + rest), calls, submitted, replaced)
    ensures var after, more := kept + Reconciled(l, e, w) + rest, calls + [Call(e.id, w.fails(e))];
      Orderly(l, after, more, submitted) && Settled(l, after, more, submitted, replaced)
  {
    CountMore(calls, Call(e.id, w.fails(e)));
    ReconcileOrderly(l, kept, e, rest, calls, submitted, w);
    ReconcileSettled(l, kept, e, rest, calls, submitted, replaced, w);
  }

  lemma ReconcileOrderly(l: Limits, kept: seq<Entry>, e: Entry, rest: seq<Entry>, calls: seq<Call>, submitted: nat, w: World)
    requires Orderly(l, kept + ([e] + rest), calls, submitted)
    ensures Orderly(l, kept + Reconciled(l, e, w) + rest, calls + [Call(e.id, w.fails(e))], submitted)
  {
    var before, after := kept + ([e] + rest), kept + Reconciled(l, e, w) + rest;
    CountMore(calls, Call(e.id, w.fails(e)));
    assert before[|kept|] == e;
    var shift := if Retried(l, e, w) then 0 else 1;
    forall i | 0 <= i < |after|
      ensures var k := if i < |kept| then i else i + shift;
        k < |before| && after[i].id == before[k].id && after[i].event == before[k].event
        && (if k == |kept| then after[i] == Again(l, e, w) && Retried(l, e, w) else after[i] == before[k])
    {
    }
  }

  lemma ReconcileSettled(l: Limits, kept: seq<Entry>, e: Entry, rest: seq<Entry>, calls: seq<Call>, submitted: nat,
                         replaced: set<nat>, w: World)
    requires Orderly(l, kept + ([e] + rest), calls, submitted)
    requires Settled(l, kept + ([e] + rest), calls, submitted, replaced)
    ensures Settled(l, kept + Reconciled(l, e, w) + rest, calls + [Call(e.id, w.fails(e))], submitted, replaced)
  {
    var before, after := kept + ([e] + rest), kept + Reconciled(l, e, w) + rest;
    var more := calls + [Call(e.id, w.fails(e))];
    CountMore(calls, Call(e.id, w.fails(e)));
    assert before[|kept|] == e;
    forall id: nat | id < submitted
      ensures Waiting(after, id) || id in replaced || Succeeded(more, id) || Count(more, id) == l.maxRetries + 1
    {
      if id == e.id {
        if Retried(l, e, w) {
          assert after[|kept|].id == id;
        }
      } else if Waiting(before, id) {
        var i :| 0 <= i < |before| && before[i].id == id;
        assert after[if i < |kept| then i else if Retried(l, e, w) then i else i - 1].id == id;
      }
    }
  }

  lemma {:induction false} TickGood(l: Limits, kept: seq<Entry>, q: seq<Entry>, calls: seq<Call>, submitted: nat,
                                    replaced: set<nat>, now: int, w: World)
    requires Orderly(l, kept + q, calls, submitted) && Settled(l, kept + q, calls, submitted, replaced)
    ensures var after, more := kept + Ticked(l, q, now, w), calls + TickCalls(q, now, w);
      Orderly(l, after, more, submitted) && Settled(l, after, more, submitted, replaced)
    decreases |q|
  {
    if q == [] {
      assert kept + [] == kept && calls + [] == calls;
    } else {
      var e, rest := q[0], q[1..];
      assert q == [e] + rest;
      if Due(e, now) {
        var call := Call(e.id, w.fails(e));
        ReconcileGood(l, kept, e, rest, calls, submitted, replaced, w);
        TickGood(l, kept + Reconciled(l, e, w), rest, calls + [call], submitted, replaced, now, w);
        AppendMoves(kept, Reconciled(l, e, w), Ticked(l, rest, now, w));
        AppendMoves(calls, [call], TickCalls(rest, now, w));
      } else {
        AppendMoves(kept, [e], rest);
        TickGood(l, kept + [e], rest, calls, submitted, replaced, now, w);
        AppendMoves(kept, [e], Ticked(l, rest, now, w));
        assert [] + TickCalls(rest, now, w) == TickCalls(rest, now, w);
      }
    }
  }

  /** A submission for an event already pending takes its place. */
  lemma ReplaceGood(l: Limits, s: State, event: Event)
    requires Good(l, s) && Position(s.pending, New(s, event)) < |s.pending|
    ensures var e := New(s, event);
      var i := Position(s.pending, e);
      Good(l, State(s.pending[i := e], s.calls, s.submitted + 1, s.replaced + {s.pending[i].id}))
  {
    var e := New(s, event);
    var i := Position(s.pending, e);
    var after := s.pending[i := e];
    forall id: nat | id <= s.submitted
      ensures Waiting(after, id) || id in s.replaced + {s.pending[i].id} || Succeeded(s.calls, id)
              || Count(s.calls, id) == l.maxRetries + 1
    {
      if id == s.submitted {
        assert after[i].id == id;
      } else if Waiting(s.pending, id) {
        var j :| 0 <= j < |s.pending| && s.pending[j].id == id;
        assert j != i ==> after[j].id == id;
      }
    }
  }

  /** A submission for a new event is as if it had been pending without attempts. */
  lemma AppendGood(l: Limits, s: State, event: Event)
    requires Good(l, s) && Position(s.pending, New(s, event)) == |s.pending|
    ensures Good(l, State(s.pending + [New(s, event)], s.calls, s.submitted + 1, s.replaced))
  {
    var e := New(s, event);
    var after := s.pending + [e];
    forall id: nat | id <= s.submitted
      ensures Waiting(after, id) || id in s.replaced || Succeeded(s.calls, id) || Count(s.calls, id) == l.maxRetries + 1
    {
      if id == s.submitted {
        assert after[|s.pending|].id == id;
      } else if Waiting(s.pending, id) {
        var j :| 0 <= j < |s.pending| && s.pending[j].id == id;
        assert after[j].id == id;
      }
    }
  }

  /** A submission for a new event is reconciled at once. */
  lemma NewGood(l: Limits, s: State, event: Event, w: World)
    requires Good(l, s) && Position(s.pending, New(s, event)) == |s.pending|
    ensures var e := New(s, event);
      Good(l, State(s.pending + Reconciled(l, e, w), s.calls + [Call(e.id, w.fails(e))], s.submitted + 1, s.replaced))
  {
    var e := New(s, event);
    AppendGood(l, s, event);
    assert s.pending + ([e] + []) == s.pending + [e];
    ReconcileGood(l, s.pending, e, [], s.calls, s.submitted + 1, s.replaced, w);
    assert s.pending + Reconciled(l, e, w) + [] == s.pending + Reconciled(l, e, w);
  }

  lemma SubmitGood(l: Limits, s: State, event: Event, now: int, w: World)
    requires Good(l, s)
    ensures Good(l, After(l, s, Submit(event, now, w)))
  {
    if Position(s.pending, New(s, event)) < |s.pending| {
      ReplaceGood(l, s, event);
      assert s.calls + [] == s.calls;
    } else {
      NewGood(l, s, event, w);
    }
  }

  lemma TicksGood(l: Limits, s: State, now: int, w: World)
    requires Good(l, s)
    ensures Good(l, After(l, s, Tick(now, w)))
  {
    assert [] + s.pending == s.pending;
    TickGood(l, [], s.pending, s.calls, s.submitted, s.replaced, now, w);
    assert [] + Ticked(l, s.pending, now, w) == Ticked(l, s.pending, now, w);
  }

  lemma AfterGood(l: Limits, s: State, step: Step)
    requires Good(l, s)
    ensures Good(l, After(l, s, step))
  {
    match step
    case Submit(event, now, w) => SubmitGood(l, s, event, now, w);
    case Tick(now, w) => TicksGood(l, s, now, w);
  }

  lemma {:induction false} ReachedGood(l: Limits, steps: seq<Step>)
    ensures Good(l, Reached(l, steps))
    decreases |steps|
  {
    if steps == [] {
    } else {
      ReachedGood(l, steps[..|steps| - 1]);
      AfterGood(l, Reached(l, steps[..|steps| - 1]), steps[|steps| - 1]);
    }
  }

  /** Over any run of arrivals and ticks, whatever the handler and the clock do: there is at
      most one pending entry an event, no entry has more than MaxRetries attempts, and no
      submission is reconciled more than MaxRetries + 1 times. */
  lemma QueueBounded(l: Limits, steps: seq<Step>)
    ensures var s := Reached(l, steps);
      && (forall i, j :: 0 <= i < j < |s.pending| ==> !Same(s.pending[i], s.pending[j]))
      && (forall i :: 0 <= i < |s.pending| ==> s.pending[i].attempts <= l.maxRetries)
      && (forall id: nat :: Count(s.calls, id) <= l.maxRetries + 1)
  {
    ReachedGood(l, steps);
  }

  /** And none is dropped early: a submission that is neither pending nor replaced by a later
      one has succeeded or has failed MaxRetries + 1 times. */
  lemma NothingDroppedEarly(l: Limits, steps: seq<Step>, id: nat)
    requires var s := Reached(l, steps); id < s.submitted && id !in s.replaced && !Waiting(s.pending, id)
    ensures var s := Reached(l, steps); Succeeded(s.calls, id) || Count(s.calls, id) == l.maxRetries + 1
  {
    ReachedGood(l, steps);
  }
}
