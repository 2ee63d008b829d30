/** The retry processor: its queue is a slice that a tick compacts in place. */
module Reconcilers {
  import opened Sorting
  import opened RetryQueue

  class Reconciler {
    const limits: Limits
    /** The slice's array and its length; the array's length is the slice's capacity. */
    var buffer: array<Entry>
    var count: nat
    /** The handler's calls, in order. */
    ghost var calls: seq<Call>

    ghost predicate Valid()
      reads this
    {
      count <= buffer.Length
    }

    ghost function Pending(): seq<Entry>
      reads this, buffer
      requires Valid()
    {
      buffer[..count]
    }

    constructor (limits: Limits)
      ensures Valid() && fresh(buffer) && Pending() == [] && calls == [] && this.limits == limits
    {
      this.limits := limits;
      buffer := new Entry[0];
      count := 0;
      calls := [];
    }

    /** Calls the handler; an entry to be tried again comes back with one more attempt. */
    method ProcessRetryableEvent(e: Entry, w: World) returns (retry: seq<Entry>)
      modifies this`calls
      ensures retry == Reconciled(limits, e, w)
      ensures calls == old(calls) + [Call(e.id, w.fails(e))]
    {
      var failed := w.fails(e);
      calls := calls + [Call(e.id, failed)];
      if failed && e.attempts < limits.maxRetries {
        var delay := Doubled(limits.baseDelay, e.attempts);
        if delay > limits.maxDelay {
          delay := limits.maxDelay;
        }
        return [e.(attempts := e.attempts + 1, nextRetry := w.done(e) + delay)];
      }
      return [];
    }

    /** Go's append: in the spare capacity when there is some, else in a larger array. */
    method Append(e: Entry)
      requires Valid()
      modifies this`buffer, this`count, buffer
      ensures Valid() && (buffer == old(buffer) || fresh(buffer))
      ensures Pending() == old(Pending()) + [e]
    {
      if count == buffer.Length {
        var larger := new Entry[2 * count + 1];
        for i := 0 to count
          invariant buffer == old(buffer) && count == old(count) && count <= buffer.Length
          invariant larger[..i] == buffer[..i] && buffer[..] == old(buffer[..])
        {
          larger[i] := buffer[i];
        }
        buffer := larger;
      }
      buffer[count] := e;
      count := count + 1;
    }

    /** An event from the channel: it replaces the pending one for the same event, or is
        reconciled at once, or waits for its time. */
    method Arrive(e: Entry, now: int, w: World)
      requires Valid()
      modifies this, buffer
      ensures Valid() && (buffer == old(buffer) || fresh(buffer))
      ensures Pending() == Arrived(limits, old(Pending()), e, now, w)
      ensures calls == old(calls) + ArrivalCalls(old(Pending()), e, now, w)
    {
      var i := FindSame(e);
      if i < count {
        buffer[i] := e;
        assert Pending() == old(Pending())[i := e];
        return;
      }
      if e.attempts == 0 || now > e.nextRetry {
        var retry := ProcessRetryableEvent(e, w);
        if retry != [] {
          Append(retry[0]);
        }
        return;
      }
      Append(e);
    }

    method FindSame(e: Entry) returns (i: nat)
      requires Valid()
      ensures i == Position(Pending(), e)
    {
      i := 0;
      while i < count
        invariant i <= count && Position(Pending(), e) == i + Position(Pending()[i..], e)
      {
        assert Pending()[i..][0] == buffer[i] && Pending()[i..][1..] == Pending()[i + 1..];
        if Same(buffer[i], e) {
          return;
        }
        i := i + 1;
      }
    }

    /** The turn of one entry in a tick: what is left of it goes to the write position, which
        never passes the read position, so no entry is lost before it is read. */
    method TickOne(i: nat, kept: nat, now: int, w: World) returns (next: nat)
      requires kept <= i < count <= buffer.Length
      modifies this`calls, buffer
      ensures next <= i + 1 && buffer[i + 1..count] == old(buffer[i + 1..count])
      ensures buffer[..next] == old(buffer[..kept]) + TickLeft(limits, old(buffer[i]), now, w)
      ensures calls == old(calls) + TickCall(old(buffer[i]), now, w)
    {
      var e := buffer[i];
      next := kept;
      if now > e.nextRetry {
        var retry := ProcessRetryableEvent(e, w);
        if retry != [] {
          buffer[next] := retry[0];
          next := next + 1;
        }
      } else {
        buffer[next] := e;
        next := next + 1;
      }
    }

    /** A tick: the due entries are reconciled, and what is left moves to the front of the same
        array, in order. */
    method OnTick(now: int, w: World)
      requires Valid()
      modifies this`count, this`calls, buffer
      ensures Valid()
      ensures Pending() == Ticked(limits, old(Pending()), now, w)
      ensures calls == old(calls) + TickCalls(old(Pending()), now, w)
    {
      var kept: nat := 0;
      ghost var was := Pending();
      for i := 0 to count
        invariant kept <= i && count == old(count) && count <= buffer.Length
        invariant buffer[i..count] == was[i..]
        invariant buffer[..kept] + Ticked(limits, was[i..], now, w) == Ticked(limits, was, now, w)
        invariant calls + TickCalls(was[i..], now, w) == old(calls) + TickCalls(was, now, w)
      {
        assert was[i..][0] == was[i] == buffer[i] && was[i..][1..] == was[i + 1..];
        AppendMoves(buffer[..kept], TickLeft(limits, was[i], now, w), Ticked(limits, was[i + 1..], now, w));
        AppendMoves(calls, TickCall(was[i], now, w), TickCalls(was[i + 1..], now, w));
        assert buffer[i + 1..count] == was[i + 1..];
        kept := TickOne(i, kept, now, w);
      }
      count := kept;
    }
  }
}
