/**
 * The event queue of module/event_queue.c: events for user space are
 * appended at the tail and taken from the head. The blocking wait is
 * reduced to its outcome: with a non-empty queue it takes the head at once;
 * on an empty queue the sleep ends with the value `wait_event_interruptible_timeout`
 * returned, which is an input here (0 on timeout, -ERESTARTSYS on a signal).
 * The clock (ktime_get) is an input as well.
 */
module EventQueue {
  import opened Kernel

  /** struct event, with its payload copied out of the caller's buffer. */
  datatype Event = Event(time: int, code: int, dataSize: int, data: seq<Byte>)

  /** event_gen on a queue; `allocOk` is the outcome of kzalloc. */
  function GenSpec(q: seq<Event>, allocOk: bool, e: Event): (seq<Event>, int)
  {
    if allocOk then (q + [e], SUCCESS) else (q, -ENOMEM)
  }

  /**
   * event_wait on a queue; `emptyWait` is what the sleep returned when the
   * queue stayed empty: never positive, since the sleep returns a positive
   * value only once the queue is non-empty.
   */
  function WaitSpec(q: seq<Event>, emptyWait: int): (seq<Event>, Result<Event>)
    requires emptyWait <= 0
  {
    if q != [] then (q[1..], Ok(q[0]))
    else if emptyWait == 0 then (q, Err(-ENOENT))
    else if emptyWait == -ERESTARTSYS then (q, Err(-EINTR))
    else (q, Err(emptyWait))
  }

  /** A run of successful event_gen calls. */
  function GenAll(q: seq<Event>, es: seq<Event>): seq<Event>
    decreases |es|
  {
    if es == [] then q else GenAll(GenSpec(q, true, es[0]).0, es[1..])
  }

  /** n event_wait calls in a row, with the results in call order. */
  function WaitN(q: seq<Event>, n: nat, emptyWait: int): (seq<Event>, seq<Result<Event>>)
    requires emptyWait <= 0
    decreases n
  {
    if n == 0 then (q, [])
    else
      var (q1, r) := WaitSpec(q, emptyWait);
      var (q2, rs) := WaitN(q1, n - 1, emptyWait);
      (q2, [r] + rs)
  }

  /** Successful event_gen calls append their events at the tail, in call order. */
  lemma {:induction false} GenAllAppends(q: seq<Event>, es: seq<Event>)
    ensures GenAll(q, es) == q + es
    decreases |es|
  {
    if es != [] {
      GenAllAppends(q + [es[0]], es[1..]);
      assert q + [es[0]] + es[1..] == q + es;
    }
  }

  /** Waiting as many times as there are events returns every event once, oldest first, and empties the queue. */
  lemma {:induction false} WaitDrainsInOrder(q: seq<Event>, emptyWait: int)
    requires emptyWait <= 0
    ensures WaitN(q, |q|, emptyWait).0 == []
    ensures |WaitN(q, |q|, emptyWait).1| == |q|
    ensures forall i :: 0 <= i < |q| ==> WaitN(q, |q|, emptyWait).1[i] == Ok(q[i])
    decreases |q|
  {
    if q != [] {
      WaitDrainsInOrder(q[1..], emptyWait);
    }
  }

  /**
   * FIFO order: N events generated on an empty queue come back from N waits
   * in generation order, and a further wait on the emptied queue times out
   * with -ENOENT or is interrupted with -EINTR.
   */
  lemma GenThenWaitIsFifo(es: seq<Event>, emptyWait: int)
    requires emptyWait <= 0
    ensures var (q, rs) := WaitN(GenAll([], es), |es|, emptyWait);
            q == [] && |rs| == |es| && (forall i :: 0 <= i < |es| ==> rs[i] == Ok(es[i]))
    ensures var q := WaitN(GenAll([], es), |es|, emptyWait).0;
            (emptyWait == 0 ==> WaitSpec(q, emptyWait).1 == Err(-ENOENT))
            && (emptyWait == -ERESTARTSYS ==> WaitSpec(q, emptyWait).1 == Err(-EINTR))
  {
    GenAllAppends([], es);
    assert [] + es == es;
    WaitDrainsInOrder(es, emptyWait);
  }

  /** A wait that fails leaves the queue as it was, and fails only on an empty queue. */
  lemma WaitFailureKeepsQueue(q: seq<Event>, emptyWait: int)
    requires emptyWait <= 0
    ensures WaitSpec(q, emptyWait).1.Err? <==> q == []
    ensures WaitSpec(q, emptyWait).1.Err? ==> WaitSpec(q, emptyWait).0 == q
    ensures WaitSpec(q, emptyWait).1.Ok? ==> [WaitSpec(q, emptyWait).1.value] + WaitSpec(q, emptyWait).0 == q
  {
  }

  class EventQueue {
    var events: seq<Event>

    /** event_queue_init. */
    constructor ()
      ensures events == []
    {
      events := [];
    }

    /**
     * event_gen: an event stamped `now` with `code`, `dataSize` and the first
     * `dataSize` bytes of `data`, appended at the tail; -ENOMEM when kzalloc fails.
     */
    method Gen(allocOk: bool, now: int, code: int, data: seq<Byte>, dataSize: int) returns (res: int)
      requires 0 <= dataSize <= |data|
      modifies this
      ensures (events, res) == GenSpec(old(events), allocOk, Event(now, code, dataSize, data[..dataSize]))
    {
      if !allocOk {
        return -ENOMEM;
      }
      var e := Event(now, code, dataSize, data[..dataSize]);
      events := events + [e];
      res := SUCCESS;
    }

    /** event_wait. */
    method Wait(emptyWait: int) returns (r: Result<Event>)
      requires emptyWait <= 0
      modifies this
      ensures (events, r) == WaitSpec(old(events), emptyWait)
    {
      if events != [] {
        r := Ok(events[0]);
        events := events[1..];
        return;
      }
      if emptyWait == 0 {
        return Err(-ENOENT);
      }
      if emptyWait == -ERESTARTSYS {
        return Err(-EINTR);
      }
      r := Err(emptyWait);
    }

    /** event_queue_done: free events from the head until the list is empty; `freed` lists them in that order. */
    method Done() returns (freed: seq<Event>)
      modifies this
      ensures events == [] && freed == old(events)
    {
      freed := [];
      while events != []
        invariant freed + events == old(events)
        decreases |events|
      {
        freed := freed + [events[0]];
        events := events[1..];
      }
    }
  }
}
