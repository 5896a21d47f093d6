/**
 * The ring buffer object: the slot array and its two indices, updated in
 * place, together with the state of the push worker (the queue of pushes
 * not yet applied, a pending close request, the registered idle hooks) and
 * the closed flag.
 *
 * The worker goroutine is modelled by `WorkerStep`, one pass of its loop,
 * and `RunWorker`, which repeats passes until the worker closes the buffer or
 * fires the idle hooks.  The blocking operations (`Close`, `Wait`,
 * `PushAndWait`) run the worker that far before they return.
 */
module RingBuffer {
  import opened Wrappers
  import opened SlotStore

  /** An idle hook, identified by the caller; firing it is reported, not executed. */
  type HookId = nat

  /** A guarded operation either proceeds or panics with the message the source gives. */
  datatype Status = Ok | Panicked(message: string)

  const PushClosedMessage := "attempted to push to closed ring buffer"
  const CloseClosedMessage := "attempted to close already closed ring buffer"
  const ExecuteClosedMessage := "attempted to execute on closed ring buffer"
  const WaitClosedMessage := "attempted to wait on closed ring buffer"

  /** What one pass of the worker loop did. */
  datatype Event<T> =
    | Applied(value: Option<T>)   // took the front of the queue and inserted it
    | Shutdown                    // honoured the close request and stopped
    | Idle(fired: seq<HookId>)    // found nothing to do and fired these hooks

  class RingBuffer<T> {
    const capacity: nat
    const data: array<Option<T>>
    var head: nat
    var tail: nat
    var closed: bool
    /** Values pushed but not yet inserted by the worker, oldest first. */
    var queue: seq<Option<T>>
    /** A close request is waiting for the worker. */
    var closeRequested: bool
    /** Idle hooks registered and not yet fired, in registration order. */
    var waiters: seq<HookId>

    ghost function Store(): Slots<T>
      reads this, data
    {
      Slots(data[..], head, tail)
    }

    ghost predicate Valid()
      reads this, data
    {
      data.Length == capacity && Store().Valid()
    }

    /** The logical contents, oldest first. */
    ghost function Contents(): seq<Option<T>>
      reads this, data
      requires Valid()
    {
      Store().Contents()
    }

    constructor (capacity: nat)
      requires capacity > 0
      ensures Valid() && fresh(data)
      ensures this.capacity == capacity && Store() == Empty(capacity) && Contents() == []
      ensures !closed && !closeRequested && queue == [] && waiters == []
    {
      this.capacity := capacity;
      data := new Option<T>[capacity](_ => None);
      head, tail := 0, 0;
      closed, closeRequested := false, false;
      queue, waiters := [], [];
      new;
      assert data[..] == seq(capacity, _ => None);
    }

    /** The number of logical elements; never more than `capacity - 1`. */
    function Len(): (n: nat)
      reads this, data
      requires Valid()
      ensures n == |Contents()|
      ensures n <= capacity - 1
      ensures n == 0 <==> head == tail
    {
      Count(head, tail, capacity)
    }

    function IsClosed(): bool
      reads this
    {
      closed
    }

    /**
     * The worker's insertion of one value: write it at `head`, advance
     * `head`, and advance `tail` too when `head` has caught up with it.
     */
    method Insert(v: Option<T>)
      requires Valid()
      modifies this`head, this`tail, data
      ensures Valid()
      ensures Store() == old(Store()).Insert(v)
      ensures data[old(head)] == v
      ensures Contents() == Newest(old(Contents()) + [v], capacity - 1)
      ensures old(Len()) < capacity - 1 ==> Len() == old(Len()) + 1
      ensures old(Len()) == capacity - 1 ==> Len() == old(Len())
    {
      ghost var before := Store();
      NextIsMod(head, capacity);
      NextIsMod(tail, capacity);
      data[head] := v;
      assert data[..] == before.data[before.head := v];
      head := (head + 1) % capacity;
      if head == tail {
        tail := (tail + 1) % capacity;
      }
      assert Store() == before.Insert(v);
      before.InsertContents(v);
      before.InsertLen(v);
    }

    /**
     * Remove the oldest element: `(None, false)` and no change when empty,
     * otherwise the slot at `tail`, with only `tail` advanced.  The slot is
     * not cleared.
     */
    method Pop() returns (v: Option<T>, ok: bool)
      requires Valid()
      modifies this`tail
      ensures Valid()
      ensures (v, ok, Store()) == old(Store()).Pop()
      ensures ok <==> old(Len()) > 0
      ensures !ok ==> v == None && tail == old(tail)
      ensures ok ==> v == old(Contents())[0] && Contents() == old(Contents())[1..]
      ensures ok ==> Len() == old(Len()) - 1
    {
      ghost var before := Store();
      before.PopContents();
      if head == tail {
        return None, false;
      }
      NextIsMod(tail, capacity);
      v := data[tail];
      tail := (tail + 1) % capacity;
      ok := true;
    }

    /** Empty the buffer logically: both indices to zero, slots untouched. */
    method Reset()
      requires Valid()
      modifies this`head, this`tail
      ensures Valid()
      ensures Store() == old(Store()).Reset()
      ensures head == 0 && tail == 0 && data[..] == old(data[..])
      ensures Contents() == [] && Len() == 0
    {
      head := 0;
      tail := 0;
    }

    /** Pop until empty; the popped values, oldest first. */
    method Flush() returns (r: seq<Option<T>>)
      requires Valid()
      modifies this`tail
      ensures Valid()
      ensures r == old(Contents())
      ensures Len() == 0 && tail == head && head == old(head)
    {
      ghost var all := Contents();
      r := [];
      while true
        invariant Valid() && head == old(head)
        invariant |r| <= |all| && r == all[..|r|] && Contents() == all[|r|..]
        decreases Len()
      {
        var v, ok := Pop();
        if !ok {
          break;
        }
        r := r + [v];
      }
    }

    /** The slots from `tail` up to, not including, `head`: the contents, oldest first. */
    method Iterate() returns (r: seq<Option<T>>)
      requires Valid()
      ensures r == Gather(data[..], ForwardIndices(tail, head, capacity))
      ensures r == Contents() && |r| == Len()
    {
      ghost var walk := Gather(data[..], ForwardIndices(tail, head, capacity));
      r := [];
      var i: nat := tail;
      while i != head
        invariant |r| <= |walk| && i == Offset(tail, |r|, capacity)
        invariant r == walk[..|r|]
        decreases |walk| - |r|
      {
        ForwardIndicesAt(tail, head, capacity, |r|);
        NextIsMod(i, capacity);
        r := r + [data[i]];
        i := (i + 1) % capacity;
      }
      Store().ForwardIsContents();
    }

    /**
     * The slots from `head` down to, not including, `tail`: the slot at
     * `head` (not a logical element) followed by the contents newest first
     * without the oldest one.
     */
    method IterateReverse() returns (r: seq<Option<T>>)
      requires Valid()
      ensures r == Gather(data[..], ReverseIndices(head, tail, capacity))
      ensures |r| == Len()
      ensures Len() == 0 ==> r == []
      ensures Len() > 0 ==> r == [data[head]] + Reversed(Contents()[1..])
    {
      ghost var walk := Gather(data[..], ReverseIndices(head, tail, capacity));
      r := [];
      var i: nat := head;
      while i != tail
        invariant |r| <= |walk| && i == Back(head, |r|, capacity)
        invariant r == walk[..|r|]
        decreases |walk| - |r|
      {
        ReverseIndicesAt(head, tail, capacity, |r|);
        PrevIsMod(i, capacity);
        r := r + [data[i]];
        i := (i + capacity - 1) % capacity;
      }
      Store().ReverseWalkShape();
    }

    /** Queue `vs` for the worker, or panic when the buffer is closed. */
    method Push(vs: seq<Option<T>>) returns (status: Status)
      requires Valid()
      modifies this`queue
      ensures status == if old(closed) then Panicked(PushClosedMessage) else Ok
      ensures queue == if old(closed) then old(queue) else old(queue) + vs
    {
      if closed {
        return Panicked(PushClosedMessage);
      }
      queue := queue + vs;
      status := Ok;
    }

    /** Register an idle hook, or panic when the buffer is closed. */
    method AddQueueIdleHook(h: HookId) returns (status: Status)
      requires Valid()
      modifies this`waiters
      ensures status == if old(closed) then Panicked(ExecuteClosedMessage) else Ok
      ensures waiters == if old(closed) then old(waiters) else old(waiters) + [h]
    {
      if closed {
        return Panicked(ExecuteClosedMessage);
      }
      waiters := waiters + [h];
      status := Ok;
    }

    /**
     * One pass of the worker loop.  A queued value takes priority; only with
     * an empty queue is a pending close honoured; only with an empty queue
     * and no close pending are the hooks fired, and the list is cleared.
     */
    method WorkerStep() returns (e: Event<T>)
      requires Valid() && !closed
      modifies this, data
      ensures Valid() && closeRequested == old(closeRequested)
      ensures old(queue) != [] ==>
        && e == Applied(old(queue)[0])
        && queue == old(queue)[1..]
        && Store() == old(Store()).Insert(old(queue)[0])
        && Contents() == Newest(old(Contents()) + [old(queue)[0]], capacity - 1)
        && !closed && waiters == old(waiters)
      ensures old(queue) == [] && old(closeRequested) ==>
        && e == Shutdown && closed
        && queue == [] && Store() == old(Store()) && waiters == old(waiters)
      ensures old(queue) == [] && !old(closeRequested) ==>
        && e == Idle(old(waiters)) && waiters == []
        && !closed && queue == [] && Store() == old(Store())
    {
      if queue != [] {
        var v := queue[0];
        queue := queue[1..];
        Insert(v);
        e := Applied(v);
      } else if closeRequested {
        closed := true;
        e := Shutdown;
      } else {
        e := Idle(waiters);
        waiters := [];
      }
    }

    /**
     * Repeat worker passes until the worker closes the buffer or fires the
     * idle hooks.  Every queued value is inserted first, in queue order.
     */
    method RunWorker() returns (e: Event<T>)
      requires Valid() && !closed
      modifies this, data
      ensures Valid() && closeRequested == old(closeRequested) && queue == []
      ensures Store() == old(Store()).InsertAll(old(queue))
      ensures Contents() == Newest(old(Contents()) + old(queue), capacity - 1)
      ensures old(closeRequested) ==> e == Shutdown && closed && waiters == old(waiters)
      ensures !old(closeRequested) ==> e == Idle(old(waiters)) && !closed && waiters == []
    {
      ghost var start := Store();
      ghost var pending := queue;
      var idle := false;
      e := Shutdown;
      while !idle
        invariant Valid() && closeRequested == old(closeRequested)
        invariant !idle ==> !closed && waiters == old(waiters)
        invariant |queue| <= |pending| && queue == pending[|pending| - |queue|..]
        invariant Store() == start.InsertAll(pending[..|pending| - |queue|])
        invariant idle ==> queue == []
        invariant idle && old(closeRequested) ==> e == Shutdown && closed && waiters == old(waiters)
        invariant idle && !old(closeRequested) ==> e == Idle(old(waiters)) && !closed && waiters == []
        decreases |queue| + (if idle then 0 else 1)
      {
        ghost var done := pending[..|pending| - |queue|];
        e := WorkerStep();
        if e.Applied? {
          assert pending[..|pending| - |queue|] == done + [e.value];
          start.InsertAllSnoc(done, e.value);
        } else {
          idle := true;
        }
      }
      assert pending[..|pending|] == pending;
      start.InsertAllContents(pending);
    }

    /**
     * Request a close and block until the worker has drained the queue and
     * closed the buffer; panic when it is closed already.
     */
    method Close() returns (status: Status)
      requires Valid()
      modifies this, data
      ensures Valid()
      ensures old(closed) ==> status == Panicked(CloseClosedMessage) && unchanged(this) && unchanged(data)
      ensures !old(closed) ==>
        && status == Ok && closed && closeRequested && queue == [] && waiters == old(waiters)
        && Store() == old(Store()).InsertAll(old(queue))
        && Contents() == Newest(old(Contents()) + old(queue), capacity - 1)
    {
      if closed {
        return Panicked(CloseClosedMessage);
      }
      closeRequested := true;
      var e := RunWorker();
      status := Ok;
    }

    /** Close, then flush. */
    method FlushAndClose() returns (status: Status, r: seq<Option<T>>)
      requires Valid()
      modifies this, data
      ensures Valid()
      ensures old(closed) ==> status == Panicked(CloseClosedMessage) && r == [] && unchanged(this) && unchanged(data)
      ensures !old(closed) ==>
        && status == Ok && closed && queue == [] && Len() == 0
        && waiters == old(waiters) && closeRequested
        && data[..] == old(Store()).InsertAll(old(queue)).data
        && head == old(Store()).InsertAll(old(queue)).head && tail == head
        && r == Newest(old(Contents()) + old(queue), capacity - 1)
    {
      status := Close();
      if status.Panicked? {
        return status, [];
      }
      r := Flush();
    }

    /**
     * Register a hook and block until the worker fires it.  With a close
     * pending the worker closes instead and the hook never fires.
     */
    method Wait(h: HookId) returns (status: Status, fired: seq<HookId>)
      requires Valid()
      modifies this, data
      ensures Valid()
      ensures old(closed) ==> status == Panicked(WaitClosedMessage) && fired == [] && unchanged(this) && unchanged(data)
      ensures !old(closed) ==>
        && status == Ok && queue == [] && closeRequested == old(closeRequested)
        && Store() == old(Store()).InsertAll(old(queue))
        && Contents() == Newest(old(Contents()) + old(queue), capacity - 1)
      ensures !old(closed) && !old(closeRequested) ==> fired == old(waiters) + [h] && waiters == [] && !closed
      ensures !old(closed) && old(closeRequested) ==> fired == [] && closed && waiters == old(waiters) + [h]
    {
      if closed {
        return Panicked(WaitClosedMessage), [];
      }
      var added := AddQueueIdleHook(h);
      var e := RunWorker();
      status := Ok;
      fired := if e.Idle? then e.fired else [];
    }

    /**
     * Push `vs`, then block until the worker has inserted everything queued
     * so far (from any caller) and fired the hook.
     */
    method PushAndWait(vs: seq<Option<T>>, h: HookId) returns (status: Status, fired: seq<HookId>)
      requires Valid()
      modifies this, data
      ensures Valid()
      ensures old(closed) ==> status == Panicked(PushClosedMessage) && fired == [] && unchanged(this) && unchanged(data)
      ensures !old(closed) ==>
        && status == Ok && queue == [] && closeRequested == old(closeRequested)
        && Store() == old(Store()).InsertAll(old(queue) + vs)
        && Contents() == Newest(old(Contents()) + (old(queue) + vs), capacity - 1)
      ensures !old(closed) && !old(closeRequested) ==> fired == old(waiters) + [h] && waiters == [] && !closed
      ensures !old(closed) && old(closeRequested) ==> fired == [] && closed && waiters == old(waiters) + [h]
    {
      if closed {
        return Panicked(PushClosedMessage), [];
      }
      var pushed := Push(vs);
      status, fired := Wait(h);
    }
  }
}
