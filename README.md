# Ring buffer with a serializing push worker — Dafny model

This project models the generic ring buffer `RingBuffer[T]` of `ringbuffer.go`. It has two parts.

**The slot store** is a fixed array of `capacity` slots. Each slot holds a `*T` that may be nil, modelled as `Option<T>`. Two indices go with it: `head`, the next write position, and `tail`, the oldest unread position.
- `SlotStore.dfy` describes this state as a value (`Slots`), together with the index walks done by `Iterate` and `IterateReverse`.
- `RingBuffer.dfy` holds the class `RingBuffer<T>`. It keeps an `array<Option<T>>` and updates `head`, `tail` and the array in place. Each method is proved against the value-level functions through the ghost function `Store()`.

**The push worker and the lifecycle** are fields of the same class:
- `queue`: pushes not yet applied;
- `closeRequested`: a close request waiting on the close channel;
- `waiters`: the registered idle hooks;
- `closed`: the closed flag.

`WorkerStep` is one pass of the worker loop. It does exactly one of three things, in this priority order:
1. insert the front of the queue;
2. if the queue is empty and a close is pending, close;
3. otherwise fire the hooks and clear the list.

`RunWorker` repeats passes until the worker closes or fires the hooks. The blocking operations `Close`, `Wait` and `PushAndWait` run the worker that far before they return. A panic on a closed buffer becomes a `Status` value that carries the panic message.

`Scenarios.dfy` replays the cases of `ringbuffer_test.go` and a few small runs:
- four values pushed into a ring of capacity 3 leave the slots `[d, b, c]`, with `head = 1`, `tail = 2` and contents `[c, d]`;
- popping from a ring of capacity 10 after four pushes;
- a closed buffer refusing pushes, hooks, waits and a second close;
- a state where the reverse walk is not the reverse of the forward walk.

Where the code and the package's stated intent differ, the model follows the code:
- **The buffer holds at most `capacity - 1` elements, not `capacity`.** `push` advances `tail` as soon as `head` catches up with it. Pushing more keeps the newest `capacity - 1` values (`Slots.InsertContents`, `Slots.InsertLen`, `InsertAllFromEmpty`, `InsertFewFromEmpty`).
- **`IterateReverse` is not the reverse of `Iterate`.** It starts at `head`, not `head - 1`, and stops before `tail`. It yields the slot at `head`, which holds no logical element, then the contents newest first without the oldest one (`Slots.ReverseWalkShape`, `Scenarios.ReverseWalkIsNotReversed`).
- **The capacity must be positive.** The model's invariant needs at least one slot, so the constructor requires `capacity > 0`. In the source, `New(0, n)` succeeds, and `Len`, `Pop`, `Flush`, `Reset`, `Iterate` and `IterateReverse` work on that buffer, since `head == tail == 0`. The first push applied by the worker panics: it indexes an empty slice.

## Model

| member | source | states |
|---|---|---|
| SlotStore.Next | ringbuffer.go:71 | the next slot index stays below the capacity |
| SlotStore.NextIsMod | ringbuffer.go:71 | the wrap-around step `i + 1`, or 0 after the last slot, equals `(i + 1) % capacity` |
| SlotStore.Prev | ringbuffer.go:145 | the previous slot index stays below the capacity |
| SlotStore.PrevIsMod | ringbuffer.go:145 | the backward step `i - 1`, or the last slot before slot 0, equals `(i + capacity - 1) % capacity` |
| SlotStore.Count | ringbuffer.go:101-106 | the length formula is below the capacity and is 0 exactly when `head == tail` |
| SlotStore.CountIsMod | ringbuffer.go:101-106 | the two branches of the length formula together equal `(head - tail) mod capacity` |
| SlotStore.ForwardIndices | ringbuffer.go:132 | the forward walk from `i` to `head` visits `Count(head, i)` indices, all inside the array |
| SlotStore.ReverseIndices | ringbuffer.go:145 | the backward walk from `i` to `tail` visits `Count(i, tail)` indices, all inside the array |
| SlotStore.ForwardIndicesAt | ringbuffer.go:132 | the k-th index of the forward walk is `(i + k) mod capacity` |
| SlotStore.ReverseIndicesAt | ringbuffer.go:145 | the k-th index of the backward walk is `(i - k) mod capacity` |
| SlotStore.Slots.Len | ringbuffer.go:101-106 | the length of the store is below the capacity and is 0 exactly when `head == tail` |
| SlotStore.Slots.Insert | ringbuffer.go:69-75 | push keeps both indices below the capacity and the array length unchanged |
| SlotStore.Slots.InsertContents | ringbuffer.go:69-75 | push appends the value to the contents and keeps the newest `capacity - 1`; once the store is full, the oldest element is dropped |
| SlotStore.Slots.InsertLen | ringbuffer.go:69-75 | push grows the length by one below `capacity - 1`, and leaves it at `capacity - 1` once the store is full |
| SlotStore.Slots.InsertAll | ringbuffer.go:40-43 | applying queued pushes in order keeps the store valid and the capacity fixed |
| SlotStore.Slots.InsertAllContents | ringbuffer.go:40-43 | applying the queued values in order appends them all to the contents and keeps the newest `capacity - 1` |
| SlotStore.Slots.InsertAllSnoc | ringbuffer.go:40-43 | applying a queue with one more value at its end is applying the queue, then pushing that value |
| SlotStore.Slots.Pop | ringbuffer.go:86-93 | pop succeeds exactly when the store is non-empty; it keeps the slots and `head`, lowers the length by one on success, and gives `(nil, false)` with no change otherwise |
| SlotStore.Slots.PopContents | ringbuffer.go:86-93 | pop on an empty store gives `(nil, false)` and no change; otherwise it gives the oldest element, removes it, lowers the length by one, and leaves `head` and the slots alone |
| SlotStore.Slots.Reset | ringbuffer.go:108-111 | reset leaves the slots untouched and the contents empty |
| SlotStore.Slots.ForwardIsContents | ringbuffer.go:129-138 | the forward walk from `tail` yields exactly the logical contents, oldest first |
| SlotStore.Slots.ReverseWalkAt | ringbuffer.go:142-151 | the backward walk from `head` yields the slot at `head` first, then at step `k` the contents element `k` places from the end |
| SlotStore.Slots.ReverseWalkShape | ringbuffer.go:142-151 | the backward walk from `head` yields nothing on an empty store, otherwise the slot at `head` followed by the contents newest first without the oldest |
| SlotStore.Empty | ringbuffer.go:29-35 | a new store has `capacity` nil slots and no contents |
| SlotStore.InsertAllFromEmpty | ringbuffer.go:69-75 | from an empty store, the contents after a run of pushes are the last `capacity - 1` pushed values |
| SlotStore.InsertFewFromEmpty | ringbuffer.go:69-75 | from an empty store, fewer than `capacity` pushes become the contents exactly, in push order |
| RingBuffer.RingBuffer.constructor | ringbuffer.go:29-35 | a new buffer has `capacity` nil slots, both indices 0, no queued pushes, no hooks, and is open |
| RingBuffer.RingBuffer.Len | ringbuffer.go:101-106 | the length is the number of logical elements, at most `capacity - 1`, and 0 exactly when `head == tail` |
| RingBuffer.RingBuffer.Insert | ringbuffer.go:69-75 | writes the value at the old `head` and updates the indices as the value-level push does; the contents become the newest `capacity - 1` of the old contents plus the value |
| RingBuffer.RingBuffer.Pop | ringbuffer.go:86-99 | returns `(nil, false)` with nothing changed when empty; otherwise returns the oldest element and advances only `tail` |
| RingBuffer.RingBuffer.Reset | ringbuffer.go:108-111 | sets both indices to 0, leaves the slots untouched, and empties the contents |
| RingBuffer.RingBuffer.Flush | ringbuffer.go:113-123 | returns the old contents in order and leaves the buffer empty with `head` unchanged |
| RingBuffer.RingBuffer.Iterate | ringbuffer.go:129-138 | yields the slots of the forward walk, which are exactly the contents (`Len()` items), without changing state |
| RingBuffer.RingBuffer.IterateReverse | ringbuffer.go:142-151 | yields the slots of the backward walk (`Len()` items): the slot at `head`, then the contents newest first without the oldest; state is unchanged |
| RingBuffer.RingBuffer.Push | ringbuffer.go:77-84 | panics on a closed buffer and changes nothing; otherwise appends the values to the queue in order |
| RingBuffer.RingBuffer.AddQueueIdleHook | ringbuffer.go:174-181 | panics on a closed buffer; otherwise appends the hook to the waiters |
| RingBuffer.RingBuffer.WorkerStep | ringbuffer.go:37-64 | a non-empty queue has its front inserted; an empty queue with a pending close closes the buffer; otherwise all hooks fire and the list is cleared |
| RingBuffer.RingBuffer.RunWorker | ringbuffer.go:37-64 | the worker inserts every queued value in FIFO order, then either closes (close pending) or fires exactly the registered hooks |
| RingBuffer.RingBuffer.Close | ringbuffer.go:157-162 | panics on a closed buffer with nothing changed; otherwise the queue is drained into the store before the buffer closes |
| RingBuffer.RingBuffer.FlushAndClose | ringbuffer.go:164-167 | closing drains the queue into the slots and keeps the hooks; the result is the newest `capacity - 1` of the old contents plus the queue, and the buffer is left empty (`tail == head`) and closed, with the slot array and `head` as the drained pushes left them |
| RingBuffer.RingBuffer.Wait | ringbuffer.go:199-209 | panics on a closed buffer; otherwise returns only after every queued push is applied, with its own hook fired last among the registered ones; whether a close is pending does not change |
| RingBuffer.RingBuffer.PushAndWait | ringbuffer.go:186-197 | panics on a closed buffer; otherwise all earlier queued values and its own are in the store, in order, when it returns, and its own hook has fired; whether a close is pending does not change |
| Scenarios.PushOneIntoThree | ringbuffer_test.go:15-26 | one push into an empty ring of capacity 3 gives slots `[a, nil, nil]` |
| Scenarios.PushFourIntoThree | ringbuffer_test.go:27-41 | pushes a, b, c, d into capacity 3 give slots `[d, b, c]`, `head = 1`, `tail = 2`, contents `[c, d]` |
| Scenarios.PushAndWaitFourIntoThree | ringbuffer_test.go:44-72 | the test's `PushAndWait` through the object leaves the slots `[d, b, c]` and the contents `[c, d]` |
| Scenarios.PopOldest | ringbuffer.go:86-99 | after four pushes into capacity 10, pop returns the first value and the length becomes 3 |
| Scenarios.WaitThenWait | ringbuffer.go:186-209 | on a new buffer, two waits and then a push-and-wait each fire exactly their own hook |
| Scenarios.UseAfterClose | ringbuffer.go:157-162 | after close, push, hook registration, wait and a second close panic, while flush still returns the drained values |
| Scenarios.ReverseWalkIsNotReversed | ringbuffer.go:142-151 | slots `[a, b, nil]` with `head = 2` and `tail = 0`: the backward walk gives `[nil, b]`, not the reverse `[b, a]` |

## Left out

- Goroutines, channels, `sync.Mutex` and `sync.WaitGroup` are not modelled. The push queue is a `seq`, the close channel a flag, and the iteration channels return a `seq` snapshot. A blocked caller is modelled by running worker passes until the event it waits for.
- The unsynchronised reads of `closed`, `head` and `tail` (in `Len`, `Reset`, `Iterate` and the guards) are left out, because they are data races and cannot be stated sequentially. So is a push that passes the guard and then meets a closed channel.
- The `pushBufferSize` argument of `New` is not modelled: the queue is unbounded, with no backpressure. The constructor takes only the capacity.
- `String` is left out, because it only formats through `fmt.Sprintf`.
- Idle hooks are identifiers, not closures. Firing a hook is reported in the `Idle` event and in the `fired` result, not executed.
- Slots compare by value. Pointer identity of `*T` and the test's `reflect.DeepEqual` are not modelled.
- `uint` wrap-around is not modelled. Indices stay below the capacity, so `head + 1` and `i + capacity - 1` cannot overflow for any capacity that fits in memory.
- `New` with capacity 0 is excluded by a precondition. In the source, the first push on such a buffer writes `data[0]` of an empty slice and panics with an index out of range inside the worker goroutine, before the `% capacity` step runs. The precondition also excludes the calls that work on that buffer: `Len` (0), `Pop` (`nil, false`), `Flush` (empty), `Reset`, and both iterations (nothing).
- RingBuffer.RingBuffer.Wait: with a close pending, the source's caller would block forever. The model returns with its hook unfired (`fired == []`) and the buffer closed.
- RingBuffer.RingBuffer.PushAndWait: with a close pending, the source's caller would block forever. The model returns with its hook unfired (`fired == []`) and the buffer closed.
- A second `Close` issued while a first one is still blocked cannot arise here, because each `Close` runs the worker until the buffer is closed. In the source it blocks, then panics when the close channel is closed.
- `IsClosed` is modelled as a plain read of `closed` and has no contract of its own.
