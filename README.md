# Persistent queue with acknowledgement — a Dafny model of the queue engine

The Python module `persistent_queue_with_acknowledgement.py` implements a
durable FIFO queue on a ZODB file store. Each consumer connection must
acknowledge the items it gets. Items that are handed out but never
acknowledged are put back at the head of the queue, either when their
connection is torn down or when the store next starts. Delivery is therefore
at least once.

This project models the engine of that module and proves its properties:

- `ring.dfy` (module `Ring`): the signed 64-bit key ring. The cursors step
  from `MAX_INT` to `MIN_INT` and back. `Size` is the forward distance
  between the cursors.
- `outcomes.dfy` (module `Outcomes`): the exceptions the engine raises,
  written as result values.
- `circular_buffer.dfy` (module `CircularBuffer`): the `PersistentDeque`
  as a value. It has the range invariant `Valid`, the abstract queue
  `Contents` (head first), and the committed effect of tail insert, head
  insert, head removal and keyed removal, each with a lemma. It also holds
  runs of puts, gets and head inserts (FIFO order, draining, requeue order)
  and the as-written members of the two findings.
- `ack_index.dfy` (module `AckIndex`): the index of unacknowledged items.
  `Pending` is the multiset of every registered set, taken in ascending
  id order. `ListKeys` is the listing loop that copies a set before
  requeueing it.
- `bookkeeping.dfy` (module `Bookkeeping`): the shared connection and
  disconnect counters, and the teardown decision.
- `scenarios.dfy` (module `Scenarios`): end-to-end runs built from the
  operations' contracts: recovery after a crash, and isolation between
  two handles.
- `engine.dfy` (module `Engine`): the imperative engine. `PersistentDeque`
  is a class whose methods update `start`, `stop` and `elements` in place.
  `Store` holds the buffer, the ack index, the shared counters and the
  open/closed state. `Connection` is one handle returned by `connect`, with
  `Put`, `Get`, `Ack`, `QSize` and `Destructor`.

Each store transaction (begin … commit) is all-or-nothing. A transactional
operation takes a snapshot of what it may change. When the raw helper it
calls fails, it restores that snapshot, which is the effect of the commit
never being reached. The raw helpers keep the source's write order. On
failure, `PutInQueue` has already written the item and advanced `stop`, and
`PutInQueueHead` has already moved `start`. Their contracts state that
partial state exactly.

The central invariant is `Store.Outstanding()`. It is the items in the
buffer plus the items in every ack set. `Get`, connect, rollback and
teardown keep it unchanged. `Put` adds the put item, and `Ack` removes the
acknowledged item.

Behaviours of the code that the model follows as written:

- A rollback requeues each ack set by pushing its listed items, one at a
  time, onto the head. They end up in reverse listing order, in front of
  what was queued. The original FIFO order is not restored.
  `Store.RequeueSet` states this order; the items already queued stay
  behind them in their order.
- The first `connect` sets both counters to 0, not 1, and registers id 0.
  A teardown compares the counters first. It closes the store when they are
  equal and otherwise increments the disconnect counter. With ids `0..n`
  handed out, the store therefore closes on the `n + 1`-th teardown.
- A teardown empties the connection's ack set but leaves its entry in the
  index.
- `_put_in_queue` writes before it checks for a full buffer. The aborted
  transaction discards the write, so nothing is lost.

## Model

| member | source | states |
|---|---|---|
| Ring.Next | persistent_queue_with_acknowledgement.py:67-70 | a cursor step forward is a shift by one on the ring; `MAX_INT` wraps to `MIN_INT` |
| Ring.Prev | persistent_queue_with_acknowledgement.py:76-78 | a cursor step back is a shift by `MODULUS - 1` and is undone by `Next`; `MIN_INT` wraps to `MAX_INT` |
| Ring.Size | persistent_queue_with_acknowledgement.py:55-63 | the size is the forward ring distance from `start` to `stop`, zero exactly when the cursors are equal (the intended wrapped branch of line 60) |
| CircularBuffer.EmptyIsValid | persistent_queue_with_acknowledgement.py:29-33 | a fresh deque (cursors 0, no elements) satisfies the range invariant and holds no items |
| CircularBuffer.TailInsertSpec | persistent_queue_with_acknowledgement.py:65-73 | tail insert fails exactly on a full ring; otherwise it keeps the invariant and appends the item |
| CircularBuffer.HeadInsertSpec | persistent_queue_with_acknowledgement.py:75-83 | head insert fails exactly on a full ring; otherwise it keeps the invariant and prepends the item |
| CircularBuffer.HeadRemoveSpec | persistent_queue_with_acknowledgement.py:91-103 | head removal fails exactly on an empty buffer; otherwise it returns the head, keeps the invariant, drops the head, and resets the cursors to 0 when the last item goes |
| CircularBuffer.EmptyRangeHasNoElements | persistent_queue_with_acknowledgement.py:99-101 | a valid buffer with no items has an empty element map |
| CircularBuffer.PutAllAppends | persistent_queue_with_acknowledgement.py:85-88 | a run of puts that fits appends the items in put order and keeps the invariant |
| CircularBuffer.GetAllDrains | unittests.py:55-60 | getting as many items as are queued returns them head first, leaves no element, and resets the cursors |
| CircularBuffer.FifoOrder | persistent_queue_with_acknowledgement.py:65-103 | puts followed by gets return the items in put order from any cursor position, across wraparound, and drain the buffer |
| CircularBuffer.HeadInsertAllSpec | persistent_queue_with_acknowledgement.py:138-139 | head inserts of a listing succeed exactly while the items fit, and leave them reversed in front of the queue |
| CircularBuffer.RemoveWithIndexSpec | persistent_queue_with_acknowledgement.py:184-193 | keyed removal deletes exactly that key and fails when it is absent; removing the head agrees with head removal; removing the head or the last item keeps the invariant and drops that item |
| CircularBuffer.QSizeAsWrittenFailsOnWrap | persistent_queue_with_acknowledgement.py:55-63 | `_qsize` as written fails exactly when the range wraps, and otherwise counts the items |
| CircularBuffer.QSizeAsWrittenCounterexample | persistent_queue_with_acknowledgement.py:60 | a valid one-item buffer at key `MAX_INT` makes `_qsize` as written raise |
| CircularBuffer.RemoveWithIndexAsWrittenBreaksRing | persistent_queue_with_acknowledgement.py:186-189 | the as-written cursor arithmetic of keyed removal breaks the range invariant on two valid two-item buffers |
| AckIndex.ListKeys | persistent_queue_with_acknowledgement.py:204-206 | the listing copied before requeueing holds exactly the members of the set |
| AckIndex.PendingUpdate | persistent_queue_with_acknowledgement.py:175 | replacing one id's set changes the pending items by exactly the old and the new set |
| Bookkeeping.ClosesOnLastTeardown | persistent_queue_with_acknowledgement.py:214-220 | with ids `0..n` handed out and `d` torn down, the teardowns that follow close the store exactly on the one after `n - d` more |
| Engine.PersistentDeque.PutInQueue | persistent_queue_with_acknowledgement.py:65-73 | in-place tail insert: on success the new state is the tail insert and the contents gain the item at the back; on a full ring the write and the advanced cursor are left for the transaction to discard |
| Engine.PersistentDeque.PutInQueueHead | persistent_queue_with_acknowledgement.py:75-83 | in-place head insert: on success the new state is the head insert; on a full ring only `start` has moved and no element was written |
| Engine.PersistentDeque.GetFromQueue | persistent_queue_with_acknowledgement.py:91-103 | in-place head removal: returns the head and leaves the tail; an empty buffer raises KeyError with nothing changed |
| Engine.PersistentDeque.RemoveFromQueueWithIndex | persistent_queue_with_acknowledgement.py:184-193 | in-place keyed removal with the cursor moves taken on the ring; a missing key raises KeyError with nothing changed |
| Engine.Store.constructor | persistent_queue_with_acknowledgement.py:159-168 | opening a store that never held a queue creates an empty buffer and an empty index; otherwise the saved root is loaded; the buffer object is freshly allocated, so the caller may update it |
| Engine.Store.RequeueListed | persistent_queue_with_acknowledgement.py:138-140 | the requeue loop pushes each listed item onto the head and removes it from the set, and ends in the state of the head inserts of the listing |
| Engine.Store.RequeueSet | persistent_queue_with_acknowledgement.py:202-210 | one set is requeued in reverse listing order in front of the queue and emptied, keeping what is outstanding; it fails exactly when the set does not fit |
| Engine.Store.RollbackUnacknowledgedItems | persistent_queue_with_acknowledgement.py:132-140 | every registered set is emptied with its entry kept; the buffer gains exactly the pending items; what was queued stays behind them in order; it fails exactly when they do not fit |
| Engine.Store.Connect | persistent_queue_with_acknowledgement.py:143-181 | the first connect resets the counters, rolls back every set and registers id 0; a later one increments the connection counter and registers an empty set under the new count; a later connect without a first one raises KeyError |
| Engine.Store.ConnectFirst | persistent_queue_with_acknowledgement.py:146-177 | the first connect's counters, rollback and registration of id 0; a rollback that does not fit aborts the transaction |
| Engine.Store.ConnectNext | persistent_queue_with_acknowledgement.py:152-177 | a later connect takes the incremented connection counter as its id and registers an empty set under it |
| Engine.Store.Register | persistent_queue_with_acknowledgement.py:173-175 | a fresh empty set goes into the index under the new id, and nothing outstanding is lost |
| Engine.Store.Disconnect | persistent_queue_with_acknowledgement.py:214-220 | the store closes iff the disconnect counter equals the connection counter; otherwise the disconnect counter is incremented |
| Engine.Connection.QSize | persistent_queue_with_acknowledgement.py:55-63 | the size is the number of queued items, wrapped range included |
| Engine.Connection.Put | persistent_queue_with_acknowledgement.py:85-88 | `put` appends the item and adds it to what is outstanding; on a full ring the committed buffer is unchanged |
| Engine.Connection.Get | persistent_queue_with_acknowledgement.py:105-114 | `get` moves the head into this handle's ack set and keeps what is outstanding; an empty buffer raises KeyError; a head already in the set raises the duplicate error; either failure leaves the buffer and the index unchanged |
| Engine.Connection.Ack | persistent_queue_with_acknowledgement.py:197-200 | `ack` removes exactly that item from this handle's set and from what is outstanding, leaving the buffer and every other set unchanged; an absent item raises KeyError |
| Engine.Connection.Destructor | persistent_queue_with_acknowledgement.py:202-220 | teardown requeues this handle's set at the head, empties it and keeps its entry, then takes the teardown decision on the counters; a requeue that does not fit aborts before anything is closed or counted |
| Engine.GetConserves | persistent_queue_with_acknowledgement.py:105-114 | moving the head into one ack set keeps buffer plus pending items the same |
| Engine.AckConserves | persistent_queue_with_acknowledgement.py:197-200 | removing an item from one ack set takes exactly that item out of buffer plus pending items |
| Engine.RequeueConserves | persistent_queue_with_acknowledgement.py:132-140 | requeueing one set keeps buffer plus pending items the same |
| Engine.RequeueResult | persistent_queue_with_acknowledgement.py:204-210 | pushing a listing of a set succeeds exactly when the set fits, and then requeues the set |
| Scenarios.PowerOutage | unittests.py:101-133 | put then get without acknowledging, lose the process, reopen from what was committed and connect: the queue holds the item again, nothing is handed out, and the next get redelivers it |
| Scenarios.Isolation | persistent_queue_with_acknowledgement.py:197-200 | one handle getting and acknowledging an item leaves another handle on the same store live with its ack set unchanged |
| Engine.TooManyToRequeue | persistent_queue_with_acknowledgement.py:132-140 | a set that does not fit mid-rollback means the whole rollback does not fit |

## Findings

| source | as written | input that shows it | evidently intended | confidence | as-written member | corrected member |
|---|---|---|---|---|---|---|
| persistent_queue_with_acknowledgement.py:60 | `size (...)` calls the unassigned local `size` instead of assigning to it, so the wrapped branch raises UnboundLocalError | a buffer with `start = MAX_INT`, `stop = MIN_INT` and one item at key `MAX_INT` | `size = (MAX_INT - start + 1) + (stop - MIN_INT)`, the wrapped distance | high that the code is wrong; latent in the deployed store, whose 32-bit `IOBTree` keys cannot hold key `MAX_INT`, so cursors never wrap there; not executed | CircularBuffer.QSizeAsWrittenCounterexample | Engine.Connection.QSize |
| persistent_queue_with_acknowledgement.py:186-189 | `start += 1` and the test `idx == stop - 1` use plain integer arithmetic, without the ring wraparound the other helpers use | head at key `MAX_INT` (start leaves the key range); or last item at key `MAX_INT` with `stop = MIN_INT` (the tail is not recognised and a hole is left) | advance `start` with wraparound and compare `idx` with the ring predecessor of `stop` | medium (the helper is never called); not executed | CircularBuffer.RemoveWithIndexAsWrittenBreaksRing | CircularBuffer.RemoveWithIndexSpec |

## Left out

- The ZODB `FileStorage`, `DB`, `IOBTree` and `OOTreeSet` are in-memory Dafny maps and sets. Transaction begin/commit is a snapshot that is restored on error. Concurrent transactions and their conflicts are not modelled.
- The connect mutex (`Lock`) and thread safety: connect and teardown are modelled sequentially.
- The inherited `Queue` machinery in front of the engine's helpers. `maxsize` is 0, so only the wait loops of `put` and `__del__` are unreachable. The public `get` first waits while `_qsize()` is 0 and never calls `_get` on an empty queue; with `block=False` it raises `Queue.Empty` instead. `Engine.Connection.Get` models `_get` as if it were called directly, so its KeyError on an empty buffer is reached only that way. `get` and `empty` also call `_qsize` first. On a wrapped buffer they would therefore raise the line-60 UnboundLocalError (see Findings) before `_get` runs. The model's `Get` does not include that.
- `__del__`: teardown is the explicit `Destructor` call rather than garbage-collection finalization.
- The key width of the element map. `elements` is an `IOBTree`, whose keys are 32-bit signed integers, while the cursors wrap at `sys.maxint`, which is `2^63 - 1` on a 64-bit CPython 2 and `2^31 - 1` elsewhere. In the deployed 64-bit store, the write at line 66 raises once `stop` reaches `2^31`, and the write at line 83 raises once `start` drops below `-2^31`. This happens long before the ring fills, and the wrap branches (lines 68-70, 77-78, 95-97) are then never reached. The model's map has no key limit, and the cursors wrap at `2^63 - 1`. Its statement that both inserts fail exactly when the buffer holds `2^64 - 1` items is about that unbounded map, not about the `IOBTree`.
- A handle's own set object (`_nonack_queue`, lines 108, 111, 174, 199, 205, 210) is modelled as a lookup of the handle's id in the index (`Engine.Connection.AckSet`). The two differ only once an index entry is replaced under a live handle. A second `connect(True)` does this: it resets the counters and registers ids from 0 again at line 175. In Python the old handle keeps working on a set that is no longer in the index. In the model the old handle stops being `Valid()`.
- `copy.copy` handle cloning: a `Connection` shares the `Store` by reference, which is the effect the clone has.
- Opening and closing the database connection and the storage file: the store's `isOpen` flag stands for them.
- `_dump` prints debug output only. `task_done` only raises NotImplementedError.
- The item type is generic, and duplicate detection uses Dafny value equality. Python object comparison in an `OOTreeSet` is not modelled.
- Engine.Store.RequeueSet: the set's enumeration order is an arbitrary listing of its members, not the `OOTreeSet` key order. The requeued order is stated relative to that listing.
- Engine.Connection.Destructor: states the requeued items as a multiset at the head. Their order is stated on `Engine.Store.RequeueSet`.
