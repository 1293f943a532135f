/**
 * The queue engine: the persisted buffer object whose cursors and map the
 * queue operations update in place, the store that holds it together with
 * the index of unacknowledged items and the shared counters, and the
 * connection handles that put, get, acknowledge and tear down.
 *
 * Each store transaction (begin ... commit) is all-or-nothing: an operation
 * takes a snapshot of what it may change when it begins, and when an
 * exception ends it before the commit it puts the snapshot back.
 */
module Engine {
  import opened Ring
  import opened Outcomes
  import opened CircularBuffer
  import opened AckIndex
  import opened Bookkeeping

  /** The persisted buffer (`PersistentDeque`): two cursors and a map. */
  class PersistentDeque<Item(==)> {
    var start: int
    var stop: int
    var elements: map<int, Item>

    constructor (saved: Deque<Item>)
      ensures Value() == saved
    {
      start, stop, elements := saved.start, saved.stop, saved.elements;
    }

    function Value(): Deque<Item>
      reads this
    {
      Deque(start, stop, elements)
    }

    ghost predicate Valid()
      reads this
    {
      CircularBuffer.Valid(Value())
    }

    ghost function Contents(): seq<Item>
      reads this
      requires Valid()
    {
      CircularBuffer.Contents(Value())
    }

    /** Puts a snapshot back: the effect of a transaction that never commits. */
    method Restore(saved: Deque<Item>)
      modifies this
      ensures Value() == saved
    {
      start, stop, elements := saved.start, saved.stop, saved.elements;
    }

    /**
     * `_put_in_queue`: writes the item at `stop` and advances `stop` BEFORE
     * checking for a full buffer, so on failure the write and the advanced
     * cursor are still there for the caller's transaction to discard.
     */
    method PutInQueue(item: Item) returns (r: Outcome)
      requires Valid()
      modifies this
      ensures r.Pass? <==> |old(Contents())| < MODULUS - 1
      ensures r.Pass? ==>
        && Value() == TailInsert(old(Value()), item).value
        && Valid()
        && Contents() == old(Contents()) + [item]
      ensures r.Fail? ==>
        && r.error == SizeOfPersistentQueueExceeded
        && start == stop == old(start)
        && elements == old(elements)[old(stop) := item]
    {
      TailInsertSpec(Value(), item);
      elements := elements[stop := item];
      stop := stop + 1;
      if stop > MAX_INT {
        stop := MIN_INT;
      }
      if start == stop {
        return Fail(SizeOfPersistentQueueExceeded);
      }
      r := Pass;
    }

    /**
     * `_put_in_queue_head`: moves `start` back, then checks for a full
     * buffer before writing; on failure only the moved cursor is left for
     * the caller's transaction to discard.
     */
    method PutInQueueHead(item: Item) returns (r: Outcome)
      requires Valid()
      modifies this
      ensures r.Pass? <==> HeadInsert(old(Value()), item).Ok?
      ensures r.Pass? ==> Value() == HeadInsert(old(Value()), item).value && Valid()
      ensures r.Fail? ==>
        && r.error == SizeOfPersistentQueueExceeded
        && start == stop == old(stop)
        && elements == old(elements)
    {
      HeadInsertSpec(Value(), item);
      start := start - 1;
      if start < MIN_INT {
        start := MAX_INT;
      }
      if start == stop {
        return Fail(SizeOfPersistentQueueExceeded);
      }
      elements := elements[start := item];
      r := Pass;
    }

    /**
     * `_get_from_queue`: takes the item at `start` out, advances `start`,
     * and resets both cursors to 0 once the buffer is empty. Reading the
     * missing key of an empty buffer raises KeyError before any change.
     */
    method GetFromQueue() returns (r: Result<Item>)
      requires Valid()
      modifies this
      ensures r.Err? <==> old(Contents()) == []
      ensures r.Err? ==> r.error == KeyError && Value() == old(Value())
      ensures r.Ok? ==>
        && (r.value, Value()) == HeadRemove(old(Value())).value
        && Valid()
        && r.value == old(Contents())[0]
        && Contents() == old(Contents())[1..]
    {
      HeadRemoveSpec(Value());
      if start !in elements {
        return Err(KeyError);
      }
      var item := elements[start];
      elements := elements - {start};
      start := start + 1;
      if start > MAX_INT {
        start := MIN_INT;
      }
      if start == stop {
        start := 0;
        stop := 0;
      }
      r := Ok(item);
    }

    /**
     * `_remove_from_queue_with_index`, with the cursor moves taken on the
     * ring: deletes key `idx`, moves `start` forward if `idx` was the head,
     * or `stop` back if `idx` was the last key, and resets an emptied range
     * to 0. A missing key raises KeyError before any change.
     */
    method RemoveFromQueueWithIndex(idx: int) returns (r: Outcome)
      requires Valid()
      modifies this
      ensures r.Fail? <==> idx !in old(elements)
      ensures r.Fail? ==> r.error == KeyError && Value() == old(Value())
      ensures r.Pass? ==> Value() == RemoveWithIndex(old(Value()), idx).value
    {
      if idx !in elements {
        return Fail(KeyError);
      }
      elements := elements - {idx};
      if idx == start {
        start := start + 1;
        if start > MAX_INT {
          start := MIN_INT;
        }
      } else if idx == Prev(stop) {
        stop := stop - 1;
        if stop < MIN_INT {
          stop := MAX_INT;
        }
      }
      if start == stop {
        start := 0;
        stop := 0;
      }
      r := Pass;
    }
  }

  /**
   * `c` is `c0` with the items of `moved` pushed onto its head one by one,
   * in an order the enumeration of the set chose.
   */
  ghost predicate Requeued<Item>(c: seq<Item>, c0: seq<Item>, moved: multiset<Item>) {
    && |c| == |c0| + |moved|
    && c[|moved|..] == c0
    && multiset(c) == multiset(c0) + moved
  }

  /** The items `c0` are still queued, in their order, at the back of `c`. */
  ghost predicate Behind<Item>(c: seq<Item>, c0: seq<Item>) {
    |c0| <= |c| && c[|c| - |c0|..] == c0
  }

  /** Requeueing in front of a queue keeps whatever was at its back. */
  lemma BehindRequeued<Item>(c: seq<Item>, front: seq<Item>, c1: seq<Item>, c0: seq<Item>)
    requires c == front + c1 && Behind(c1, c0)
    ensures Behind(c, c0)
  {
    assert c[|c| - |c0|..] == c1[|c1| - |c0|..];
  }

  /**
   * A set that does not fit in front of the queue mid-rollback means the
   * whole of what was queued and pending at the start does not fit either.
   */
  lemma TooManyToRequeue<Item>(c: seq<Item>, p: multiset<Item>, c0: seq<Item>, p0: multiset<Item>, s: set<Item>)
    requires multiset(c) + p == multiset(c0) + p0
    requires multiset(s) <= p && |c| + |s| >= MODULUS
    ensures |c0| + |p0| >= MODULUS
  {
    assert |multiset(c) + p| == |multiset(c0) + p0|;
    assert |multiset(s)| <= |p| by {
      assert p == multiset(s) + (p - multiset(s));
    }
  }

  /** One turn of the requeue loop: the pushed item leaves the rest of the set. */
  lemma RequeueStep<Item>(keys: seq<Item>, i: nat, s: set<Item>)
    requires i < |keys| && multiset(s) == multiset(keys[i..])
    ensures keys[i] in s && multiset(s - {keys[i]}) == multiset(keys[i + 1..])
  {
    assert keys[i..] == [keys[i]] + keys[i + 1..];
    assert keys[i] in multiset(keys[i..]);
    assert multiset(s - {keys[i]}) == multiset(s) - multiset{keys[i]};
  }

  /** A second update of the same key overrides the first. */
  lemma UpdateTwice<K, V>(m: map<K, V>, k: K, a: V, b: V)
    ensures m[k := a][k := b] == m[k := b]
  {
  }

  /** Once the whole listing is pushed, nothing of the set remains. */
  lemma ListingDone<Item>(keys: seq<Item>, rest: set<Item>)
    requires multiset(rest) == multiset(keys[|keys|..])
    ensures rest == {} && keys[..|keys|] == keys
  {
    assert multiset(rest) == multiset{};
  }

  /**
   * Pushing a listing of a set onto the head of the buffer succeeds exactly
   * when the set fits, and then requeues the set.
   */
  lemma RequeueResult<Item>(d0: Deque<Item>, keys: seq<Item>, s0: set<Item>)
    requires CircularBuffer.Valid(d0) && multiset(keys) == multiset(s0)
    ensures HeadInsertAll(d0, keys).Ok? <==> |CircularBuffer.Contents(d0)| + |s0| < MODULUS
    ensures HeadInsertAll(d0, keys).Ok? ==>
      && CircularBuffer.Valid(HeadInsertAll(d0, keys).value)
      && Requeued(CircularBuffer.Contents(HeadInsertAll(d0, keys).value), CircularBuffer.Contents(d0), multiset(s0))
  {
    assert |keys| == |s0| by {
      assert |multiset(keys)| == |multiset(s0)|;
    }
    HeadInsertAllSpec(d0, keys);
    ReversedSameItems(keys);
  }

  /** Requeueing one set moves its items from the index to the buffer. */
  lemma RequeueConserves<Item>(index: map<int, set<Item>>, id: int, c: seq<Item>, c0: seq<Item>)
    requires id in index && Requeued(c, c0, multiset(index[id]))
    ensures multiset(c) + Pending(index[id := {}]) == multiset(c0) + Pending(index)
  {
    var none: set<Item> := {};
    PendingUpdate(index, id, none);
    assert Registered(index, id) == index[id];
    assert multiset(none) == multiset{};
    calc {
      multiset(c) + Pending(index[id := none]);
      multiset(c0) + (Pending(index[id := none]) + multiset(index[id]));
      multiset(c0) + Pending(index);
    }
  }

  /** `index` with the sets of every id outside `ids` emptied. */
  ghost function Cleared<Item>(index: map<int, set<Item>>, ids: set<int>): (r: map<int, set<Item>>)
    ensures r.Keys == index.Keys
    ensures forall k :: k in r ==> r[k] == if k in ids then index[k] else {}
  {
    map k | k in index :: if k in ids then index[k] else {}
  }

  lemma ClearedNothing<Item>(index: map<int, set<Item>>)
    ensures Cleared(index, index.Keys) == index
  {
  }

  /** Emptying one more id's set in the middle of a rollback. */
  lemma ClearedStep<Item>(index: map<int, set<Item>>, ids: set<int>, k: int)
    requires k in ids && ids <= index.Keys
    ensures Cleared(index, ids)[k := {}] == Cleared(index, ids - {k})
  {
  }

  /** The set registered under one id is part of the pending items. */
  lemma PendingCovers<Item>(index: map<int, set<Item>>, k: int)
    requires k in index
    ensures multiset(index[k]) <= Pending(index)
    ensures |index[k]| <= |Pending(index)|
  {
    var none: set<Item> := {};
    PendingUpdate(index, k, none);
    assert multiset(none) == multiset{};
    assert Registered(index, k) == index[k];
  }

  /** Adding the same items to two multisets keeps them apart. */
  lemma Cancel<Item>(a: multiset<Item>, b: multiset<Item>, c: multiset<Item>)
    requires a + c == b + c
    ensures a == b
  {
    assert forall x :: a[x] == (a + c)[x] - c[x];
  }

  /** Handing out the head of the buffer moves it from the buffer to one set. */
  lemma GetConserves<Item>(index: map<int, set<Item>>, q: int, c0: seq<Item>)
    requires q in index && |c0| > 0 && c0[0] !in index[q]
    ensures multiset(c0[1..]) + Pending(index[q := index[q] + {c0[0]}]) == multiset(c0) + Pending(index)
  {
    var v := c0[0];
    var s := index[q] + {v};
    PendingUpdate(index, q, s);
    assert Registered(index, q) == index[q];
    assert multiset(s) == multiset(index[q]) + multiset{v};
    HeadSplit(c0);
    GainOne(Pending(index[q := s]), Pending(index), multiset(index[q]), multiset{v}, multiset(c0[1..]));
  }

  lemma HeadSplit<Item>(c0: seq<Item>)
    requires |c0| > 0
    ensures multiset(c0) == multiset{c0[0]} + multiset(c0[1..])
  {
    assert c0 == [c0[0]] + c0[1..];
  }

  /** Multiset algebra for one item moving from the buffer into the pending ones. */
  lemma GainOne<Item>(after: multiset<Item>, before: multiset<Item>, m: multiset<Item>, v: multiset<Item>, rest: multiset<Item>)
    requires after + m == before + (m + v)
    ensures rest + after == (v + rest) + before
  {
    Cancel(after, before + v, m);
  }

  /** Acknowledging an item drops exactly that item from the pending ones. */
  lemma AckConserves<Item>(index: map<int, set<Item>>, q: int, x: Item, c: seq<Item>)
    requires q in index && x in index[q]
    ensures multiset(c) + Pending(index[q := index[q] - {x}]) + multiset{x} == multiset(c) + Pending(index)
  {
    var s := index[q] - {x};
    PendingUpdate(index, q, s);
    assert Registered(index, q) == index[q];
    assert index[q] == s + {x};
    assert multiset(index[q]) == multiset(s) + multiset{x};
    LoseOne(Pending(index[q := s]), Pending(index), multiset(s), multiset{x}, multiset(c));
  }

  /** Multiset algebra for one item leaving the pending ones. */
  lemma LoseOne<Item>(after: multiset<Item>, before: multiset<Item>, m: multiset<Item>, v: multiset<Item>, rest: multiset<Item>)
    requires after + (m + v) == before + m
    ensures rest + after + v == rest + before
  {
    Cancel(after + v, before, m);
  }

  /** Registering an empty set under an id that holds nothing loses nothing. */
  lemma RegisterConserves<Item>(index: map<int, set<Item>>, id: int)
    requires Registered(index, id) == {}
    ensures Pending(index[id := {}]) == Pending(index)
  {
    var none: set<Item> := {};
    PendingUpdate(index, id, none);
    assert multiset(none) == multiset{};
    var before, after := Pending(index), Pending(index[id := none]);
    Cancel(after, before, multiset(none));
  }

  /** No id beyond `newest` holds an item. */
  ghost predicate Unused<Item>(index: map<int, set<Item>>, newest: int) {
    forall k :: k in index && k > newest ==> index[k] == {}
  }

  /** Changing the set of an id handed out, or emptying one, keeps the ids beyond `newest` unused. */
  lemma UnusedUpdate<Item>(index: map<int, set<Item>>, newest: int, q: int, s: set<Item>)
    requires Unused(index, newest) && (q <= newest || s == {})
    ensures Unused(index[q := s], newest)
  {
  }

  /** What the storage file holds under its two root keys. */
  datatype Root<Item> = Root(queue: Deque<Item>, nonackIndex: map<int, set<Item>>)

  /**
   * One open store: the persisted buffer and index of unacknowledged
   * items, and the counters every handle of this store shares.
   */
  class Store<Item(==)> {
    const queue: PersistentDeque<Item>
    var nonackIndex: map<int, set<Item>>
    var sharedData: Counters
    /** Whether the first connect has committed. */
    var started: bool
    /** Whether the database and its storage are still open. */
    var isOpen: bool

    /**
     * Once the first connect has run, the disconnects never outnumber the
     * connections, and no id beyond the newest handed out holds an item, so
     * registering the next id loses nothing.
     */
    ghost predicate Valid()
      reads this, queue
    {
      && queue.Valid()
      && (started ==>
            && 0 <= sharedData.disconnects <= sharedData.connections
            && Unused(nonackIndex, sharedData.connections))
    }

    /** Every item the store still owes a consumer: queued or unacknowledged. */
    ghost function Outstanding(): multiset<Item>
      reads this, queue
      requires Valid()
    {
      multiset(queue.Contents()) + Pending(nonackIndex)
    }

    /**
     * Opens the storage. A file that has never held a queue gets an empty
     * buffer and an empty index under its root keys.
     */
    constructor (saved: Option<Root<Item>>)
      requires saved.Some? ==> CircularBuffer.Valid(saved.value.queue)
      ensures Valid() && !started && isOpen && fresh(queue)
      ensures saved.None? ==> queue.Value() == Empty() && nonackIndex == map[]
      ensures saved.Some? ==>
        queue.Value() == saved.value.queue && nonackIndex == saved.value.nonackIndex
    {
      var root := if saved.Some? then saved.value else Root(Empty(), map[]);
      EmptyIsValid<Item>();
      queue := new PersistentDeque(root.queue);
      nonackIndex := root.nonackIndex;
      sharedData := Counters(0, 0);
      started := false;
      isOpen := true;
    }

    /**
     * Lists the set registered under `id`, then pushes each listed item
     * onto the head of the buffer and removes it from the set, so the items
     * end up in front of the queue in reverse listing order (not in the
     * order they were handed out). A full buffer stops it part way, leaving
     * the partial work for the caller's transaction to discard. Returns the
     * listing, whose order the set's enumeration decides.
     */
    method RequeueSet(id: int) returns (r: Outcome, listed: seq<Item>)
      requires Valid() && id in nonackIndex
      modifies this, queue
      ensures multiset(listed) == multiset(old(nonackIndex[id]))
      ensures r.Pass? <==> |old(queue.Contents())| + |old(nonackIndex[id])| < MODULUS
      ensures r.Fail? ==> r.error == SizeOfPersistentQueueExceeded
      ensures r.Pass? ==>
        && Valid()
        && nonackIndex == old(nonackIndex)[id := {}]
        && queue.Contents() == Reversed(listed) + old(queue.Contents())
        && Requeued(queue.Contents(), old(queue.Contents()), multiset(old(nonackIndex[id])))
        && Outstanding() == old(Outstanding())
      ensures sharedData == old(sharedData) && started == old(started) && isOpen == old(isOpen)
    {
      ghost var d0 := queue.Value();
      listed := ListKeys(nonackIndex[id]);
      RequeueResult(d0, listed, nonackIndex[id]);
      HeadInsertAllSpec(d0, listed);
      r := RequeueListed(id, listed);
      if r.Pass? {
        RequeueConserves(old(nonackIndex), id, queue.Contents(), CircularBuffer.Contents(d0));
      }
    }

    /**
     * `connect`. The first connect resets the shared counters, takes id 0
     * and, in one transaction, requeues every unacknowledged item of an
     * earlier run and registers an empty set under its id; a full buffer
     * aborts that transaction. A later connect counts one more connection,
     * takes the new count as its id and registers an empty set under it; it
     * reads the counters the first connect created, so without them it
     * raises KeyError. Either way the new handle starts with nothing
     * handed out.
     */
    method Connect(isFirst: bool) returns (r: Result<Connection<Item>>)
      requires Valid() && isOpen
      modifies this, queue
      ensures isOpen
      ensures !isFirst && !old(started) ==>
        && r == Err(KeyError)
        && queue.Value() == old(queue.Value()) && nonackIndex == old(nonackIndex)
        && sharedData == old(sharedData) && started == old(started)
      ensures !isFirst && old(started) ==>
        && r.Ok?
        && r.value.queueIndex == old(sharedData.connections) + 1
        && sharedData == old(sharedData).(connections := old(sharedData.connections) + 1)
        && queue.Value() == old(queue.Value())
        && nonackIndex == old(nonackIndex)[r.value.queueIndex := {}]
      ensures isFirst ==>
        && (r.Ok? <==> |old(queue.Contents())| + |Pending(old(nonackIndex))| < MODULUS)
        && sharedData == Counters(0, 0)
      ensures isFirst && r.Err? ==>
        && r.error == SizeOfPersistentQueueExceeded
        && queue.Value() == old(queue.Value()) && nonackIndex == old(nonackIndex)
        && started == old(started)
      ensures isFirst && r.Ok? ==>
        && r.value.queueIndex == 0
        && Valid()
        && nonackIndex == Cleared(old(nonackIndex), {})[0 := {}]
        && multiset(queue.Contents()) == multiset(old(queue.Contents())) + Pending(old(nonackIndex))
        && Behind(queue.Contents(), old(queue.Contents()))
      ensures r.Ok? ==>
        && fresh(r.value) && r.value.store == this
        && r.value.Valid() && r.value.AckSet() == {}
        && Outstanding() == old(Outstanding())
    {
      if isFirst {
        r := ConnectFirst();
      } else if !started {
        r := Err(KeyError);
      } else {
        r := ConnectNext();
      }
    }

    /**
     * The `is_first` branch of `connect`. The counters live outside the
     * transaction and the rollback does not read them, so they are reset
     * after it here.
     */
    method ConnectFirst() returns (r: Result<Connection<Item>>)
      requires Valid() && isOpen
      modifies this, queue
      ensures isOpen && sharedData == Counters(0, 0)
      ensures r.Ok? <==> |old(queue.Contents())| + |Pending(old(nonackIndex))| < MODULUS
      ensures r.Err? ==>
        && r.error == SizeOfPersistentQueueExceeded
        && queue.Value() == old(queue.Value()) && nonackIndex == old(nonackIndex)
        && started == old(started)
      ensures r.Ok? ==>
        && r.value.queueIndex == 0
        && Valid()
        && nonackIndex == Cleared(old(nonackIndex), {})[0 := {}]
        && multiset(queue.Contents()) == multiset(old(queue.Contents())) + Pending(old(nonackIndex))
        && Behind(queue.Contents(), old(queue.Contents()))
        && fresh(r.value) && r.value.store == this
        && r.value.Valid() && r.value.AckSet() == {}
        && Outstanding() == old(Outstanding())
    {
      var saved, savedIndex := queue.Value(), nonackIndex;
      var rolled := RollbackUnacknowledgedItems();
      sharedData := Counters(0, 0);
      if rolled.Fail? {
        queue.Restore(saved);
        nonackIndex := savedIndex;
        return Err(rolled.error);
      }
      assert Unused(nonackIndex, 0);
      Register(0);
      var c := new Connection(this, 0);
      r := Ok(c);
    }

    /** The other branch of `connect`: one more connection, registered under the new count. */
    method ConnectNext() returns (r: Result<Connection<Item>>)
      requires Valid() && isOpen && started
      modifies this
      ensures isOpen
      ensures r.Ok?
      ensures r.value.queueIndex == old(sharedData.connections) + 1
      ensures sharedData == old(sharedData).(connections := old(sharedData.connections) + 1)
      ensures nonackIndex == old(nonackIndex)[r.value.queueIndex := {}]
      ensures fresh(r.value) && r.value.store == this
      ensures r.value.Valid() && r.value.AckSet() == {}
      ensures Outstanding() == old(Outstanding())
    {
      sharedData := sharedData.(connections := sharedData.connections + 1);
      var id := sharedData.connections;
      Register(id);
      var c := new Connection(this, id);
      r := Ok(c);
    }

    /**
     * The end of `connect`: a fresh empty set goes into the index under the
     * new handle's id, which holds nothing yet.
     */
    method Register(id: int)
      requires queue.Valid() && 0 <= sharedData.disconnects <= sharedData.connections
      requires 0 <= id <= sharedData.connections && Unused(nonackIndex, sharedData.connections)
      requires Registered(nonackIndex, id) == {}
      modifies this
      ensures nonackIndex == old(nonackIndex)[id := {}] && started
      ensures sharedData == old(sharedData) && isOpen == old(isOpen)
      ensures Valid() && Outstanding() == old(Outstanding())
    {
      RegisterConserves(nonackIndex, id);
      UnusedUpdate(nonackIndex, sharedData.connections, id, {});
      nonackIndex := nonackIndex[id := {}];
      started := true;
    }

    /**
     * The teardown decision of `_destructor`, taken under the connect
     * mutex: close the store when the disconnects have caught up with the
     * connections, otherwise count one more disconnect.
     */
    method Disconnect() returns (closes: bool)
      requires Valid() && started
      modifies this
      ensures (closes, sharedData) == Teardown(old(sharedData))
      ensures isOpen == (old(isOpen) && !closes)
      ensures nonackIndex == old(nonackIndex) && started == old(started)
      ensures Valid()
    {
      closes := sharedData.disconnects == sharedData.connections;
      if closes {
        isOpen := false;
      } else {
        sharedData := sharedData.(disconnects := sharedData.disconnects + 1);
      }
    }

    /**
     * The second loop of the requeue: each listed item goes onto the head
     * of the buffer and out of the set registered under `id`.
     */
    method RequeueListed(id: int, keys: seq<Item>) returns (r: Outcome)
      requires queue.Valid() && id in nonackIndex && multiset(nonackIndex[id]) == multiset(keys)
      modifies this, queue
      ensures r.Pass? <==> HeadInsertAll(old(queue.Value()), keys).Ok?
      ensures r.Fail? ==> r.error == SizeOfPersistentQueueExceeded
      ensures r.Pass? ==>
        && queue.Valid()
        && queue.Value() == HeadInsertAll(old(queue.Value()), keys).value
        && nonackIndex == old(nonackIndex)[id := {}]
      ensures sharedData == old(sharedData) && started == old(started) && isOpen == old(isOpen)
    {
      ghost var d0 := queue.Value();
      ghost var index0 := nonackIndex;
      var rest := nonackIndex[id];
      var i := 0;
      while i < |keys|
        invariant 0 <= i <= |keys|
        invariant HeadInsertAll(d0, keys[..i]) == Ok(queue.Value())
        invariant queue.Valid()
        invariant nonackIndex == index0[id := rest]
        invariant multiset(rest) == multiset(keys[i..])
        invariant sharedData == old(sharedData) && started == old(started) && isOpen == old(isOpen)
      {
        ghost var cur := queue.Value();
        r := queue.PutInQueueHead(keys[i]);
        if r.Fail? {
          HeadInsertAllFails(d0, keys, i, cur);
          return;
        }
        HeadInsertAllAdvances(d0, keys, i, cur);
        RequeueStep(keys, i, rest);
        UpdateTwice(index0, id, rest, rest - {keys[i]});
        rest := rest - {keys[i]};
        nonackIndex := nonackIndex[id := rest];
        i := i + 1;
      }
      r := Pass;
      ListingDone(keys, rest);
    }

    /**
     * `_rollback_unacknowledged_items`: walks the index in ascending id
     * order and requeues every registered set at the head of the buffer.
     */
    method RollbackUnacknowledgedItems() returns (r: Outcome)
      requires Valid()
      modifies this, queue
      ensures r.Pass? <==> |old(queue.Contents())| + |Pending(old(nonackIndex))| < MODULUS
      ensures r.Fail? ==> r.error == SizeOfPersistentQueueExceeded
      ensures r.Pass? ==>
        && Valid()
        && nonackIndex == Cleared(old(nonackIndex), {})
        && multiset(queue.Contents()) == multiset(old(queue.Contents())) + Pending(old(nonackIndex))
        && Behind(queue.Contents(), old(queue.Contents()))
        && Outstanding() == old(Outstanding())
      ensures sharedData == old(sharedData) && started == old(started) && isOpen == old(isOpen)
    {
      ghost var orig := nonackIndex;
      ghost var c0 := queue.Contents();
      var ids := nonackIndex.Keys;
      ClearedNothing(orig);
      while ids != {}
        invariant Valid()
        invariant ids <= orig.Keys && nonackIndex == Cleared(orig, ids)
        invariant Behind(queue.Contents(), c0)
        invariant Outstanding() == old(Outstanding())
        invariant sharedData == old(sharedData) && started == old(started) && isOpen == old(isOpen)
        decreases ids
      {
        ghost var m := MinKey(ids);
        var k :| k in ids && forall j :: j in ids ==> k <= j;
        PendingCovers(nonackIndex, k);
        ghost var before, pendingBefore, set0 := queue.Contents(), Pending(nonackIndex), nonackIndex[k];
        var listed;
        r, listed := RequeueSet(k);
        if r.Fail? {
          TooManyToRequeue(before, pendingBefore, c0, Pending(orig), set0);
          return;
        }
        BehindRequeued(queue.Contents(), Reversed(listed), before, c0);
        ClearedStep(orig, ids, k);
        ids := ids - {k};
      }
      r := Pass;
      PendingOfEmptySets(nonackIndex);
      assert multiset(queue.Contents()) == multiset(c0) + Pending(orig);
    }
  }

  /**
   * A handle on the store (one `PersistentQueueWithAcknowledgement` object
   * as `connect` returns it): its connection id, under which the index
   * keeps the items handed out through it, and whether it has torn down.
   */
  class Connection<Item(==)> {
    const store: Store<Item>
    const queueIndex: int
    var closed: bool

    constructor (store: Store<Item>, queueIndex: int)
      ensures this.store == store && this.queueIndex == queueIndex && !closed
    {
      this.store := store;
      this.queueIndex := queueIndex;
      closed := false;
    }

    /**
     * A live handle on an open store whose first connect has committed; its
     * id is registered and is one of the ids handed out.
     */
    ghost predicate Valid()
      reads this, store, store.queue
    {
      && store.Valid() && store.started && store.isOpen && !closed
      && queueIndex in store.nonackIndex
      && 0 <= queueIndex <= store.sharedData.connections
    }

    /** The items handed out through this handle and not acknowledged yet. */
    function AckSet(): set<Item>
      reads this, store
    {
      Registered(store.nonackIndex, queueIndex)
    }

    /**
     * `_qsize` with the wrapped branch computing the size it evidently
     * means: the number of queued items.
     */
    method QSize() returns (size: int)
      requires Valid()
      ensures size == |store.queue.Contents()|
    {
      size := Size(store.queue.start, store.queue.stop);
    }

    /** `_put`: appends at the tail in one transaction. */
    method Put(item: Item) returns (r: Outcome)
      requires Valid()
      modifies store.queue
      ensures r.Pass? <==> |old(store.queue.Contents())| < MODULUS - 1
      ensures r.Fail? ==>
        r.error == SizeOfPersistentQueueExceeded && store.queue.Value() == old(store.queue.Value())
      ensures Valid()
      ensures r.Pass? ==>
        && store.queue.Contents() == old(store.queue.Contents()) + [item]
        && store.Outstanding() == old(store.Outstanding()) + multiset{item}
    {
      var saved := store.queue.Value();
      r := store.queue.PutInQueue(item);
      if r.Fail? {
        store.queue.Restore(saved);
        return;
      }
      assert multiset(store.queue.Contents()) == multiset(old(store.queue.Contents())) + multiset{item};
    }

    /**
     * `_get`: takes the head of the buffer and adds it to this handle's set,
     * in one transaction. An empty buffer raises KeyError; a head already
     * in the set raises ObjectIsDuplicatedOnNonAcknowledgedSet and the
     * transaction leaves it in the buffer.
     */
    method Get() returns (r: Result<Item>)
      requires Valid()
      modifies store, store.queue
      ensures Valid()
      ensures r.Err? <==> old(store.queue.Contents()) == [] || old(store.queue.Contents())[0] in old(AckSet())
      ensures r.Err? ==>
        && r.error == (if old(store.queue.Contents()) == [] then KeyError else ObjectIsDuplicatedOnNonAcknowledgedSet)
        && store.queue.Value() == old(store.queue.Value())
        && store.nonackIndex == old(store.nonackIndex)
      ensures r.Ok? ==>
        && r.value == old(store.queue.Contents())[0]
        && store.queue.Contents() == old(store.queue.Contents())[1..]
        && store.nonackIndex == old(store.nonackIndex)[queueIndex := old(AckSet()) + {r.value}]
        && store.Outstanding() == old(store.Outstanding())
      ensures store.sharedData == old(store.sharedData) && store.started == old(store.started) && store.isOpen == old(store.isOpen)
    {
      ghost var c0 := store.queue.Contents();
      var saved := store.queue.Value();
      r := store.queue.GetFromQueue();
      if r.Err? {
        return;
      }
      if r.value in store.nonackIndex[queueIndex] {
        store.queue.Restore(saved);
        return Err(ObjectIsDuplicatedOnNonAcknowledgedSet);
      }
      GetConserves(store.nonackIndex, queueIndex, c0);
      UnusedUpdate(store.nonackIndex, store.sharedData.connections, queueIndex, store.nonackIndex[queueIndex] + {r.value});
      store.nonackIndex := store.nonackIndex[queueIndex := store.nonackIndex[queueIndex] + {r.value}];
    }

    /** `ack`: removes the item from this handle's set; a missing one raises KeyError. */
    method Ack(item: Item) returns (r: Outcome)
      requires Valid()
      modifies store
      ensures Valid()
      ensures r.Fail? <==> item !in old(AckSet())
      ensures r.Fail? ==> r.error == KeyError && store.nonackIndex == old(store.nonackIndex)
      ensures r.Pass? ==>
        && store.nonackIndex == old(store.nonackIndex)[queueIndex := old(AckSet()) - {item}]
        && store.Outstanding() + multiset{item} == old(store.Outstanding())
      ensures store.sharedData == old(store.sharedData) && store.started == old(store.started) && store.isOpen == old(store.isOpen)
    {
      if item !in store.nonackIndex[queueIndex] {
        return Fail(KeyError);
      }
      AckConserves(store.nonackIndex, queueIndex, item, store.queue.Contents());
      UnusedUpdate(store.nonackIndex, store.sharedData.connections, queueIndex, store.nonackIndex[queueIndex] - {item});
      store.nonackIndex := store.nonackIndex[queueIndex := store.nonackIndex[queueIndex] - {item}];
      r := Pass;
    }

    /**
     * `_destructor`: in one transaction requeues this handle's set at the
     * head of the buffer, then closes the handle and takes the teardown
     * decision on the shared counters: the store closes when the
     * disconnects have caught up with the connections, otherwise one more
     * disconnect is counted. A full buffer aborts the transaction before
     * anything is closed or counted. Returns whether the store closed.
     */
    method Destructor() returns (r: Result<bool>)
      requires Valid()
      modifies this, store, store.queue
      ensures r.Err? <==> |old(store.queue.Contents())| + |old(AckSet())| >= MODULUS
      ensures r.Err? ==>
        && r.error == SizeOfPersistentQueueExceeded
        && store.queue.Value() == old(store.queue.Value())
        && store.nonackIndex == old(store.nonackIndex)
        && store.sharedData == old(store.sharedData) && store.isOpen && !closed
      ensures r.Ok? ==>
        && closed
        && (r.value, store.sharedData) == Teardown(old(store.sharedData))
        && store.isOpen == !r.value
        && store.Valid()
        && store.nonackIndex == old(store.nonackIndex)[queueIndex := {}]
        && Requeued(store.queue.Contents(), old(store.queue.Contents()), multiset(old(AckSet())))
        && store.Outstanding() == old(store.Outstanding())
      ensures store.started == old(store.started)
    {
      var saved, savedIndex := store.queue.Value(), store.nonackIndex;
      var requeued, listed := store.RequeueSet(queueIndex);
      if requeued.Fail? {
        store.queue.Restore(saved);
        store.nonackIndex := savedIndex;
        return Err(requeued.error);
      }
      closed := true;
      var closes := store.Disconnect();
      r := Ok(closes);
    }
  }
}
