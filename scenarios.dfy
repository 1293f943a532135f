/**
 * End-to-end runs of the engine built from the operations' contracts alone.
 */
module Scenarios {
  import opened Outcomes
  import opened CircularBuffer
  import opened AckIndex
  import opened Bookkeeping
  import opened Engine

  /**
   * A power outage, as the test of a crash without teardown runs it: on a
   * fresh store, put `x` and get it without acknowledging, then lose the
   * process. Reopening the storage from what was committed and connecting
   * again finds `x` back in the queue and nothing handed out, and the next
   * get delivers `x` again.
   */
  method PowerOutage(x: int) returns (sizeAfterRestart: int, pendingAfterRestart: set<int>, redelivered: Result<int>)
    ensures sizeAfterRestart == 1
    ensures pendingAfterRestart == {}
    ensures redelivered == Ok(x)
  {
    var committed := GetWithoutAck(x);
    sizeAfterRestart, pendingAfterRestart, redelivered := Restart(committed, x);
  }

  /** What the storage holds after a fresh store put `x` and handed it out unacknowledged. */
  method GetWithoutAck(x: int) returns (committed: Root<int>)
    ensures CircularBuffer.Valid(committed.queue) && CircularBuffer.Contents(committed.queue) == []
    ensures committed.nonackIndex == map[0 := {x}]
  {
    var s := new Store<int>(None);
    var h := FirstConnection(s);
    PutOnEmpty(h, x);
    assert h.AckSet() == {};
    var got := h.Get();
    assert s.queue.Contents() == [] && s.nonackIndex == map[0 := {x}];
    committed := Root(s.queue.Value(), s.nonackIndex);
  }

  /** Reopening storage whose only item is `x`, handed out on id 0, and connecting. */
  method Restart(committed: Root<int>, x: int) returns (size: int, pending: set<int>, redelivered: Result<int>)
    requires CircularBuffer.Valid(committed.queue) && CircularBuffer.Contents(committed.queue) == []
    requires committed.nonackIndex == map[0 := {x}]
    ensures size == 1 && pending == {} && redelivered == Ok(x)
  {
    assert Pending(committed.nonackIndex) == multiset{x} by {
      assert 0 in committed.nonackIndex.Keys;
      assert MinKey(committed.nonackIndex.Keys) == 0;
      assert committed.nonackIndex - {0} == map[];
    }
    var s := new Store<int>(Some(committed));
    var c := s.Connect(true);
    var h := c.value;
    assert multiset(s.queue.Contents()) == multiset{x};
    assert s.queue.Contents() == [x] by {
      var q := s.queue.Contents();
      assert |q| == 1;
      assert q[0] in multiset(q);
    }
    size := h.QSize();
    pending := h.AckSet();
    redelivered := h.Get();
  }

  /** A put on an empty queue leaves just that item queued and the index as it was. */
  method PutOnEmpty(h: Connection<int>, x: int)
    requires h.Valid() && h.store.queue.Contents() == []
    modifies h.store.queue
    ensures h.Valid() && h.store.queue.Contents() == [x]
    ensures h.store.nonackIndex == old(h.store.nonackIndex)
  {
    var put := h.Put(x);
  }

  /** The first connect on a fresh store: an empty queue and one handle with nothing handed out. */
  method FirstConnection(s: Store<int>) returns (h: Connection<int>)
    requires s.Valid() && !s.started && s.isOpen
    requires s.queue.Value() == Empty() && s.nonackIndex == map[]
    modifies s, s.queue
    ensures h.Valid() && h.store == s && h.queueIndex == 0 && fresh(h)
    ensures s.queue.Contents() == [] && s.nonackIndex == map[0 := {}]
    ensures s.sharedData == Counters(0, 0)
  {
    EmptyIsValid<int>();
    assert Pending<int>(map[]) == multiset{};
    var c := s.Connect(true);
    h := c.value;
    assert multiset(s.queue.Contents()) == multiset{};
  }

  /**
   * Two handles on one store: one handle getting an item and acknowledging
   * it leaves the other handle live with its set of unacknowledged items as
   * it was.
   */
  method Isolation<Item(==)>(h1: Connection<Item>, h2: Connection<Item>) returns (got: Result<Item>, acked: Outcome)
    requires h1.Valid() && h2.Valid() && h1.store == h2.store && h1.queueIndex != h2.queueIndex
    modifies h1.store, h1.store.queue
    ensures got.Ok? ==> acked.Pass? && h1.AckSet() == old(h1.AckSet())
    ensures h1.Valid() && h2.Valid() && h2.AckSet() == old(h2.AckSet())
  {
    acked := Pass;
    got := h1.Get();
    if got.Ok? {
      acked := h1.Ack(got.value);
    }
  }
}
