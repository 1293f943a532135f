/**
 * The persisted circular buffer (`PersistentDeque`) as a value: two cursors
 * and an integer-keyed map of items. The occupied keys are exactly the ring
 * range [start, stop), read from `start` forward, and `start == stop` is the
 * empty buffer. The functions here give the committed effect of each buffer
 * operation; the in-place versions in module Engine are proved against them.
 */
module CircularBuffer {
  import opened Ring
  import opened Outcomes

  datatype Deque<Item> = Deque(start: int, stop: int, elements: map<int, Item>)

  /** A fresh buffer, as `PersistentDeque()` creates it. */
  function Empty<Item>(): Deque<Item> {
    Deque(0, 0, map[])
  }

  /** The occupied keys are exactly the ring range [start, stop). */
  ghost predicate Valid<Item>(d: Deque<Item>) {
    && InRange(d.start)
    && InRange(d.stop)
    && forall k :: k in d.elements <==> InRange(k) && Offset(d.start, k) < Size(d.start, d.stop)
  }

  /** The items stored at the `n` keys from `base` onward on the ring. */
  ghost function Window<Item>(elements: map<int, Item>, base: int, n: nat): (r: seq<Item>)
    requires forall i :: 0 <= i < n ==> Shift(base, i) in elements
    ensures |r| == n
    decreases n
  {
    if n == 0 then [] else Window(elements, base, n - 1) + [elements[Shift(base, n - 1)]]
  }

  lemma {:induction false} WindowAt<Item>(elements: map<int, Item>, base: int, n: nat, i: int)
    requires forall j :: 0 <= j < n ==> Shift(base, j) in elements
    requires 0 <= i < n
    ensures Window(elements, base, n)[i] == elements[Shift(base, i)]
    decreases n
  {
    if i < n - 1 {
      WindowAt(elements, base, n - 1, i);
    }
  }

  /** The queued items, head first. */
  ghost function Contents<Item>(d: Deque<Item>): (c: seq<Item>)
    requires Valid(d)
    ensures |c| < MODULUS
  {
    Window(d.elements, d.start, Size(d.start, d.stop))
  }

  /** The item `i` places behind the head sits `i` keys after `start`. */
  lemma ContentsIndex<Item>(d: Deque<Item>, i: int)
    requires Valid(d) && 0 <= i < |Contents(d)|
    ensures Shift(d.start, i) in d.elements && Contents(d)[i] == d.elements[Shift(d.start, i)]
  {
    WindowAt(d.elements, d.start, Size(d.start, d.stop), i);
  }

  lemma ContentsAt<Item>(d: Deque<Item>)
    requires Valid(d)
    ensures forall i :: 0 <= i < |Contents(d)| ==> Contents(d)[i] == d.elements[Shift(d.start, i)]
  {
    forall i | 0 <= i < |Contents(d)|
      ensures Contents(d)[i] == d.elements[Shift(d.start, i)]
    {
      ContentsIndex(d, i);
    }
  }

  /**
   * Tail insert as committed: the item goes to key `stop` and `stop` steps
   * forward; when the new `stop` meets `start` the buffer is full and the
   * transaction is discarded.
   */
  function TailInsert<Item>(d: Deque<Item>, x: Item): (r: Result<Deque<Item>>)
    requires InRange(d.start) && InRange(d.stop)
    ensures r.Ok? ==> InRange(r.value.start) && InRange(r.value.stop)
  {
    var stop := Next(d.stop);
    if stop == d.start then Err(SizeOfPersistentQueueExceeded)
    else Ok(Deque(d.start, stop, d.elements[d.stop := x]))
  }

  /**
   * Head insert (requeue): `start` steps back; when it meets `stop` the
   * buffer is full, otherwise the item goes to the new `start`.
   */
  function HeadInsert<Item>(d: Deque<Item>, x: Item): (r: Result<Deque<Item>>)
    requires InRange(d.start) && InRange(d.stop)
    ensures r.Ok? ==> InRange(r.value.start) && InRange(r.value.stop)
  {
    var start := Prev(d.start);
    if start == d.stop then Err(SizeOfPersistentQueueExceeded)
    else Ok(Deque(start, d.stop, d.elements[start := x]))
  }

  /**
   * Head removal: the item at key `start` is taken out and `start` steps
   * forward; when it meets `stop` both cursors are reset to 0. A missing key
   * `start` raises KeyError.
   */
  function HeadRemove<Item>(d: Deque<Item>): (r: Result<(Item, Deque<Item>)>)
    requires InRange(d.start) && InRange(d.stop)
    ensures r.Ok? ==> InRange(r.value.1.start) && InRange(r.value.1.stop)
  {
    if d.start !in d.elements then Err(KeyError)
    else
      var item := d.elements[d.start];
      var rest := d.elements - {d.start};
      var start := Next(d.start);
      Ok((item, if start == d.stop then Deque(0, 0, rest) else Deque(start, d.stop, rest)))
  }

  lemma EmptyIsValid<Item>()
    ensures Valid(Empty<Item>()) && Contents(Empty<Item>()) == []
  {
  }

  /** The key `stop` is the one `|Contents|` steps after `start`. */
  lemma StopIsShiftedStart<Item>(d: Deque<Item>)
    requires Valid(d)
    ensures d.stop == Shift(d.start, |Contents(d)|)
  {
    ShiftOffset(d.start, d.stop);
  }

  /**
   * Tail insert fails exactly on a buffer holding MODULUS - 1 items;
   * otherwise it keeps the range invariant and appends the item.
   */
  lemma TailInsertSpec<Item>(d: Deque<Item>, x: Item)
    requires Valid(d)
    ensures TailInsert(d, x).Err? <==> |Contents(d)| == MODULUS - 1
    ensures TailInsert(d, x).Ok? ==>
      var d' := TailInsert(d, x).value;
      Valid(d') && Contents(d') == Contents(d) + [x]
  {
    var n := |Contents(d)|;
    StopIsShiftedStart(d);
    ShiftShift(d.start, n, 1);
    if n + 1 == MODULUS {
      ShiftCongruent(d.start, n + 1, d.start, 0);
    } else {
      var d' := TailInsert(d, x).value;
      assert Size(d'.start, d'.stop) == n + 1;
      forall k
        ensures k in d'.elements <==> InRange(k) && Offset(d'.start, k) < n + 1
      {
        if InRange(k) {
          OffsetInjective(d.start, k, d.stop);
        }
      }
      assert Valid(d');
      ContentsAt(d);
      ContentsAt(d');
      forall i | 0 <= i < n + 1
        ensures Contents(d')[i] == (Contents(d) + [x])[i]
      {
        if i < n {
          OffsetInjective(d.start, Shift(d.start, i), d.stop);
        }
      }
    }
  }

  /** The key before `start` is free on a buffer that is not full, and taking it keeps the invariant. */
  lemma HeadInsertValid<Item>(d: Deque<Item>, x: Item)
    requires Valid(d) && |Contents(d)| < MODULUS - 1
    ensures HeadInsert(d, x).Ok?
    ensures Valid(HeadInsert(d, x).value)
    ensures Size(Prev(d.start), d.stop) == |Contents(d)| + 1
  {
    var n := |Contents(d)|;
    var start' := Prev(d.start);
    OffsetInjective(d.start, start', d.stop);
    StopIsShiftedStart(d);
    ShiftShift(start', 1, n);
    assert Size(start', d.stop) == n + 1;
    var d' := HeadInsert(d, x).value;
    forall k
      ensures k in d'.elements <==> InRange(k) && Offset(start', k) < n + 1
    {
      if InRange(k) && k != start' {
        OffsetNext(start', k);
      }
    }
  }

  /**
   * Head insert fails exactly on a buffer holding MODULUS - 1 items;
   * otherwise it keeps the range invariant and prepends the item.
   */
  lemma HeadInsertSpec<Item>(d: Deque<Item>, x: Item)
    requires Valid(d)
    ensures HeadInsert(d, x).Err? <==> |Contents(d)| == MODULUS - 1
    ensures HeadInsert(d, x).Ok? ==>
      var d' := HeadInsert(d, x).value;
      Valid(d') && Contents(d') == [x] + Contents(d)
  {
    var n := |Contents(d)|;
    OffsetInjective(d.start, Prev(d.start), d.stop);
    if n < MODULUS - 1 {
      HeadInsertValid(d, x);
      HeadInsertContents(d, x);
    }
  }

  /** After a head insert the item `i` places behind the new head is the one `i - 1` places behind the old. */
  lemma HeadInsertIndex<Item>(d: Deque<Item>, x: Item, i: int)
    requires Valid(d) && |Contents(d)| < MODULUS - 1 && 0 <= i <= |Contents(d)|
    requires HeadInsert(d, x).Ok? && Valid(HeadInsert(d, x).value)
    requires |Contents(HeadInsert(d, x).value)| == |Contents(d)| + 1
    ensures Contents(HeadInsert(d, x).value)[i] == if i == 0 then x else Contents(d)[i - 1]
  {
    var start' := Prev(d.start);
    ContentsIndex(HeadInsert(d, x).value, i);
    if i == 0 {
      ShiftOffset(start', start');
    } else {
      ShiftShift(start', 1, i - 1);
      OffsetInjective(start', Shift(start', i), start');
      ContentsIndex(d, i - 1);
    }
  }

  lemma HeadInsertContents<Item>(d: Deque<Item>, x: Item)
    requires Valid(d) && |Contents(d)| < MODULUS - 1
    requires HeadInsert(d, x).Ok? && Valid(HeadInsert(d, x).value)
    requires Size(Prev(d.start), d.stop) == |Contents(d)| + 1
    ensures Contents(HeadInsert(d, x).value) == [x] + Contents(d)
  {
    var n := |Contents(d)|;
    var d' := HeadInsert(d, x).value;
    forall i | 0 <= i < n + 1
      ensures Contents(d')[i] == ([x] + Contents(d))[i]
    {
      HeadInsertIndex(d, x, i);
    }
  }


  /** Taking the head off a buffer holding at least two items keeps the invariant. */
  lemma HeadRemoveValid<Item>(d: Deque<Item>)
    requires Valid(d) && |Contents(d)| > 1
    ensures HeadRemove(d).Ok?
    ensures HeadRemove(d).value.1 == Deque(Next(d.start), d.stop, d.elements - {d.start})
    ensures Valid(HeadRemove(d).value.1)
  {
    var n := |Contents(d)|;
    var start' := Next(d.start);
    OffsetNext(d.start, d.stop);
    var d' := Deque(start', d.stop, d.elements - {d.start});
    forall k
      ensures k in d'.elements <==> InRange(k) && Offset(start', k) < n - 1
    {
      if InRange(k) && k != d.start {
        OffsetNext(d.start, k);
      }
      if InRange(k) && k == d.start {
        OffsetInjective(start', k, d.stop);
      }
    }
  }

  /** Taking the only item leaves the fresh empty buffer. */
  lemma HeadRemoveLast<Item>(d: Deque<Item>)
    requires Valid(d) && |Contents(d)| == 1
    ensures HeadRemove(d) == Ok((d.elements[d.start], Empty()))
  {
    OffsetNext(d.start, d.stop);
    forall k | k in d.elements
      ensures k == d.start
    {
      OffsetInjective(d.start, k, d.start);
    }
    assert (d.elements - {d.start}).Keys == {};
  }

  /** The head item sits at key `start`. */
  lemma HeadAtStart<Item>(d: Deque<Item>)
    requires Valid(d) && |Contents(d)| > 0
    ensures d.start in d.elements && Contents(d)[0] == d.elements[d.start]
  {
    ShiftOffset(d.start, d.start);
    ContentsAt(d);
  }

  /**
   * Head removal fails exactly on an empty buffer; otherwise it returns the
   * head item, keeps the range invariant, drops the head, and resets both
   * cursors to 0 when it takes the last item.
   */
  lemma HeadRemoveSpec<Item>(d: Deque<Item>)
    requires Valid(d)
    ensures HeadRemove(d).Err? <==> Contents(d) == []
    ensures HeadRemove(d).Ok? ==>
      && HeadRemove(d).value.0 == Contents(d)[0]
      && Valid(HeadRemove(d).value.1)
      && Contents(HeadRemove(d).value.1) == Contents(d)[1..]
      && (|Contents(d)| == 1 ==> HeadRemove(d).value.1 == Empty())
  {
    var n := |Contents(d)|;
    if n == 0 {
      assert Offset(d.start, d.start) == 0;
    } else {
      HeadAtStart(d);
      if n == 1 {
        HeadRemoveLast(d);
      } else {
        HeadRemoveValid(d);
        var d' := HeadRemove(d).value.1;
        assert |Contents(d')| == n - 1;
        ContentsAt(d);
        ContentsAt(d');
        forall i | 0 <= i < n - 1
          ensures Contents(d')[i] == Contents(d)[i + 1]
        {
          ShiftShift(d.start, 1, i);
        }
      }
    }
  }

  /** A buffer whose range is empty holds no elements at all. */
  lemma EmptyRangeHasNoElements<Item>(d: Deque<Item>)
    requires Valid(d) && Contents(d) == []
    ensures d.elements == map[]
  {
    forall k | k in d.elements
      ensures false
    {
    }
    assert d.elements.Keys == {};
  }

  /** A run of `put` calls: tail inserts in order, stopping at the first failure. */
  function PutAll<Item>(d: Deque<Item>, xs: seq<Item>): (r: Result<Deque<Item>>)
    requires InRange(d.start) && InRange(d.stop)
    ensures r.Ok? ==> InRange(r.value.start) && InRange(r.value.stop)
    decreases |xs|
  {
    if xs == [] then Ok(d)
    else
      match TailInsert(d, xs[0])
      case Err(e) => Err(e)
      case Ok(d1) => PutAll(d1, xs[1..])
  }

  /** A run of `n` `get` calls: head removals in order, stopping at the first failure. */
  function GetAll<Item>(d: Deque<Item>, n: nat): Result<(seq<Item>, Deque<Item>)>
    requires InRange(d.start) && InRange(d.stop)
    decreases n
  {
    if n == 0 then Ok(([], d))
    else
      match HeadRemove(d)
      case Err(e) => Err(e)
      case Ok((x, d1)) =>
        match GetAll(d1, n - 1)
        case Err(e) => Err(e)
        case Ok((ys, d2)) => Ok(([x] + ys, d2))
  }

  lemma AppendFirst<Item>(c: seq<Item>, xs: seq<Item>)
    requires xs != []
    ensures (c + [xs[0]]) + xs[1..] == c + xs
  {
    assert xs == [xs[0]] + xs[1..];
  }

  /** `xs` back to front. */
  function Reversed<Item>(xs: seq<Item>): (r: seq<Item>)
    ensures |r| == |xs|
    decreases |xs|
  {
    if xs == [] then [] else [xs[|xs| - 1]] + Reversed(xs[..|xs| - 1])
  }

  lemma {:induction false} ReversedSameItems<Item>(xs: seq<Item>)
    ensures multiset(Reversed(xs)) == multiset(xs)
    decreases |xs|
  {
    if xs != [] {
      ReversedSameItems(xs[..|xs| - 1]);
      assert xs == xs[..|xs| - 1] + [xs[|xs| - 1]];
    }
  }

  lemma PrependAssoc<Item>(x: Item, a: seq<Item>, b: seq<Item>)
    ensures [x] + (a + b) == ([x] + a) + b
  {
  }

  /**
   * A run of head inserts, one per item of `xs` in order, stopping at the
   * first failure: how a listed ack set is requeued.
   */
  function HeadInsertAll<Item>(d: Deque<Item>, xs: seq<Item>): (r: Result<Deque<Item>>)
    requires InRange(d.start) && InRange(d.stop)
    ensures r.Ok? ==> InRange(r.value.start) && InRange(r.value.stop)
    decreases |xs|
  {
    if xs == [] then Ok(d)
    else
      match HeadInsertAll(d, xs[..|xs| - 1])
      case Err(e) => Err(e)
      case Ok(d1) => HeadInsert(d1, xs[|xs| - 1])
  }

  /** The run over the first `i + 1` items is the run over the first `i` and one more insert. */
  lemma HeadInsertAllStep<Item>(d: Deque<Item>, xs: seq<Item>, i: nat)
    requires InRange(d.start) && InRange(d.stop) && i < |xs|
    ensures HeadInsertAll(d, xs[..i + 1]) ==
      match HeadInsertAll(d, xs[..i])
      case Err(e) => Err(e)
      case Ok(d1) => HeadInsert(d1, xs[i])
  {
    assert xs[..i + 1][..i] == xs[..i];
  }

  /** One more push that succeeds extends the pushed prefix by one item. */
  lemma HeadInsertAllAdvances<Item>(d: Deque<Item>, xs: seq<Item>, i: nat, cur: Deque<Item>)
    requires InRange(d.start) && InRange(d.stop) && i < |xs|
    requires HeadInsertAll(d, xs[..i]) == Ok(cur) && HeadInsert(cur, xs[i]).Ok?
    ensures HeadInsertAll(d, xs[..i + 1]) == HeadInsert(cur, xs[i])
  {
    HeadInsertAllStep(d, xs, i);
  }

  /** One push that fails makes pushing the whole sequence fail. */
  lemma HeadInsertAllFails<Item>(d: Deque<Item>, xs: seq<Item>, i: nat, cur: Deque<Item>)
    requires InRange(d.start) && InRange(d.stop) && i < |xs|
    requires HeadInsertAll(d, xs[..i]) == Ok(cur) && HeadInsert(cur, xs[i]).Err?
    ensures HeadInsertAll(d, xs).Err?
  {
    HeadInsertAllStep(d, xs, i);
    HeadInsertAllPrefix(d, xs, i + 1);
  }

  /** A run that fails on a prefix of the items fails on all of them. */
  lemma {:induction false} HeadInsertAllPrefix<Item>(d: Deque<Item>, xs: seq<Item>, n: nat)
    requires InRange(d.start) && InRange(d.stop) && n <= |xs|
    requires HeadInsertAll(d, xs[..n]).Err?
    ensures HeadInsertAll(d, xs).Err?
    decreases |xs| - n
  {
    if n < |xs| {
      HeadInsertAllStep(d, xs, n);
      HeadInsertAllPrefix(d, xs, n + 1);
    } else {
      assert xs[..n] == xs;
    }
  }

  /**
   * Head inserts succeed exactly while the items fit, and leave the items
   * in reverse order in front of what was queued.
   */
  lemma {:induction false} HeadInsertAllSpec<Item>(d: Deque<Item>, xs: seq<Item>)
    requires Valid(d)
    ensures HeadInsertAll(d, xs).Ok? <==> |Contents(d)| + |xs| < MODULUS
    ensures HeadInsertAll(d, xs).Ok? ==>
      Valid(HeadInsertAll(d, xs).value)
      && Contents(HeadInsertAll(d, xs).value) == Reversed(xs) + Contents(d)
    decreases |xs|
  {
    if xs != [] {
      var n := |xs| - 1;
      var init, x := xs[..n], xs[n];
      HeadInsertAllSpec(d, init);
      HeadInsertAllStep(d, xs, n);
      assert xs[..n + 1] == xs;
      if HeadInsertAll(d, init).Ok? {
        var d1 := HeadInsertAll(d, init).value;
        HeadInsertSpec(d1, x);
        PrependAssoc(x, Reversed(init), Contents(d));
      }
    }
  }

  /** Putting items that fit appends them to the queue, in order. */
  lemma {:induction false} PutAllAppends<Item>(d: Deque<Item>, xs: seq<Item>)
    requires Valid(d) && |Contents(d)| + |xs| < MODULUS
    ensures PutAll(d, xs).Ok?
    ensures Valid(PutAll(d, xs).value) && Contents(PutAll(d, xs).value) == Contents(d) + xs
    decreases |xs|
  {
    if xs != [] {
      TailInsertSpec(d, xs[0]);
      var d1 := TailInsert(d, xs[0]).value;
      PutAllAppends(d1, xs[1..]);
      AppendFirst(Contents(d), xs);
    }
  }

  /**
   * Getting as many items as the queue holds returns them head first and
   * leaves no element behind; once an item was taken the cursors are back
   * at 0.
   */
  lemma {:induction false} GetAllDrains<Item>(d: Deque<Item>)
    requires Valid(d)
    ensures GetAll(d, |Contents(d)|).Ok?
    ensures
      var (ys, d') := GetAll(d, |Contents(d)|).value;
      && ys == Contents(d)
      && d'.elements == map[]
      && (Contents(d) != [] ==> d' == Empty())
    decreases |Contents(d)|
  {
    if Contents(d) == [] {
      EmptyRangeHasNoElements(d);
    } else {
      HeadRemoveSpec(d);
      var (x, d1) := HeadRemove(d).value;
      GetAllDrains(d1);
      assert [x] + Contents(d1) == Contents(d);
    }
  }

  /**
   * FIFO order: after a run of puts, getting everything returns what was
   * queued before followed by the put items in put order, and drains the
   * buffer.
   */
  lemma FifoOrder<Item>(d: Deque<Item>, xs: seq<Item>)
    requires Valid(d) && |Contents(d)| + |xs| < MODULUS
    ensures PutAll(d, xs).Ok?
    ensures
      var d1 := PutAll(d, xs).value;
      var r := GetAll(d1, |Contents(d)| + |xs|);
      r.Ok? && r.value.0 == Contents(d) + xs && r.value.1.elements == map[]
  {
    PutAllAppends(d, xs);
    var d1 := PutAll(d, xs).value;
    assert |Contents(d1)| == |Contents(d)| + |xs|;
    GetAllDrains(d1);
  }

  /**
   * `_qsize` as written: the wrapped branch calls the unassigned local
   * `size` instead of assigning to it, which raises UnboundLocalError.
   */
  function QSizeAsWritten<Item>(d: Deque<Item>): Result<int> {
    if d.stop >= d.start then Ok(d.stop - d.start) else Err(UnboundLocalError)
  }

  /**
   * On a valid buffer `_qsize` as written counts the items when the range
   * does not wrap, and fails whenever it does.
   */
  lemma QSizeAsWrittenFailsOnWrap<Item>(d: Deque<Item>)
    requires Valid(d)
    ensures QSizeAsWritten(d).Err? <==> d.stop < d.start
    ensures QSizeAsWritten(d).Ok? ==> QSizeAsWritten(d).value == |Contents(d)|
  {
  }

  /** A buffer holding one item at key MAX_INT makes `_qsize` as written fail. */
  lemma QSizeAsWrittenCounterexample<Item>(x: Item)
    ensures
      var d := Deque(MAX_INT, MIN_INT, map[MAX_INT := x]);
      Valid(d) && Contents(d) == [x] && QSizeAsWritten(d) == Err(UnboundLocalError)
  {
    var d := Deque(MAX_INT, MIN_INT, map[MAX_INT := x]);
    forall k
      ensures k in d.elements <==> InRange(k) && Offset(d.start, k) < 1
    {
      if InRange(k) {
        OffsetInjective(d.start, k, MAX_INT);
      }
    }
    ContentsAt(d);
  }

  /**
   * `_remove_from_queue_with_index` as written: deletes key `idx`, then
   * moves `start` up if `idx` was the head, or `stop` down if `idx` was the
   * key just below `stop`, both with plain integer arithmetic; a range left
   * empty resets both cursors to 0.
   */
  function RemoveWithIndexAsWritten<Item>(d: Deque<Item>, idx: int): Result<Deque<Item>> {
    if idx !in d.elements then Err(KeyError)
    else
      var elements := d.elements - {idx};
      var start := if idx == d.start then d.start + 1 else d.start;
      var stop := if idx != d.start && idx == d.stop - 1 then d.stop - 1 else d.stop;
      Ok(if start == stop then Deque(0, 0, elements) else Deque(start, stop, elements))
  }

  /**
   * Two valid buffers that `_remove_from_queue_with_index` as written breaks:
   * removing the head at key MAX_INT moves `start` off the ring, and removing
   * the tail at key MAX_INT (with `stop` wrapped to MIN_INT) leaves a hole.
   */
  lemma RemoveWithIndexAsWrittenBreaksRing<Item>(x: Item, y: Item)
    ensures
      var d := Deque(MAX_INT, MIN_INT + 1, map[MAX_INT := x, MIN_INT := y]);
      && Valid(d) && Contents(d) == [x, y]
      && RemoveWithIndexAsWritten(d, MAX_INT).Ok?
      && !Valid(RemoveWithIndexAsWritten(d, MAX_INT).value)
    ensures
      var d := Deque(MAX_INT - 1, MIN_INT, map[MAX_INT - 1 := x, MAX_INT := y]);
      && Valid(d) && Contents(d) == [x, y]
      && RemoveWithIndexAsWritten(d, MAX_INT).Ok?
      && !Valid(RemoveWithIndexAsWritten(d, MAX_INT).value)
  {
    var d1 := Deque(MAX_INT, MIN_INT + 1, map[MAX_INT := x, MIN_INT := y]);
    forall k
      ensures k in d1.elements <==> InRange(k) && Offset(d1.start, k) < 2
    {
      if InRange(k) {
        OffsetInjective(d1.start, k, MAX_INT);
        OffsetInjective(d1.start, k, MIN_INT);
      }
    }
    ContentsAt(d1);
    assert Contents(d1)[1] == y by {
      assert Shift(MAX_INT, 1) == MIN_INT;
    }
    var d2 := Deque(MAX_INT - 1, MIN_INT, map[MAX_INT - 1 := x, MAX_INT := y]);
    forall k
      ensures k in d2.elements <==> InRange(k) && Offset(d2.start, k) < 2
    {
      if InRange(k) {
        OffsetInjective(d2.start, k, MAX_INT - 1);
        OffsetInjective(d2.start, k, MAX_INT);
      }
    }
    ContentsAt(d2);
    var r2 := RemoveWithIndexAsWritten(d2, MAX_INT).value;
    assert r2 == Deque(MAX_INT - 1, MIN_INT, map[MAX_INT - 1 := x]);
    assert Offset(r2.start, MAX_INT) == 1;
  }

  /**
   * `_remove_from_queue_with_index` with the cursor moves taken on the ring:
   * `start` steps forward with Next, `stop` steps back with Prev.
   */
  function RemoveWithIndex<Item>(d: Deque<Item>, idx: int): Result<Deque<Item>>
    requires InRange(d.start) && InRange(d.stop)
  {
    if idx !in d.elements then Err(KeyError)
    else
      var elements := d.elements - {idx};
      var start := if idx == d.start then Next(d.start) else d.start;
      var stop := if idx != d.start && idx == Prev(d.stop) then Prev(d.stop) else d.stop;
      Ok(if start == stop then Deque(0, 0, elements) else Deque(start, stop, elements))
  }

  /**
   * Removing a key deletes exactly that key and fails when it is absent.
   * Removing the head or the last item keeps the range invariant and drops
   * that item from the queue; removing the head agrees with head removal.
   */
  lemma RemoveWithIndexSpec<Item>(d: Deque<Item>, idx: int)
    requires Valid(d)
    ensures RemoveWithIndex(d, idx).Err? <==> idx !in d.elements
    ensures RemoveWithIndex(d, idx).Ok? ==> RemoveWithIndex(d, idx).value.elements == d.elements - {idx}
    ensures Contents(d) != [] && idx == d.start ==>
      && RemoveWithIndex(d, idx).Ok?
      && RemoveWithIndex(d, idx).value == HeadRemove(d).value.1
      && Valid(RemoveWithIndex(d, idx).value)
      && Contents(RemoveWithIndex(d, idx).value) == Contents(d)[1..]
    ensures Contents(d) != [] && idx == Prev(d.stop) ==>
      && RemoveWithIndex(d, idx).Ok?
      && Valid(RemoveWithIndex(d, idx).value)
      && Contents(RemoveWithIndex(d, idx).value) == Contents(d)[..|Contents(d)| - 1]
  {
    var n := |Contents(d)|;
    if n > 0 && idx == d.start {
      HeadRemoveSpec(d);
    } else if n > 0 && idx == Prev(d.stop) {
      RemoveTailSpec(d);
    }
  }

  /** Removing the last item of a buffer holding at least two items. */
  lemma RemoveTailSpec<Item>(d: Deque<Item>)
    requires Valid(d) && |Contents(d)| > 0 && Prev(d.stop) != d.start
    ensures RemoveWithIndex(d, Prev(d.stop)).Ok?
    ensures
      var d' := RemoveWithIndex(d, Prev(d.stop)).value;
      Valid(d') && Contents(d') == Contents(d)[..|Contents(d)| - 1]
  {
    var n := |Contents(d)|;
    var last := Prev(d.stop);
    StopIsShiftedStart(d);
    ShiftShift(d.start, n - 1, 1);
    assert Next(Shift(d.start, n - 1)) == d.stop;
    assert last == Shift(d.start, n - 1);
    assert Offset(d.start, last) == n - 1;
    assert last in d.elements;
    OffsetInjective(d.start, d.start, last);
    assert n >= 2;
    var d' := RemoveWithIndex(d, last).value;
    assert Size(d.start, last) == n - 1;
    assert d' == Deque(d.start, last, d.elements - {last});
    forall k
      ensures k in d'.elements <==> InRange(k) && Offset(d.start, k) < n - 1
    {
      if InRange(k) {
        OffsetInjective(d.start, k, last);
      }
    }
    assert Valid(d');
    ContentsAt(d);
    ContentsAt(d');
    forall i | 0 <= i < n - 1
      ensures Contents(d')[i] == Contents(d)[i]
    {
      OffsetInjective(d.start, Shift(d.start, i), last);
    }
  }
}
