/** The queue of `queue_adt.c`: a ring buffer of element references with head
    and tail indices. A dynamic queue moves its elements into an array twice
    as large when an enqueue finds it full, and into one half as large when a
    dequeue finds it less than a quarter used; a circular (fixed-size) queue
    refuses the enqueue instead. */
module QueueAdt {
  import opened Common
  import Arith

  /** `head` is the slot of the oldest element, `tail` that of the newest;
      `cap` is the struct's `curr_max_size`, `minSize` its `min_size`. A slot
      of `buf` is `None` until something has been written to it. */
  datatype Queue = Queue(
    buf: seq<Option<Element>>,
    head: nat,
    tail: nat,
    count: nat,
    minSize: nat,
    cap: nat,
    isFix: bool)

  /** The two arguments `resize_contents_array` is called with. */
  datatype Factor = Twice | Half

  /** An index that has run at most one lap past the end of a ring of `cap`
      slots, brought back into the ring. */
  function Wrap(a: nat, cap: nat): (r: nat)
    requires a < 2 * cap
    ensures r < cap
  {
    if a < cap then a else a - cap
  }

  /** Wrapping is the remainder modulo the ring size, so the slot of the
      newest element is `(head + count - 1) % cap`. */
  lemma WrapIsRemainder(a: nat, cap: nat)
    requires a < 2 * cap
    ensures Wrap(a, cap) == a % cap
  {
    if a < cap {
      Arith.DivModUnique(a, cap, 0, a);
    } else {
      Arith.DivModUnique(a, cap, 1, a - cap);
    }
  }

  /** The wrap-around step of `cadtqueue_enqueue` and `cadtqueue_dequeue`:
      the slot after `i`. */
  function Advance(i: nat, cap: nat): (r: nat)
    requires i < cap
    ensures r == Wrap(i + 1, cap)
  {
    if i == cap - 1 then 0 else i + 1
  }

  /** The slot of the element `i` places behind the head. */
  function Slot(q: Queue, i: nat): (r: nat)
    requires q.head < q.cap && i < q.cap
    ensures r < q.cap
  {
    Wrap(q.head + i, q.cap)
  }

  /** What every queue built through this API satisfies: the array has `cap`
      slots, the `count` slots from `head` on (wrapping around) hold
      elements, `tail` is the last of them (or `head` when there are none),
      and a circular queue never leaves its creation size. */
  predicate Valid(q: Queue)
  {
    && 1 <= q.minSize
    && 1 <= q.cap
    && |q.buf| == q.cap
    && q.head < q.cap
    && q.tail < q.cap
    && q.count <= q.cap
    && (q.count == 0 ==> q.tail == q.head)
    && (q.count >= 1 ==> q.tail == Slot(q, q.count - 1))
    && (forall i :: 0 <= i < q.count ==> q.buf[Slot(q, i)].Some?)
    && (q.isFix ==> q.cap == q.minSize)
  }

  /** The elements in the queue, oldest first. */
  function Elements(q: Queue): seq<Element>
    requires Valid(q)
  {
    seq(q.count, i requires 0 <= i < q.count => q.buf[Slot(q, i)].value)
  }

  function Allocate(size: nat, isFix: bool): (r: Result<Queue>)
    ensures r.Err? <==> size == 0
    ensures r.Err? ==> r.fault == InvalidArgument
    ensures r.Ok? ==> Valid(r.value) && Elements(r.value) == []
    ensures r.Ok? ==> r.value.cap == r.value.minSize == size && r.value.isFix == isFix
    ensures r.Ok? ==> r.value.head == r.value.tail == 0
  {
    if size == 0 then Err(InvalidArgument)
    else Ok(Queue(Nones(size), 0, 0, 0, size, size, isFix))
  }

  /** `cadtqueue_new`: an empty dynamic queue; a zero size is refused. */
  function New(size: nat): (r: Result<Queue>)
    ensures r.Err? <==> size == 0
    ensures r.Err? ==> r.fault == InvalidArgument
    ensures r.Ok? ==> Valid(r.value) && Elements(r.value) == []
    ensures r.Ok? ==> r.value.cap == r.value.minSize == size && !r.value.isFix
    ensures r.Ok? ==> r.value.head == r.value.tail == 0
  {
    Allocate(size, false)
  }

  /** `cadtqueue_new_circular`: an empty fixed-size queue; a zero size is
      refused. */
  function NewCircular(size: nat): (r: Result<Queue>)
    ensures r.Err? <==> size == 0
    ensures r.Err? ==> r.fault == InvalidArgument
    ensures r.Ok? ==> Valid(r.value) && Elements(r.value) == []
    ensures r.Ok? ==> r.value.cap == r.value.minSize == size && r.value.isFix
    ensures r.Ok? ==> r.value.head == r.value.tail == 0
  {
    Allocate(size, true)
  }

  /** `cadtqueue_nelems`. */
  function Nelems(q: Queue): (n: nat)
    requires Valid(q)
    ensures n == |Elements(q)|
  {
    q.count
  }

  // ---------------------------------------------------------------- resizing

  function NewSize(cap: nat, f: Factor): nat
  {
    match f
    case Twice => cap * 2
    case Half => cap / 2
  }

  /** `shift_elements`: the new array of `newSize` slots, holding the queue's
      elements from slot 0 on. A wrapped queue is copied in two pieces (head
      to the end of the old array, then the start of the old array up to the
      tail), an unwrapped one in one piece. */
  function ShiftElements(q: Queue, newSize: nat): (r: seq<Option<Element>>)
    requires Valid(q) && 1 <= q.count <= newSize
    ensures |r| == newSize
    ensures forall i :: 0 <= i < q.count ==> r[i] == q.buf[Slot(q, i)]
    ensures forall i :: q.count <= i < newSize ==> r[i] == None
  {
    if q.head > q.tail then
      var front := q.buf[q.head..q.cap];
      var back := q.buf[..q.tail + 1];
      assert |front| + |back| == q.count;
      front + back + Nones(newSize - q.count)
    else
      q.buf[q.head..q.head + q.count] + Nones(newSize - q.count)
  }

  /** `resize_contents_array`: the elements move to a fresh array of the new
      size, oldest at slot 0. `queue_adt.c` calls it only on a queue that is
      full (doubling) or less than a quarter used (halving), and only on a
      dynamic queue, so never on an empty queue and never with more elements
      than the new array has room for. */
  function Resize(q: Queue, f: Factor): (r: Queue)
    requires Valid(q) && !q.isFix && 1 <= q.count <= NewSize(q.cap, f)
    ensures Valid(r) && Elements(r) == Elements(q)
    ensures r.cap == NewSize(q.cap, f) && r.head == 0 && r.tail == q.count - 1
    ensures r.minSize == q.minSize && r.isFix == q.isFix
  {
    var n := NewSize(q.cap, f);
    q.(buf := ShiftElements(q, n), head := 0, tail := q.count - 1, cap := n)
  }

  // --------------------------------------------------------------- operations

  /** The store step of `cadtqueue_enqueue` on a queue with room: the tail
      moves on (wrapping around) unless the queue is empty, and the element is
      written there. */
  function PutAtTail(g: Queue, e: Element): (r: Queue)
    requires Valid(g) && g.count < g.cap
    ensures Valid(r) && Elements(r) == Elements(g) + [e]
    ensures r.cap == g.cap && r.minSize == g.minSize && r.isFix == g.isFix
  {
    var tail := if g.count >= 1 then Advance(g.tail, g.cap) else g.tail;
    assert tail == Slot(g, g.count);
    var r := g.(buf := g.buf[tail := Some(e)], tail := tail, count := g.count + 1);
    StoreAtSlot(g, e, r);
    r
  }

  /** Writing the slot just past the newest element appends to the queue. */
  lemma StoreAtSlot(g: Queue, e: Element, r: Queue)
    requires Valid(g) && g.count < g.cap
    requires r == g.(buf := g.buf[Slot(g, g.count) := Some(e)], tail := Slot(g, g.count), count := g.count + 1)
    ensures Valid(r) && Elements(r) == Elements(g) + [e]
  {
    var tail := Slot(g, g.count);
    forall i | 0 <= i < g.count
      ensures Slot(r, i) == Slot(g, i) != tail
    {
    }
    assert Valid(r);
    forall i | 0 <= i < r.count
      ensures Elements(r)[i] == (Elements(g) + [e])[i]
    {
    }
  }

  /** The removal step of `cadtqueue_dequeue`: the element at the head is
      read and the head moves on (wrapping around) unless the queue becomes
      empty. */
  function TakeHead(g: Queue): (r: (Queue, Element))
    requires Valid(g) && g.count >= 1
    ensures Valid(r.0) && r.1 == Elements(g)[0] && Elements(r.0) == Elements(g)[1..]
    ensures r.0.cap == g.cap && r.0.minSize == g.minSize && r.0.isFix == g.isFix
  {
    assert Slot(g, 0) == g.head;
    var x := g.buf[g.head].value;
    var head := if g.count - 1 != 0 then Advance(g.head, g.cap) else g.head;
    var r := g.(head := head, count := g.count - 1);
    MoveHead(g, r);
    (r, x)
  }

  /** Moving the head one slot on drops the oldest element. */
  lemma MoveHead(g: Queue, r: Queue)
    requires Valid(g) && g.count >= 1
    requires r == g.(head := if g.count - 1 != 0 then Advance(g.head, g.cap) else g.head, count := g.count - 1)
    ensures Valid(r) && Elements(r) == Elements(g)[1..]
  {
    forall i | 0 <= i < r.count
      ensures Slot(r, i) == Slot(g, i + 1)
    {
    }
    assert Valid(r);
    forall i | 0 <= i < r.count
      ensures Elements(r)[i] == Elements(g)[1..][i]
    {
    }
  }

  /** `cadtqueue_enqueue`: a full circular queue overflows and is left as it
      was; a full dynamic queue first doubles its array. The tail moves on
      (wrapping around) unless the queue was empty. */
  function Enqueue(q: Queue, e: Element): (r: Step<Queue, Element>)
    requires Valid(q)
    ensures Valid(r.state)
    ensures r.out.Err? <==> q.isFix && |Elements(q)| == q.cap
    ensures r.out.Err? ==> r.out.fault == Overflow && r.state == q
    ensures r.out.Ok? ==> r.out.value == e && Elements(r.state) == Elements(q) + [e]
    ensures r.out.Ok? ==> r.state.cap == if |Elements(q)| == q.cap then 2 * q.cap else q.cap
    ensures r.state.minSize == q.minSize && r.state.isFix == q.isFix
  {
    if q.isFix && q.count == q.cap then Step(q, Err(Overflow))
    else
      var g := if q.count == q.cap then Resize(q, Twice) else q;
      Step(PutAtTail(g, e), Ok(e))
  }

  /** `cadtqueue_dequeue`: an empty queue underflows and is left as it was;
      otherwise a dynamic queue less than a quarter used (measured before the
      removal) first halves its array, and the oldest element is removed and
      returned. The head stays where it is when the queue becomes empty. */
  function Dequeue(q: Queue): (r: Step<Queue, Element>)
    requires Valid(q)
    ensures Valid(r.state)
    ensures r.out.Err? <==> Elements(q) == []
    ensures r.out.Err? ==> r.out.fault == Underflow && r.state == q
    ensures r.out.Ok? ==> r.out.value == Elements(q)[0] && Elements(r.state) == Elements(q)[1..]
    ensures r.out.Ok? ==> r.state.cap == if !q.isFix && 4 * |Elements(q)| < q.cap then q.cap / 2 else q.cap
    ensures r.state.minSize == q.minSize && r.state.isFix == q.isFix
  {
    if q.count == 0 then Step(q, Err(Underflow))
    else
      var g := if !q.isFix && 4 * q.count < q.cap then Resize(q, Half) else q;
      var (r, x) := TakeHead(g);
      Step(r, Ok(x))
  }

  /** `cadtqueue_peek_first`: the oldest element, or underflow. */
  function PeekFirst(q: Queue): (r: Result<Element>)
    requires Valid(q)
    ensures r.Err? <==> Elements(q) == []
    ensures r.Err? ==> r.fault == Underflow
    ensures r.Ok? ==> r.value == Elements(q)[0]
  {
    if q.count == 0 then Err(Underflow)
    else
      assert Slot(q, 0) == q.head;
      Ok(q.buf[q.head].value)
  }

  /** `cadtqueue_peek_rear`: the newest element, or underflow. */
  function PeekRear(q: Queue): (r: Result<Element>)
    requires Valid(q)
    ensures r.Err? <==> Elements(q) == []
    ensures r.Err? ==> r.fault == Underflow
    ensures r.Ok? ==> r.value == Elements(q)[|Elements(q)| - 1]
  {
    if q.count == 0 then Err(Underflow) else Ok(q.buf[q.tail].value)
  }

  /** `cadtqueue_clear` as written: a fresh array of `min_size` slots is
      allocated only when the queue has grown beyond its minimum size, but the
      size is set back to `min_size` in every case. */
  function ClearAsWritten(q: Queue): (r: Queue)
    requires Valid(q)
    ensures r.count == 0 && r.head == r.tail == 0 && r.cap == q.minSize
    ensures |r.buf| == (if q.cap > q.minSize then q.minSize else q.cap)
    ensures Valid(r) <==> q.cap >= q.minSize
  {
    var buf := if q.cap > q.minSize then Nones(q.minSize) else q.buf;
    q.(buf := buf, head := 0, tail := 0, count := 0, cap := q.minSize)
  }

  /** `cadtqueue_clear` with the array reallocated whenever its size differs
      from `min_size`. */
  function Clear(q: Queue): (r: Queue)
    requires Valid(q)
    ensures Valid(r) && Elements(r) == []
    ensures r.cap == r.minSize == q.minSize && r.isFix == q.isFix
    ensures r.head == r.tail == 0
  {
    var buf := if q.cap != q.minSize then Nones(q.minSize) else q.buf;
    q.(buf := buf, head := 0, tail := 0, count := 0, cap := q.minSize)
  }

  // ----------------------------------------------------------------- lemmas

  /** The two definitions of clearing agree on every queue that has not shrunk
      below its minimum size. */
  lemma ClearAgreesUnlessShrunk(q: Queue)
    requires Valid(q) && q.cap >= q.minSize
    ensures ClearAsWritten(q) == Clear(q)
  {
  }

  /** Clearing an already-cleared queue changes nothing. */
  lemma ClearIdempotent(q: Queue)
    requires Valid(q)
    ensures Clear(Clear(q)) == Clear(q)
  {
  }

  /** `cadtqueue_new(5)`, one enqueue and one dequeue leave a 2-slot array
      (one element is below a quarter of 5); clearing as written then records
      5 slots over that 2-slot array, so the third enqueue after it writes
      past the end. */
  lemma ClearAsWrittenOverrunsBuffer()
    ensures var q := Dequeue(Enqueue(New(5).value, 7).state).state;
            var c := ClearAsWritten(q);
            && q.cap == 2 && q.minSize == 5
            && c.cap == 5 && |c.buf| == 2 && !Valid(c)
  {
  }

  /** Enqueueing the elements of `es` one after another. */
  function EnqueueAll(q: Queue, es: seq<Element>): (r: Queue)
    requires Valid(q) && !q.isFix
    ensures Valid(r) && !r.isFix && Elements(r) == Elements(q) + es
    decreases |es|
  {
    if es == [] then q
    else
      EnqueueFirst(q, es);
      EnqueueAll(Enqueue(q, es[0]).state, es[1..])
  }

  /** One step of `EnqueueAll`: the first element joins the back, and the
      rest of `es` is still to come. */
  lemma EnqueueFirst(q: Queue, es: seq<Element>)
    requires Valid(q) && !q.isFix && es != []
    ensures var p := Enqueue(q, es[0]).state;
            Valid(p) && !p.isFix && Elements(q) + es == Elements(p) + es[1..]
  {
    var p := Enqueue(q, es[0]).state;
    assert Elements(p) == Elements(q) + [es[0]];
    assert es == [es[0]] + es[1..];
  }

  /** Dequeueing until the queue is empty; the elements come out in order. */
  function DequeueAll(q: Queue): (r: seq<Element>)
    requires Valid(q)
    ensures r == Elements(q)
    decreases q.count
  {
    if q.count == 0 then []
    else
      DequeueFirst(q);
      var s := Dequeue(q);
      [s.out.value] + DequeueAll(s.state)
  }

  /** One step of `DequeueAll`: the front element comes out and the queue
      keeps the rest. */
  lemma DequeueFirst(q: Queue)
    requires Valid(q) && q.count >= 1
    ensures var s := Dequeue(q);
            && s.out.Ok? && Valid(s.state) && s.state.count < q.count
            && Elements(q) == [s.out.value] + Elements(s.state)
  {
    var s := Dequeue(q);
    var xs := Elements(q);
    assert s.out.Ok? && s.out.value == xs[0] && Elements(s.state) == xs[1..];
    assert |Elements(s.state)| == s.state.count;
    assert xs == [xs[0]] + xs[1..];
  }

  /** First in, first out: whatever is enqueued onto an empty dynamic queue
      comes back out in the same order. */
  lemma {:induction false} FirstInFirstOut(size: nat, es: seq<Element>)
    requires size >= 1
    ensures DequeueAll(EnqueueAll(New(size).value, es)) == es
  {
  }

  /** A dynamic queue never overflows. */
  lemma DynamicEnqueueSucceeds(q: Queue, e: Element)
    requires Valid(q) && !q.isFix
    ensures Enqueue(q, e).out == Ok(e)
  {
  }

  /** The circular-queue walk of `test_queue_adt_priv.c`: a size-3 circular queue
      takes a, b, c; after two dequeues and an enqueue of d the queue wraps
      around with head 2 and tail 0; after another dequeue and an enqueue of
      e it holds d, e at slots 0 and 1. */
  lemma CircularWrapAround(a: Element, b: Element, c: Element, d: Element, e: Element)
    ensures var q0 := NewCircular(3).value;
            var q3 := Enqueue(Enqueue(Enqueue(q0, a).state, b).state, c).state;
            var q6 := Enqueue(Dequeue(Dequeue(q3).state).state, d).state;
            var q8 := Enqueue(Dequeue(q6).state, e).state;
            && q3 == Queue([Some(a), Some(b), Some(c)], 0, 2, 3, 3, 3, true)
            && q6 == Queue([Some(d), Some(b), Some(c)], 2, 0, 2, 3, 3, true)
            && q8 == Queue([Some(d), Some(e), Some(c)], 0, 1, 2, 3, 3, true)
  {
    var q0 := NewCircular(3).value;
    var q1 := Enqueue(q0, a).state;
    assert q1 == Queue([Some(a), None, None], 0, 0, 1, 3, 3, true);
    var q2 := Enqueue(q1, b).state;
    assert q2 == Queue([Some(a), Some(b), None], 0, 1, 2, 3, 3, true);
    var q3 := Enqueue(q2, c).state;
    assert q3 == Queue([Some(a), Some(b), Some(c)], 0, 2, 3, 3, 3, true);
    var q4 := Dequeue(q3).state;
    assert q4 == q3.(head := 1, count := 2);
    var q5 := Dequeue(q4).state;
    assert q5 == q3.(head := 2, count := 1);
    var q6 := Enqueue(q5, d).state;
    assert q6 == Queue([Some(d), Some(b), Some(c)], 2, 0, 2, 3, 3, true);
    var q7 := Dequeue(q6).state;
    assert q7 == q6.(head := 0, count := 1);
  }

  /** Doubling a full, wrapped queue holding b, c, d with head 1 and tail 0
      lays them out as b, c, d from slot 0 of a 6-slot array. */
  lemma DoublingUnwraps()
    ensures var q := Queue([Some(4), Some(2), Some(3)], 1, 0, 3, 3, 3, false);
            var r := Resize(q, Twice);
            && r.head == 0 && r.tail == 2 && r.cap == 6
            && r.buf[..3] == [Some(2), Some(3), Some(4)]
  {
  }

  /** Five enqueues onto `cadtqueue_new(1)`: the array doubles on the second,
      third and fifth, ending with 8 slots. */
  lemma DynamicDoubling(a: Element, b: Element, c: Element, d: Element, e: Element)
    ensures var q0 := New(1).value;
            var q1 := Enqueue(q0, a).state;
            var q2 := Enqueue(q1, b).state;
            var q3 := Enqueue(q2, c).state;
            var q4 := Enqueue(q3, d).state;
            var q5 := Enqueue(q4, e).state;
            && q1.cap == 1 && q2.cap == 2 && q3.cap == 4 && q4.cap == 4 && q5.cap == 8
            && Elements(q5) == [a, b, c, d, e]
  {
    var q0 := New(1).value;
    GrowStep(q0, a, 0, 1);
    var q1 := Enqueue(q0, a).state;
    GrowStep(q1, b, 1, 1);
    var q2 := Enqueue(q1, b).state;
    GrowStep(q2, c, 2, 2);
    var q3 := Enqueue(q2, c).state;
    GrowStep(q3, d, 3, 4);
    var q4 := Enqueue(q3, d).state;
    GrowStep(q4, e, 4, 4);
  }

  /** One enqueue onto a dynamic queue of `n` elements in `c` slots. */
  lemma GrowStep(q: Queue, e: Element, n: nat, c: nat)
    requires Valid(q) && !q.isFix && |Elements(q)| == n && q.cap == c
    ensures var p := Enqueue(q, e).state;
            && Valid(p) && !p.isFix && Elements(p) == Elements(q) + [e]
            && p.cap == if n == c then 2 * c else c
  {
  }

  /** Dequeueing `k` elements. */
  function DequeueN(q: Queue, k: nat): (r: Queue)
    requires Valid(q) && k <= |Elements(q)|
    ensures Valid(r) && r.isFix == q.isFix && r.minSize == q.minSize
    ensures Elements(r) == Elements(q)[k..]
    decreases k
  {
    if k == 0 then q
    else
      var p := DequeueN(q, k - 1);
      assert Elements(q)[k - 1..][1..] == Elements(q)[k..];
      Dequeue(p).state
  }

  /** Dequeueing from a dynamic queue while it stays at least a quarter used
      keeps its capacity. */
  lemma {:induction false} DequeueNWithoutShrink(q: Queue, k: nat)
    requires Valid(q) && k <= |Elements(q)|
    requires k > 0 ==> 4 * (|Elements(q)| - k + 1) >= q.cap
    ensures DequeueN(q, k).cap == q.cap
    decreases k
  {
    if k > 0 {
      DequeueNWithoutShrink(q, k - 1);
    }
  }

  /** The halving walk of `test_queue_adt_priv.c`: a dynamic queue of 48 slots
      holding 12 elements is halved to 24 slots; seven dequeues leave it at 24
      slots, and the eighth, finding 5 elements in 24 slots, halves it again
      to 12 before removing the front element. */
  lemma HalvingOnDequeue(q: Queue)
    requires Valid(q) && !q.isFix && q.cap == 48 && |Elements(q)| == 12
    ensures var r := Resize(q, Half);
            && r.cap == 24 && Elements(r) == Elements(q)
            && DequeueN(r, 7).cap == 24
            && DequeueN(r, 8).cap == 12 && Elements(DequeueN(r, 8)) == Elements(q)[8..]
            && DequeueN(r, 8).head == 1 && DequeueN(r, 8).tail == 4
  {
    var r := Resize(q, Half);
    assert NewSize(48, Half) == 24;
    DequeueNWithoutShrink(r, 7);
    var p := DequeueN(r, 7);
    assert |Elements(p)| == 5;
    var g := Resize(p, Half);
    assert g.head == 0 && g.tail == 4 && g.count == 5 && g.cap == 12;
    assert DequeueN(r, 8) == Dequeue(p).state == TakeHead(g).0;
  }
}
