/** The stack of `stack_adt.c`: an array of element references with a top
    index. A variable-size stack doubles its array when a push finds it full
    and halves it when a pop finds it less than a quarter used; a fixed-size
    stack refuses the push instead. */
module StackAdt {
  import opened Common

  /** `contents` is the allocated array, one slot per entry of `buf`; a slot
      is `None` until something has been written to it. `cap` is the struct's
      `curr_max_size`, `minSize` its `min_size`. */
  datatype Stack = Stack(buf: seq<Option<Element>>, minSize: nat, cap: nat, top: nat, isFix: bool)

  /** What every stack built through this API satisfies: the array has `cap`
      slots, the slots below `top` hold elements, and a fixed-size stack never
      leaves its creation size. */
  predicate Valid(s: Stack)
  {
    && 1 <= s.minSize
    && 1 <= s.cap
    && |s.buf| == s.cap
    && s.top <= s.cap
    && (forall i :: 0 <= i < s.top ==> s.buf[i].Some?)
    && (s.isFix ==> s.cap == s.minSize)
  }

  /** The elements on the stack, bottom first. */
  function Contents(s: Stack): seq<Element>
    requires Valid(s)
  {
    seq(s.top, i requires 0 <= i < s.top => s.buf[i].value)
  }

  function Allocate(size: nat, isFix: bool): (r: Result<Stack>)
    ensures r.Err? <==> size == 0
    ensures r.Err? ==> r.fault == InvalidArgument
    ensures r.Ok? ==> Valid(r.value) && Contents(r.value) == []
    ensures r.Ok? ==> r.value.cap == r.value.minSize == size && r.value.isFix == isFix
  {
    if size == 0 then Err(InvalidArgument)
    else Ok(Stack(Nones(size), size, size, 0, isFix))
  }

  /** `cadtstack_new`: an empty variable-size stack; a zero size is refused. */
  function New(size: nat): (r: Result<Stack>)
    ensures r.Err? <==> size == 0
    ensures r.Err? ==> r.fault == InvalidArgument
    ensures r.Ok? ==> Valid(r.value) && Contents(r.value) == []
    ensures r.Ok? ==> r.value.cap == r.value.minSize == size && !r.value.isFix
  {
    Allocate(size, false)
  }

  /** `cadtstack_new_fix`: an empty fixed-size stack; a zero size is refused. */
  function NewFix(size: nat): (r: Result<Stack>)
    ensures r.Err? <==> size == 0
    ensures r.Err? ==> r.fault == InvalidArgument
    ensures r.Ok? ==> Valid(r.value) && Contents(r.value) == []
    ensures r.Ok? ==> r.value.cap == r.value.minSize == size && r.value.isFix
  {
    Allocate(size, true)
  }

  /** `cadtstack_nelems`. */
  function Nelems(s: Stack): (n: nat)
    requires Valid(s)
    ensures n == |Contents(s)|
  {
    s.top
  }

  /** `cadtstack_clear`: a stack that has grown beyond its minimum size is
      replaced by a fresh variable-size stack of that size; any other stack
      just forgets its elements. */
  function Clear(s: Stack): (r: Stack)
    requires Valid(s)
    ensures Valid(r) && Contents(r) == []
    ensures r.minSize == s.minSize && r.isFix == s.isFix
    ensures r.cap == if s.cap > s.minSize then s.minSize else s.cap
    ensures s.cap > s.minSize ==> r == New(s.minSize).value
  {
    if s.cap > s.minSize then New(s.minSize).value
    else s.(top := 0)
  }

  /** `cadtstack_push`: a full fixed-size stack overflows and is left as it
      was; a full variable-size stack first doubles its array. */
  function Push(s: Stack, e: Element): (r: Step<Stack, Element>)
    requires Valid(s)
    ensures Valid(r.state)
    ensures r.out.Err? <==> s.isFix && |Contents(s)| == s.cap
    ensures r.out.Err? ==> r.out.fault == Overflow && r.state == s
    ensures r.out.Ok? ==> r.out.value == e && Contents(r.state) == Contents(s) + [e]
    ensures r.out.Ok? ==> r.state.cap == if |Contents(s)| == s.cap then 2 * s.cap else s.cap
    ensures r.state.minSize == s.minSize && r.state.isFix == s.isFix
  {
    if s.isFix && s.top == s.cap then Step(s, Err(Overflow))
    else
      var g := if s.top == s.cap then s.(buf := s.buf + Nones(s.cap), cap := 2 * s.cap) else s;
      var r := g.(buf := g.buf[g.top := Some(e)], top := g.top + 1);
      assert Contents(r) == Contents(s) + [e];
      Step(r, Ok(e))
  }

  /** `cadtstack_pop`: an empty stack underflows and is left as it was;
      otherwise the top element is removed and returned, after the array is
      halved if a variable-size stack is less than a quarter used (measured
      before the removal). */
  function Pop(s: Stack): (r: Step<Stack, Element>)
    requires Valid(s)
    ensures Valid(r.state)
    ensures r.out.Err? <==> Contents(s) == []
    ensures r.out.Err? ==> r.out.fault == Underflow && r.state == s
    ensures r.out.Ok? ==> var n := |Contents(s)|;
                          r.out.value == Contents(s)[n - 1] && Contents(r.state) == Contents(s)[..n - 1]
    ensures r.out.Ok? ==> r.state.cap == if !s.isFix && 4 * |Contents(s)| < s.cap then s.cap / 2 else s.cap
    ensures r.state.minSize == s.minSize && r.state.isFix == s.isFix
  {
    if s.top == 0 then Step(s, Err(Underflow))
    else
      var h := if !s.isFix && 4 * s.top < s.cap then s.(buf := s.buf[..s.cap / 2], cap := s.cap / 2) else s;
      var r := h.(top := h.top - 1);
      assert Contents(r) == Contents(s)[..s.top - 1];
      Step(r, Ok(h.buf[h.top - 1].value))
  }

  // ----------------------------------------------------------------- lemmas

  /** Pop undoes a successful push: it hands back the pushed element and
      leaves the elements that were there before. */
  lemma PopUndoesPush(s: Stack, e: Element)
    requires Valid(s) && Push(s, e).out.Ok?
    ensures var p := Pop(Push(s, e).state);
            p.out == Ok(e) && Contents(p.state) == Contents(s)
  {
    var t := Push(s, e).state;
    assert Contents(t)[..|Contents(t)| - 1] == Contents(s);
  }

  /** A variable-size stack never overflows. */
  lemma GrowablePushSucceeds(s: Stack, e: Element)
    requires Valid(s) && !s.isFix
    ensures Push(s, e).out == Ok(e)
  {
  }

  /** Clearing twice is the same as clearing once. */
  lemma ClearIdempotent(s: Stack)
    requires Valid(s)
    ensures Clear(Clear(s)) == Clear(s)
  {
  }

  /** Pushing the elements of `es` one after another onto a variable-size
      stack. */
  function PushAll(s: Stack, es: seq<Element>): (r: Stack)
    requires Valid(s) && !s.isFix
    ensures Valid(r) && !r.isFix && r.minSize == s.minSize
    ensures Contents(r) == Contents(s) + es
    decreases |es|
  {
    if es == [] then s
    else
      var r := PushAll(Push(s, es[0]).state, es[1..]);
      assert Contents(s) + es == Contents(s) + [es[0]] + es[1..];
      r
  }

  /** Popping `k` elements. */
  function PopN(s: Stack, k: nat): (r: Stack)
    requires Valid(s) && k <= |Contents(s)|
    ensures Valid(r) && r.isFix == s.isFix && r.minSize == s.minSize
    ensures Contents(r) == Contents(s)[..|Contents(s)| - k]
    decreases k
  {
    if k == 0 then s
    else
      var p := PopN(s, k - 1);
      assert Contents(s)[..|Contents(s)| - (k - 1)][..|Contents(s)| - k] == Contents(s)[..|Contents(s)| - k];
      Pop(p).state
  }

  /** 1, 2, 4, 8, … */
  predicate IsPow2(c: nat)
  {
    c == 1 || (c >= 2 && c % 2 == 0 && IsPow2(c / 2))
  }

  lemma {:induction false} Pow2Gap(a: nat, b: nat)
    requires IsPow2(a) && IsPow2(b) && a < b
    ensures 2 * a <= b
  {
    if a != 1 {
      Pow2Gap(a / 2, b / 2);
    }
  }

  /** There is at most one power of two in `[n, 2n)`. */
  lemma Pow2Unique(a: nat, b: nat, n: nat)
    requires IsPow2(a) && IsPow2(b) && n <= a < 2 * n && n <= b < 2 * n
    ensures a == b
  {
    if a < b {
      Pow2Gap(a, b);
    } else if b < a {
      Pow2Gap(b, a);
    }
  }

  /** A variable-size stack created with size 1 and only pushed to keeps as
      its capacity the least power of two that holds its elements. */
  lemma {:induction false} PushAllCapacity(s: Stack, es: seq<Element>)
    requires Valid(s) && !s.isFix && IsPow2(s.cap) && (s.top >= 1 ==> s.cap < 2 * s.top)
    requires s.top == 0 ==> s.cap == 1
    ensures var r := PushAll(s, es);
            IsPow2(r.cap) && (r.top >= 1 ==> r.cap < 2 * r.top) && (r.top == 0 ==> r.cap == 1)
    decreases |es|
  {
    if es != [] {
      var t := Push(s, es[0]).state;
      assert |Contents(t)| == s.top + 1;
      if s.top == s.cap {
        assert t.cap / 2 == s.cap;
      }
      PushAllCapacity(t, es[1..]);
    }
  }

  /** Popping from a variable-size stack while it stays at least a quarter used
      keeps its capacity. */
  lemma {:induction false} PopNWithoutShrink(s: Stack, k: nat)
    requires Valid(s) && k <= |Contents(s)|
    requires k > 0 ==> 4 * (s.top - k + 1) >= s.cap
    ensures PopN(s, k).cap == s.cap
    decreases k
  {
    if k > 0 {
      PopNWithoutShrink(s, k - 1);
    }
  }

  /** The capacities of a stack created with `cadtstack_new(1)` over five
      pushes: 1, 2, 4, 4, 8. */
  lemma DoublingOnPush()
    ensures var s0 := New(1).value;
            var s1 := Push(s0, 1).state;
            var s2 := Push(s1, 2).state;
            var s3 := Push(s2, 3).state;
            var s4 := Push(s3, 4).state;
            var s5 := Push(s4, 5).state;
            s0.cap == 1 && s1.cap == 1 && s2.cap == 2 && s3.cap == 4 && s4.cap == 4 && s5.cap == 8
  {
    var s0 := New(1).value;
    var s1 := Push(s0, 1).state;
    assert |Contents(s1)| == 1;
    var s2 := Push(s1, 2).state;
    assert |Contents(s2)| == 2;
    var s3 := Push(s2, 3).state;
    assert |Contents(s3)| == 3;
    var s4 := Push(s3, 4).state;
    assert |Contents(s4)| == 4;
  }

  /** Fifty pushes onto `cadtstack_new(1)` leave 50 elements in 64 slots. */
  lemma FiftyPushes(es: seq<Element>)
    requires |es| == 50
    ensures var s := PushAll(New(1).value, es);
            Valid(s) && |Contents(s)| == 50 && s.cap == 64
  {
    var s := PushAll(New(1).value, es);
    PushAllCapacity(New(1).value, es);
    assert IsPow2(64) by {
      assert IsPow2(1);
      assert IsPow2(2);
      assert IsPow2(4);
      assert IsPow2(8);
      assert IsPow2(16);
      assert IsPow2(32);
    }
    Pow2Unique(s.cap, 64, 50);
  }

  /** Fifty pushes onto `cadtstack_new(1)` give capacity 64; popping 36 of them
      halves it to 32, on the last pop, when 15 elements are 15/64 of the
      array. */
  lemma HalvingOnPop(es: seq<Element>)
    requires |es| == 50
    ensures var s := PushAll(New(1).value, es);
            s.cap == 64 && PopN(s, 36).cap == 32
  {
    var s := PushAll(New(1).value, es);
    FiftyPushes(es);
    PopNWithoutShrink(s, 35);
    var t := PopN(s, 35);
    assert |Contents(t)| == 15;
    assert PopN(s, 36) == Pop(t).state;
  }

  /** `cadtstack_pop` does not stop a variable-size stack from halving below the
      size it was created with: `cadtstack_new(5)`, one push and one pop leave
      an array of 2 slots. */
  lemma ShrinksBelowMinimum()
    ensures var s := Pop(Push(New(5).value, 7).state).state;
            s.minSize == 5 && s.cap == 2
  {
  }
}
