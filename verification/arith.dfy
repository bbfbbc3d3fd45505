/** Facts about multiplication, division and remainder that the solver does
    not find by itself, proved once for the modules that need them. */
module Arith {

  lemma {:induction false} MulAtLeast(d: int, x: int)
    requires d > 0 && x >= 1
    ensures d * x >= d
    decreases x
  {
    if x > 1 {
      MulAtLeast(d, x - 1);
      assert d * x == d * (x - 1) + d;
    }
  }

  lemma {:induction false} MulMonotone(a: int, b: int, c: int)
    requires 0 <= a <= b && c >= 0
    ensures a * c <= b * c
    decreases c
  {
    if c > 0 {
      MulMonotone(a, b, c - 1);
      assert a * c == a * (c - 1) + a && b * c == b * (c - 1) + b;
    }
  }

  /** Euclidean division has a unique quotient and remainder. */
  lemma DivModUnique(a: int, d: int, q: int, r: int)
    requires d > 0 && a == d * q + r && 0 <= r < d
    ensures a / d == q && a % d == r
  {
    var q0 := a / d;
    var r0 := a % d;
    assert a == d * q0 + r0;
    var x := q - q0;
    assert d * x == r0 - r;
    if x >= 1 {
      MulAtLeast(d, x);
    } else if x <= -1 {
      assert d * (-x) == -(d * x);
      MulAtLeast(d, -x);
    }
  }
}
