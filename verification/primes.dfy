/** Bucket-count selection for the hash table: the 6k±1 trial-division
    primality test `is_prime` and the upward search `get_next_prime`. */
module Primes {
  import opened Arith

  /** `d` is a positive divisor of `n`. */
  predicate Divides(d: nat, n: nat)
  {
    d > 0 && n % d == 0
  }

  ghost predicate Prime(n: nat)
  {
    n >= 2 && forall d :: 2 <= d < n ==> !Divides(d, n)
  }

  /** No number in `[2, i)` divides `n`. */
  ghost predicate NoDivisorBelow(n: nat, i: nat)
  {
    forall d :: 2 <= d < i ==> !Divides(d, n)
  }

  // ----------------------------------------------------------- divisibility

  lemma MultipleIsDivisible(d: nat, k: nat)
    requires d > 0
    ensures Divides(d, d * k)
  {
    DivModUnique(d * k, d, k, 0);
  }

  lemma DivisorOfDivisor(d: nat, m: nat, n: nat)
    requires Divides(d, m) && Divides(m, n)
    ensures Divides(d, n)
  {
    var a := m / d;
    var b := n / m;
    assert m == d * a;
    assert n == m * b;
    assert n == d * (a * b);
    MultipleIsDivisible(d, a * b);
  }

  /** A number at least 2 never divides two consecutive numbers. */
  lemma NotDividesSuccessor(p: nat, m: nat)
    requires p >= 2 && Divides(p, m)
    ensures !Divides(p, m + 1)
  {
    var a := m / p;
    assert m == p * a;
    DivModUnique(m + 1, p, a, 1);
  }

  /** A divisor pair `d * k == n` with `d >= i` and `i * i > n` puts the
      cofactor `k` below `i`. */
  lemma CofactorBelow(n: nat, d: nat, i: nat)
    requires 2 <= d < n && Divides(d, n) && d >= i && i * i > n
    ensures 2 <= n / d < i && Divides(n / d, n)
  {
    var k := n / d;
    assert n == d * k;
    assert k != 0 && k != 1;
    if k >= i {
      MulMonotone(i, d, k);
      MulMonotone(i, k, i);
    }
    assert n == k * d;
    MultipleIsDivisible(k, d);
  }

  /** Trial division may stop at the square root. */
  lemma {:induction false} PrimeBySquareRoot(n: nat, i: nat)
    requires n >= 2 && NoDivisorBelow(n, i) && i * i > n
    ensures Prime(n)
  {
    forall d | 2 <= d < n
      ensures !Divides(d, n)
    {
      if Divides(d, n) && d >= i {
        CofactorBelow(n, d, i);
      }
    }
  }

  /** Divisibility by an even or a multiple-of-3 number implies divisibility
      by 2 or 3: why the 6k±1 candidates are the only ones worth testing. */
  lemma SkippedCandidate(n: nat, d: nat)
    requires 2 <= d && (d % 2 == 0 || d % 3 == 0) && Divides(d, n)
    ensures Divides(2, n) || Divides(3, n)
  {
    if d % 2 == 0 {
      assert Divides(2, d);
      DivisorOfDivisor(2, d, n);
    } else {
      assert Divides(3, d);
      DivisorOfDivisor(3, d, n);
    }
  }

  // -------------------------------------------------------------- is_prime

  /** One round of the loop rules out `i .. i + 5`: `i` and `i + 2` are
      tested, and the other four are multiples of 2 or 3. */
  lemma NextCandidates(n: nat, i: nat)
    requires !Divides(2, n) && !Divides(3, n)
    requires i >= 5 && i % 6 == 5 && NoDivisorBelow(n, i)
    requires !Divides(i, n) && !Divides(i + 2, n)
    ensures (i + 6) % 6 == 5 && NoDivisorBelow(n, i + 6)
  {
    var m := i / 6;
    assert i == 6 * m + 5;
    DivModUnique(i + 6, 6, m + 1, 5);
    DivModUnique(i + 1, 2, 3 * m + 3, 0);
    DivModUnique(i + 3, 2, 3 * m + 4, 0);
    DivModUnique(i + 4, 3, 2 * m + 3, 0);
    DivModUnique(i + 5, 2, 3 * m + 5, 0);
    forall d | 2 <= d < i + 6
      ensures !Divides(d, n)
    {
      if i < d && d != i + 2 && Divides(d, n) {
        SkippedCandidate(n, d);
      }
    }
  }

  /** The loop of `is_prime`: candidates `i` and `i + 2` for `i = 5, 11, 17, …`
      while `i * i <= n`; true when no candidate divides `n`. A false answer
      has found a proper divisor. */
  function TrialDivision(n: nat, i: nat): (b: bool)
    requires i >= 5
    ensures !b ==> !Prime(n)
    decreases n + 6 - i
  {
    if i * i > n then
      true
    else if n % i == 0 || n % (i + 2) == 0 then
      MulMonotone(5, i, i);
      assert Divides(i, n) || Divides(i + 2, n);
      false
    else
      MulMonotone(1, i, i);
      TrialDivision(n, i + 6)
  }

  /** Trial division from `i` decides primality once every number below `i`
      has been ruled out. */
  lemma {:induction false} TrialDivisionCorrect(n: nat, i: nat)
    requires n >= 5 && !Divides(2, n) && !Divides(3, n)
    requires i >= 5 && i % 6 == 5 && NoDivisorBelow(n, i)
    ensures TrialDivision(n, i) <==> Prime(n)
    decreases n + 6 - i
  {
    if i * i > n {
      PrimeBySquareRoot(n, i);
    } else if n % i == 0 || n % (i + 2) == 0 {
      MulMonotone(5, i, i);
      assert Divides(i, n) || Divides(i + 2, n);
    } else {
      MulMonotone(1, i, i);
      NextCandidates(n, i);
      TrialDivisionCorrect(n, i + 6);
    }
  }

  /** `is_prime`: 2 and 3 directly, then the even numbers and the multiples of
      3, then 6k±1 trial division. */
  function IsPrime(n: nat): (b: bool)
    ensures b <==> Prime(n)
  {
    if n == 2 || n == 3 then
      true
    else if n <= 1 || n % 2 == 0 || n % 3 == 0 then
      assert n >= 4 ==> Divides(2, n) || Divides(3, n);
      false
    else
      assert NoDivisorBelow(n, 5) by {
        forall d | 2 <= d < 5
          ensures !Divides(d, n)
        {
          if d == 4 && Divides(d, n) {
            SkippedCandidate(n, d);
          }
        }
      }
      TrialDivisionCorrect(n, 5);
      TrialDivision(n, 5)
  }

  // ------------------------------------------------- a prime above every n

  function Fact(n: nat): (r: nat)
    ensures r >= 1
  {
    if n == 0 then 1 else n * Fact(n - 1)
  }

  lemma {:induction false} FactDivisible(n: nat, p: nat)
    requires 1 <= p <= n
    ensures Divides(p, Fact(n))
  {
    MultipleIsDivisible(n, Fact(n - 1));
    if p < n {
      FactDivisible(n - 1, p);
      assert Fact(n) == Fact(n - 1) * n;
      MultipleIsDivisible(Fact(n - 1), n);
      DivisorOfDivisor(p, Fact(n - 1), Fact(n));
    }
  }

  lemma {:induction false} HasPrimeFactor(m: nat)
    requires m >= 2
    ensures exists p :: Prime(p) && Divides(p, m)
    decreases m
  {
    if !Prime(m) {
      var d: nat :| 2 <= d < m && Divides(d, m);
      HasPrimeFactor(d);
      var p: nat :| Prime(p) && Divides(p, d);
      DivisorOfDivisor(p, d, m);
    } else {
      assert Divides(m, m);
    }
  }

  /** Every prime factor of `n! + 1` exceeds `n`, so primes are unbounded and
      the search of `get_next_prime` ends. */
  lemma PrimeAtLeast(n: nat)
    ensures exists p :: p >= n && Prime(p)
  {
    HasPrimeFactor(Fact(n) + 1);
    var p: nat :| Prime(p) && Divides(p, Fact(n) + 1);
    if p <= n {
      FactDivisible(n, p);
      NotDividesSuccessor(p, Fact(n));
    }
  }

  /** Some prime at least `n`; it only bounds the search below. */
  ghost function PrimeBound(n: nat): (p: nat)
    ensures p >= n && Prime(p)
  {
    PrimeAtLeast(n);
    var p: nat :| p >= n && Prime(p);
    p
  }

  // --------------------------------------------------------- get_next_prime

  /** The loop of `get_next_prime`: step `n` up until `is_prime` holds. */
  function NextPrimeFrom(n: nat, ghost bound: nat): (p: nat)
    requires n <= bound && Prime(bound)
    ensures n <= p <= bound && Prime(p)
    ensures forall q :: n <= q < p ==> !Prime(q)
    decreases bound - n
  {
    if IsPrime(n) then n else NextPrimeFrom(n + 1, bound)
  }

  /** `get_next_prime`: the smallest prime at least `n`. */
  function NextPrime(n: nat): (p: nat)
    ensures p >= n && Prime(p)
    ensures forall q :: n <= q < p ==> !Prime(q)
  {
    NextPrimeFrom(n, PrimeBound(n))
  }

  /** 10007 is prime: the trial-division rounds, evaluated from the last
      candidate back to the first. */
  lemma Prime10007()
    ensures Prime(10007)
  {
    assert TrialDivision(10007, 101);
    assert TrialDivision(10007, 95);
    assert TrialDivision(10007, 89);
    assert TrialDivision(10007, 83);
    assert TrialDivision(10007, 77);
    assert TrialDivision(10007, 71);
    assert TrialDivision(10007, 65);
    assert TrialDivision(10007, 59);
    assert TrialDivision(10007, 53);
    assert TrialDivision(10007, 47);
    assert TrialDivision(10007, 41);
    assert TrialDivision(10007, 35);
    assert TrialDivision(10007, 29);
    assert TrialDivision(10007, 23);
    assert TrialDivision(10007, 17);
    assert TrialDivision(10007, 11);
    assert TrialDivision(10007, 5);
    assert IsPrime(10007);
  }

  /** 10001 == 73 * 137 is found composite in the round with `i == 71`. */
  lemma Composite10001()
    ensures !Prime(10001)
  {
    assert !TrialDivision(10001, 71);
    assert !TrialDivision(10001, 65);
    assert !TrialDivision(10001, 59);
    assert !TrialDivision(10001, 53);
    assert !TrialDivision(10001, 47);
    assert !TrialDivision(10001, 41);
    assert !TrialDivision(10001, 35);
    assert !TrialDivision(10001, 29);
    assert !TrialDivision(10001, 23);
    assert !TrialDivision(10001, 17);
    assert !TrialDivision(10001, 11);
    assert !TrialDivision(10001, 5);
    assert !IsPrime(10001);
  }

  /** The values `test_hashtable_adt_priv.c` expects of `get_next_prime`. */
  lemma NextPrimeExamples()
    ensures NextPrime(1) == 2
    ensures NextPrime(2) == 2
    ensures NextPrime(31) == 31
    ensures NextPrime(10000) == 10007
  {
    assert IsPrime(2);
    assert TrialDivision(31, 11);
    assert IsPrime(31);
    Prime10007();
    Composite10001();
    assert !IsPrime(10000) && !IsPrime(10002) && !IsPrime(10003);
    assert !IsPrime(10004) && !IsPrime(10005) && !IsPrime(10006);
    var p := NextPrime(10000);
    assert p <= 10007;
  }
}
