/** is_prime and next_prime (tools/install/lib/hash.c), over unbounded integers. */
module Primes {

  predicate Divides(d: int, n: int)
    requires d > 0
  {
    n % d == 0
  }

  predicate IsPrime(n: int) {
    n >= 2 && forall d :: 2 <= d < n ==> !Divides(d, n)
  }

  lemma FactorOf(q: int, n: int) returns (r: int)
    requires q > 0 && Divides(q, n)
    ensures n == q * r && r == n / q
  {
    r := n / q;
  }

  lemma MultipleDivides(q: int, r: int)
    requires q > 0
    ensures Divides(q, q * r)
  {
    ModOfMultiple(q, r, 0);
  }

  lemma ModOfMultiple(q: int, r: int, low: int)
    requires 0 <= low < q
    ensures (q * r + low) % q == low
  {
    var x := q * r + low;
    var t := x / q - r;
    assert q * t == low - x % q;
    assert t >= 1 ==> q * t >= q;
    assert t <= -1 ==> q * t <= -q;
  }

  lemma ProductsOrdered(a: int, b: int, c: int, d: int)
    requires 0 <= a <= c && 0 <= b <= d
    ensures a * b <= c * d
  {
    assert (c - a) * b >= 0 && c * (d - b) >= 0;
  }

  /** Trial division by odd numbers up to the square root; `square` keeps pace without
      a multiplication of two variables. */
  method CheckPrime(candidate: int) returns (prime: bool)
    requires candidate >= 11 && candidate % 2 == 1
    ensures prime <==> IsPrime(candidate)
  {
    var divisor, square := 3, 9;
    while square < candidate && candidate % divisor != 0
      invariant divisor >= 3 && divisor % 2 == 1 && square == divisor * divisor
      invariant divisor == 3 || (divisor > 3 && (divisor - 2) * (divisor - 2) < candidate)
      invariant forall d :: 2 <= d < divisor ==> !Divides(d, candidate)
      decreases candidate - square
    {
      NoEvenDivisor(candidate, divisor + 1);
      NextSquare(divisor);
      ghost var before := divisor;
      divisor := divisor + 1;
      square := square + 4 * divisor;
      divisor := divisor + 1;
      assert divisor - 2 == before;
    }
    prime := candidate % divisor != 0;
    if prime {
      LeastDivisors(candidate, divisor);
    } else {
      RootBelow(divisor, candidate);
      assert Divides(divisor, candidate);
    }
  }

  lemma NextSquare(d: int)
    ensures (d + 2) * (d + 2) == d * d + 4 * (d + 1)
  {
  }

  lemma RootBelow(d: int, n: int)
    requires n >= 11 && (d == 3 || (d > 3 && (d - 2) * (d - 2) < n))
    ensures d < n
  {
    if d > 3 {
      NextSquare(d - 4);
      assert (d - 2) * (d - 2) == d * (d - 4) + 4;
      assert d >= 5 ==> d * (d - 4) >= d;
    }
  }

  lemma NoEvenDivisor(n: int, d: int)
    requires n % 2 == 1 && d > 0 && d % 2 == 0
    ensures !Divides(d, n)
  {
    if Divides(d, n) {
      var r := FactorOf(d, n);
      EvenProduct(d, r);
      assert false;
    }
  }

  lemma EvenProduct(d: int, r: int)
    requires d % 2 == 0
    ensures (d * r) % 2 == 0
  {
    var h := d / 2;
    assert d * r == 2 * (h * r);
  }

  /** Nothing below `bound` divides, and bound * bound is large enough. */
  lemma LeastDivisors(n: int, bound: int)
    requires n >= 2 && bound >= 2 && bound * bound >= n && !Divides(bound, n)
    requires forall d :: 2 <= d < bound ==> !Divides(d, n)
    ensures IsPrime(n)
  {
    forall d | 2 <= d < n
      ensures !Divides(d, n)
    {
      if Divides(d, n) {
        var r := FactorOf(d, n);
        Cofactor(d, r, n);
        MultipleDivides(r, d);
        assert d * r == r * d;
        Smaller(d, r, bound);
        assert false;
      }
    }
  }

  lemma Cofactor(d: int, r: int, n: int)
    requires 2 <= d < n && n == d * r
    ensures 2 <= r < n
  {
    assert r <= 0 ==> d * r <= 0;
    assert r >= 1 ==> d * r >= 2 * r;
    assert r == 1 ==> d * r == d;
  }

  lemma Smaller(d: int, r: int, bound: int)
    requires 0 < d && 0 < r && bound > 0 && d * r <= bound * bound
    ensures d <= bound || r <= bound
  {
    if d > bound && r > bound {
      ProductsOrdered(bound + 1, bound + 1, d, r);
      assert false;
    }
  }

  // There is always a prime ahead

  function Factorial(n: nat): int {
    if n == 0 then 1 else n * Factorial(n - 1)
  }

  lemma {:induction false} FactorialPositive(n: nat)
    ensures Factorial(n) >= 1
  {
    if n > 0 {
      FactorialPositive(n - 1);
      assert n * Factorial(n - 1) >= 1 * Factorial(n - 1);
    }
  }

  lemma {:induction false} FactorialMultiple(n: nat, d: nat) returns (k: int)
    requires 1 <= d <= n
    ensures Factorial(n) == d * k
  {
    if d == n {
      k := Factorial(n - 1);
    } else {
      var k' := FactorialMultiple(n - 1, d);
      k := n * k';
      assert n * (d * k') == d * (n * k');
    }
  }

  /** Every number from 2 on has a prime divisor. */
  lemma {:induction false} PrimeDivisor(n: int) returns (p: int)
    requires n >= 2
    ensures IsPrime(p) && p <= n && Divides(p, n)
    decreases n
  {
    if IsPrime(n) {
      p := n;
      assert Divides(n, n);
    } else {
      var d :| 2 <= d < n && Divides(d, n);
      p := PrimeDivisor(d);
      var r := FactorOf(d, n);
      var s := FactorOf(p, d);
      assert n == p * (s * r);
      MultipleDivides(p, s * r);
    }
  }

  lemma PrimeAbove(n: nat) returns (p: int)
    ensures IsPrime(p) && p > n
  {
    FactorialPositive(n);
    p := PrimeDivisor(Factorial(n) + 1);
    if p <= n {
      var k := FactorialMultiple(n, p);
      ModOfMultiple(p, k, 1);
      assert false;
    }
  }

  /** next_prime: the least prime that is at least the candidate. */
  method NextPrime(from: int) returns (candidate: int)
    requires from >= 10
    ensures candidate >= from && IsPrime(candidate)
    ensures forall q :: from <= q < candidate ==> !IsPrime(q)
  {
    candidate := if from % 2 == 0 then from + 1 else from;
    if from % 2 == 0 {
      EvenIsComposite(from);
    }
    ghost var ahead := PrimeAbove(candidate);
    var prime := CheckPrime(candidate);
    while !prime
      invariant candidate >= from && candidate >= 11 && candidate % 2 == 1
      invariant prime <==> IsPrime(candidate)
      invariant candidate <= ahead && IsPrime(ahead)
      invariant forall q :: from <= q < candidate ==> !IsPrime(q)
      decreases ahead - candidate
    {
      EvenIsComposite(candidate + 1);
      candidate := candidate + 2;
      prime := CheckPrime(candidate);
    }
  }

  lemma EvenIsComposite(n: int)
    requires n > 2 && n % 2 == 0
    ensures !IsPrime(n)
  {
    assert Divides(2, n);
  }
}
