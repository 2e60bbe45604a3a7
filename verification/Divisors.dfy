/** Common divisors, primes, and the prime factors of 2^32 - 1. */
module Divisors {
  ghost predicate IsFactor(d: int, n: int) {
    exists k: int :: n == d * k
  }

  lemma DividesBy(d: int, n: int, k: int)
    requires n == d * k
    ensures IsFactor(d, n)
  {
  }

  lemma SumOfMultiples(d: int, a: int, b: int, s: int, t: int)
    requires IsFactor(d, a) && IsFactor(d, b)
    ensures IsFactor(d, s * a + t * b)
  {
    var k: int :| a == d * k;
    var l: int :| b == d * l;
    MoveFactor(s, d, k);
    MoveFactor(t, d, l);
    Factor(d, s * k, t * l);
    DividesBy(d, s * a + t * b, s * k + t * l);
  }

  lemma MoveFactor(s: int, d: int, k: int)
    ensures s * (d * k) == d * (s * k)
  {
  }

  lemma Factor(d: int, a: int, b: int)
    ensures d * a + d * b == d * (a + b)
  {
  }

  /** The greatest common divisor, and that it is a combination of the two. */
  function Gcd(a: nat, b: nat): nat
    decreases b
  {
    if b == 0 then a else Gcd(b, a % b)
  }

  lemma {:induction false} GcdDivides(a: nat, b: nat)
    ensures IsFactor(Gcd(a, b), a) && IsFactor(Gcd(a, b), b)
    decreases b
  {
    if b == 0 {
      DividesBy(a, a, 1);
      DividesBy(a, 0, 0);
    } else {
      GcdDivides(b, a % b);
      SumOfMultiples(Gcd(b, a % b), b, a % b, a / b, 1);
      assert a == a / b * b + 1 * (a % b);
    }
  }

  lemma {:induction false} Bezout(a: nat, b: nat) returns (s: int, t: int)
    ensures s * a + t * b == Gcd(a, b)
    decreases b
  {
    if b == 0 {
      s, t := 1, 0;
    } else {
      var u, v := Bezout(b, a % b);
      s, t := v, u - v * (a / b);
      BezoutStep(a, b, u, v);
    }
  }

  lemma BezoutStep(a: nat, b: nat, u: int, v: int)
    requires b > 0
    ensures v * a + (u - v * (a / b)) * b == u * b + v * (a % b)
  {
    var q := a / b;
    assert a == q * b + a % b;
    calc {
      v * a + (u - v * q) * b;
      v * (q * b + a % b) + (u - v * q) * b;
      v * (q * b) + v * (a % b) + u * b - v * q * b;
    }
  }

  ghost predicate Prime(p: nat) {
    p >= 2 && forall d: nat :: 2 <= d < p ==> !IsFactor(d, p)
  }

  lemma DivisorOfPrime(p: nat, g: nat)
    requires Prime(p) && IsFactor(g, p)
    ensures g == 1 || g == p
  {
    var k: int :| p == g * k;
    ProductGrows(g, k);
  }

  lemma ProductGrows(g: nat, k: int)
    ensures k <= 0 ==> g * k <= 0
    ensures k >= 1 ==> g * k >= g
  {
    if k >= 1 {
      Monotone(1, k, g);
    } else {
      Monotone(k, 0, g);
    }
  }

  lemma Monotone(a: int, b: int, c: nat)
    requires a <= b
    ensures a * c <= b * c && c * a <= c * b
  {
  }

  /** A divisor of p * m that p does not divide itself divides m. */
  lemma DropPrime(p: nat, m: nat, q: nat)
    requires Prime(p) && IsFactor(q, p * m) && !IsFactor(p, q)
    ensures IsFactor(q, m)
  {
    var g := Gcd(p, q);
    GcdDivides(p, q);
    DivisorOfPrime(p, g);
    var s, t := Bezout(p, q);
    DividesBy(q, q, 1);
    SumOfMultiples(q, p * m, q, s, t * m);
    Regroup(s, t, p, q, m);
  }

  lemma Regroup(s: int, t: int, p: int, q: int, m: int)
    requires s * p + t * q == 1
    ensures s * (p * m) + t * m * q == m
  {
    assert s * (p * m) == s * p * m && t * m * q == t * q * m;
    assert s * p * m + t * q * m == (s * p + t * q) * m;
  }

  /** No number from `a` to `b` divides `p`. */
  predicate NoDivisor(p: nat, a: nat, b: nat)
    requires a >= 1
    decreases b - a
  {
    a > b || (p % a != 0 && NoDivisor(p, a + 1, b))
  }

  lemma {:induction false} NoDivisorMeans(p: nat, a: nat, b: nat, d: nat)
    requires a >= 1 && NoDivisor(p, a, b) && a <= d <= b
    ensures p % d != 0
    decreases b - a
  {
    if a == d {
    } else {
      NoDivisorMeans(p, a + 1, b, d);
    }
  }

  lemma RemainderOfMultiple(d: nat, k: int)
    requires d > 0
    ensures d * k % d == 0
  {
    var r, q := d * k % d, d * k / d;
    assert d * k == q * d + r;
    assert r == d * (k - q);
    ProductGrows(d, k - q);
    ProductGrows(d, q - k);
    assert d * (q - k) == -(d * (k - q));
  }

  /** It suffices to look for divisors up to the square root. */
  lemma PrimeIfNone(p: nat, r: nat)
    requires p >= 2 && r >= 2 && NoDivisor(p, 2, r) && (r + 1) * (r + 1) > p
    ensures Prime(p)
  {
    forall d: nat | 2 <= d < p
      ensures !IsFactor(d, p)
    {
      if IsFactor(d, p) {
        var k: int :| p == d * k;
        Cofactor(p, d, k);
        RemainderOfMultiple(d, k);
        RemainderOfMultiple(k, d);
        if d <= r {
          NoDivisorMeans(p, 2, r, d);
        } else {
          BelowRoot(p, r, d, k);
          NoDivisorMeans(p, 2, r, k);
        }
      }
    }
  }

  lemma Cofactor(p: nat, d: nat, k: int)
    requires p == d * k && 2 <= d < p
    ensures 2 <= k && p == k * d
  {
    ProductGrows(d, k);
  }

  lemma BelowRoot(p: nat, r: nat, d: nat, k: int)
    requires p == d * k && (r + 1) * (r + 1) > p && d > r && k >= 2
    ensures k <= r
  {
    Monotone(r + 1, d, k);
    if k > r {
      Monotone(r + 1, k, r + 1);
      assert false;
    }
  }

  lemma {:induction false} JoinRanges(p: nat, a: nat, b: nat, c: nat)
    requires 1 <= a <= b <= c && NoDivisor(p, a, b) && NoDivisor(p, b + 1, c)
    ensures NoDivisor(p, a, c)
    decreases b - a
  {
    if a == b {
    } else {
      JoinRanges(p, a + 1, b, c);
    }
  }

  lemma Range0()
    ensures NoDivisor(65537, 2, 32)
  {
    assert NoDivisor(65537, 25, 32) && NoDivisor(65537, 17, 32);
    assert NoDivisor(65537, 9, 32);
  }

  lemma Range1()
    ensures NoDivisor(65537, 33, 64)
  {
    assert NoDivisor(65537, 57, 64) && NoDivisor(65537, 49, 64);
    assert NoDivisor(65537, 41, 64);
  }

  lemma Range2()
    ensures NoDivisor(65537, 65, 96)
  {
    assert NoDivisor(65537, 89, 96) && NoDivisor(65537, 81, 96);
    assert NoDivisor(65537, 73, 96);
  }

  lemma Range3()
    ensures NoDivisor(65537, 97, 128)
  {
    assert NoDivisor(65537, 121, 128) && NoDivisor(65537, 113, 128);
    assert NoDivisor(65537, 105, 128);
  }

  lemma Range4()
    ensures NoDivisor(65537, 129, 160)
  {
    assert NoDivisor(65537, 153, 160) && NoDivisor(65537, 145, 160);
    assert NoDivisor(65537, 137, 160);
  }

  lemma Range5()
    ensures NoDivisor(65537, 161, 192)
  {
    assert NoDivisor(65537, 185, 192) && NoDivisor(65537, 177, 192);
    assert NoDivisor(65537, 169, 192);
  }

  lemma Range6()
    ensures NoDivisor(65537, 193, 224)
  {
    assert NoDivisor(65537, 217, 224) && NoDivisor(65537, 209, 224);
    assert NoDivisor(65537, 201, 224);
  }

  lemma Range7()
    ensures NoDivisor(65537, 225, 256)
  {
    assert NoDivisor(65537, 249, 256) && NoDivisor(65537, 241, 256);
    assert NoDivisor(65537, 233, 256);
  }

  lemma Below256()
    ensures NoDivisor(65537, 2, 256)
  {
    hide NoDivisor;
    Range0();
    Range1();
    JoinRanges(65537, 2, 32, 64);
    Range2();
    JoinRanges(65537, 2, 64, 96);
    Range3();
    JoinRanges(65537, 2, 96, 128);
    Range4();
    JoinRanges(65537, 2, 128, 160);
    Range5();
    JoinRanges(65537, 2, 160, 192);
    Range6();
    JoinRanges(65537, 2, 192, 224);
    Range7();
    JoinRanges(65537, 2, 224, 256);
  }

  lemma FermatPrimes()
    ensures Prime(3) && Prime(5) && Prime(17) && Prime(257) && Prime(65537)
  {
    PrimeIfNone(3, 2);
    PrimeIfNone(5, 2);
    PrimeIfNone(17, 4);
    PrimeIfNone(257, 16);
    Below256();
    PrimeIfNone(65537, 256);
  }

  /** A proper factor leaves out one of the five primes. */
  lemma SomePrime(q: nat)
    requires q > 1 && IsFactor(q, 0xFFFFFFFF)
    ensures IsFactor(3, q) || IsFactor(5, q) || IsFactor(17, q) || IsFactor(257, q) || IsFactor(65537, q)
  {
    FermatPrimes();
    if !IsFactor(3, q) && !IsFactor(5, q) && !IsFactor(17, q) && !IsFactor(257, q) && !IsFactor(65537, q) {
      DropPrime(3, 0x55555555, q);
      DropPrime(5, 0x11111111, q);
      DropPrime(17, 0x01010101, q);
      DropPrime(257, 0x00010001, q);
      DropPrime(65537, 1, q);
      DivisorOfOne(q);
    }
  }

  lemma DivisorOfOne(q: nat)
    requires IsFactor(q, 1)
    ensures q == 1
  {
    var k: int :| 1 == q * k;
    ProductGrows(q, k);
  }
}
