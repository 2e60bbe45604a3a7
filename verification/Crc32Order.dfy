/**
 * The polynomial of the CRC is primitive: x has the order 2^32 - 1 modulo it. So two messages that
 * differ in exactly two bits have the same check if and only if the distance of the two bits is a
 * multiple of 2^32 - 1.
 */
module Crc32Order {
  import opened Crc32
  import opened Crc32Poly
  import opened Crc32Powers
  import opened Crc32Table
  import opened Divisors

  // ----- the order of x -----

  lemma {:induction false} PowerOfMultiple(a: nat, k: nat)
    requires Power(a) == 1
    ensures Power(a * k) == 1
  {
    if k == 0 {
      FirstDigits();
    } else {
      PowerOfMultiple(a, k - 1);
      assert a * k == a * (k - 1) + a;
      StepTimesAdd(1, a * (k - 1), a);
    }
  }

  lemma PowerOfRemainder(a: nat, b: nat)
    requires b > 0 && Power(b) == 1
    ensures Power(a) == Power(a % b)
  {
    PowerOfMultiple(b, a / b);
    assert a == b * (a / b) + a % b;
    StepTimesAdd(1, b * (a / b), a % b);
  }

  lemma {:induction false} PowerOfGcd(a: nat, b: nat)
    requires Power(a) == 1 && Power(b) == 1
    ensures Power(Gcd(a, b)) == 1
    decreases b
  {
    hide Power;
    if b == 0 {
    } else {
      PowerOfRemainder(a, b);
      PowerOfGcd(b, a % b);
    }
  }

  /** No proper divisor of 2^32 - 1 leads back to 1: it divides one of those in Powers. */
  lemma ProperDivisor(g: nat, q: nat)
    requires ORDER == g * q && q > 1
    ensures Power(g) != 1
  {
    hide Power;
    Powers();
    DividesBy(q, ORDER, g);
    SomePrime(q);
    if Power(g) == 1 {
      if IsFactor(3, q) {
        LeftOut(3, g, q);
      } else if IsFactor(5, q) {
        LeftOut(5, g, q);
      } else if IsFactor(17, q) {
        LeftOut(17, g, q);
      } else if IsFactor(257, q) {
        LeftOut(257, g, q);
      } else {
        LeftOut(65537, g, q);
      }
    }
  }

  lemma LeftOut(p: nat, g: nat, q: nat)
    requires p > 0 && ORDER == g * q && IsFactor(p, q) && Power(g) == 1
    ensures Power(ORDER / p) == 1
  {
    hide Power;
    var k: int :| q == p * k;
    ProductGrows(p, k);
    assert k >= 0;
    assert g * (p * k) == p * (g * k) by { MoveFactor(g, p, k); }
    assert ORDER / p == g * k by { QuotientOf(p, g * k); }
    PowerOfMultiple(g, k);
  }

  lemma QuotientOf(p: nat, m: nat)
    requires p > 0
    ensures p * m / p == m
  {
    var x, r := p * m / p, p * m % p;
    assert p * m == p * x + r;
    assert r == p * (m - x);
    ProductGrows(p, m - x);
    ProductGrows(p, x - m);
    assert p * (x - m) == -(p * (m - x));
  }

  /** x^d is 1 modulo the polynomial if and only if 2^32 - 1 divides d: the polynomial is primitive. */
  lemma Order(d: nat)
    ensures Power(d) == 1 <==> d % ORDER == 0
  {
    hide Power;
    Powers();
    PowerOfRemainder(d, ORDER);
    FirstDigits();
    var r := d % ORDER;
    if r > 0 && Power(r) == 1 {
      var g := Gcd(ORDER, r);
      PowerOfGcd(ORDER, r);
      GcdDivides(ORDER, r);
      var q: int :| ORDER == g * q;
      var k: int :| r == g * k;
      ProductGrows(g, q);
      ProductGrows(g, k);
      assert q > 1;
      ProperDivisor(g, q);
      assert false;
    }
  }

  // ----- messages that differ in two bits -----

  lemma {:induction false} CrcBitsPlus(a: Poly, b: Poly, c: bv32, d: bv32)
    requires |a| == |b|
    ensures CrcBits(Xor(a, b), Plus(c, d)) == Plus(CrcBits(a, c), CrcBits(b, d))
  {
    hide Plus, BitStep, Xor;
    if |a| == 0 {
    } else {
      var n := |a| - 1;
      assert Xor(a, b)[..n] == Xor(a[..n], b[..n]);
      CrcBitsPlus(a[..n], b[..n], c, d);
      BitStepPlus(CrcBits(a[..n], c), CrcBits(b[..n], d), a[n], b[n]);
    }
  }

  lemma BitStepPlus(c: bv32, d: bv32, s: bool, t: bool)
    ensures BitStep(Plus(c, d), s != t) == Plus(BitStep(c, s), BitStep(d, t))
  {
    hide Plus, Step, If;
    IfPlus(s, t, TOP);
    Interchange(c, d, If(s, TOP), If(t, TOP));
    StepPlus(Plus(c, If(s, TOP)), Plus(d, If(t, TOP)));
  }

  lemma {:induction false} IdleBits(n: nat, c: bv32)
    ensures CrcBits(Zeros(n), c) == StepTimes(c, n)
  {
    hide Plus, Step;
    if n == 0 {
    } else {
      assert Zeros(n)[..n - 1] == Zeros(n - 1);
      IdleBits(n - 1, c);
      PlusZero(StepTimes(c, n - 1));
    }
  }

  /** Two bits `d` apart, and nothing else. */
  function TwoBits(before: nat, d: nat, after: nat): (p: Poly)
    requires d >= 1
    ensures |p| == before + d + 1 + after
  {
    Zeros(before) + [true] + Zeros(d - 1) + [true] + Zeros(after)
  }

  lemma OneBit(b: bool, c: bv32)
    ensures CrcBits([b], c) == BitStep(c, b)
  {
    hide BitStep;
    assert [b][..0] == [];
  }

  lemma {:induction false} StepTimesNone(n: nat)
    ensures StepTimes(0, n) == 0
  {
    hide Step;
    if n == 0 {
    } else {
      StepTimesNone(n - 1);
      StepNone();
    }
  }

  lemma TopIsPower()
    ensures TOP == Power(31)
  {
    FirstDigits();
    var c := Power(0);
    hide Step;
    StepTimesAdd(1, 16, 15);
    SixteenTimes(1);
    UpFifteen(SixteenSteps(1));
    TopSteps();
  }

  lemma TopSteps()
    ensures Up15(SixteenSteps(1)) == TOP
  {
  }

  /** The word that the first of two bits leads to meets the second as it was, exactly if x^d is 1. */
  lemma TopReturns(d: nat)
    ensures StepTimes(TOP, d) == TOP <==> d % ORDER == 0
  {
    TopIsPower();
    StepTimesAdd(1, 31, d);
    StepTimesAdd(1, d, 31);
    assert 31 + d == d + 31;
    if StepTimes(TOP, d) == TOP {
      StepTimesInjective(Power(d), 1, 31);
    }
    hide StepTimes;
    Order(d);
  }

  lemma TwoBitsCheck(before: nat, d: nat, after: nat)
    requires d >= 1
    ensures CrcBits(TwoBits(before, d, after), 0) == 0 <==> d % ORDER == 0
  {
    hide CrcBits, Step, StepTimes, Plus, If;
    var a := Zeros(before) + [true];
    var b := a + Zeros(d - 1);
    CrcBitsConcat(Zeros(before), [true], 0);
    CrcBitsConcat(a, Zeros(d - 1), 0);
    CrcBitsConcat(b, [true], 0);
    CrcBitsConcat(b + [true], Zeros(after), 0);
    IdleBits(before, 0);
    StepTimesNone(before);
    OneBit(true, 0);
    PlusZero(TOP);
    FirstBit();
    IdleBits(d - 1, Step(TOP));
    FirstStep(TOP, d);
    var c := StepTimes(TOP, d);
    OneBit(true, c);
    LastBit(c);
    IdleBits(after, BitStep(c, true));
    StepTimesNone(after);
    if StepTimes(BitStep(c, true), after) == 0 {
      StepTimesInjective(BitStep(c, true), 0, after);
    }
    TopReturns(d);
  }

  lemma FirstBit()
    ensures BitStep(0, true) == Step(TOP)
  {
    hide Step;
  }

  lemma FirstStep(c: bv32, d: nat)
    requires d >= 1
    ensures StepTimes(Step(c), d - 1) == StepTimes(c, d)
  {
    hide Step;
    StepTimesAdd(c, 1, d - 1);
    assert StepTimes(c, 1) == Step(c);
  }

  lemma LastBit(c: bv32)
    ensures BitStep(c, true) == 0 <==> c == TOP
  {
    hide Step, Plus;
    SumIsNone(c, TOP);
    StepNone();
    if BitStep(c, true) == 0 {
      StepOfNone(Plus(c, TOP));
    }
  }

  /** Two bit sequences that differ at `i` and `j` only. */
  ghost predicate DifferAtTwo(a: Poly, b: Poly, i: nat, j: nat) {
    |a| == |b| && i < j < |a| && forall k :: 0 <= k < |a| ==> (a[k] != b[k] <==> k == i || k == j)
  }

  lemma DifferenceIs(a: Poly, b: Poly, i: nat, j: nat)
    requires DifferAtTwo(a, b, i, j)
    ensures Xor(a, b) == TwoBits(i, j - i, |a| - j - 1)
  {
  }

  /**
   * Messages of one length that differ in exactly two bits have the same check, for every start, if
   * and only if the distance of the bits is a multiple of 2^32 - 1. In particular, in messages shorter
   * than 512 MiB every error of two bits is detected.
   */
  lemma TwoBitsDetected(a: seq<bv8>, b: seq<bv8>, init: bv32, i: nat, j: nat)
    requires DifferAtTwo(Bits(a), Bits(b), i, j)
    ensures Crc(a, init) == Crc(b, init) <==> (j - i) % ORDER == 0
  {
    hide Crc, CrcBits, Bits, Plus, DifferAtTwo, TwoBits;
    CrcIsBitwise(a, init);
    CrcIsBitwise(b, init);
    BitLengths(Bits(a), Bits(b), i, j);
    DifferenceIs(Bits(a), Bits(b), i, j);
    PlusZero(init);
    CrcBitsPlus(Bits(a), Bits(b), init, init);
    TwoBitsCheck(i, j - i, |Bits(a)| - j - 1);
    SumIsNone(Crc(a, init), Crc(b, init));
  }

  lemma BitLengths(a: Poly, b: Poly, i: nat, j: nat)
    requires DifferAtTwo(a, b, i, j)
    ensures |a| == |b| && i < j < |a|
  {
  }
}
