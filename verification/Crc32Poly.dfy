/** Division of polynomials over GF(2), a polynomial being its coefficients, highest first. */
module Crc32Poly {
  import opened Crc32
  import opened Crc32Table

  type Poly = seq<bool>

  function Zeros(n: nat): (p: Poly)
    ensures |p| == n && forall i :: 0 <= i < n ==> !p[i]
  {
    seq(n, _ => false)
  }

  /** The sum of two polynomials written with the same number of coefficients. */
  function Xor(a: Poly, b: Poly): (p: Poly)
    requires |a| == |b|
    ensures |p| == |a| && forall i :: 0 <= i < |a| ==> p[i] == (a[i] != b[i])
  {
    seq(|a|, i requires 0 <= i < |a| => a[i] != b[i])
  }

  function Scale(t: bool, p: Poly): (q: Poly)
    ensures |q| == |p| && forall i :: 0 <= i < |p| ==> q[i] == (t && p[i])
  {
    if t then p else Zeros(|p|)
  }

  /** The product: for each further coefficient of `q`, shift and add. */
  function Times(q: Poly, p: Poly): (m: Poly)
    requires |p| > 0
    ensures |m| == |q| + |p| - 1
  {
    if |q| == 0 then Zeros(|p| - 1) else
      var n := |q| - 1;
      Xor(Times(q[..n], p) + [false], Zeros(n) + Scale(q[n], p))
  }

  // ----- words as polynomials of degree below 32 -----

  function Bit(x: bv32, mask: bv32): bool {
    x & mask != 0
  }

  /** The place of coefficient `i`, counted from the highest. */
  function Mask(i: nat): bv32
    requires i < 32
  {
    match i
    case 0 => 0x80000000
    case 1 => 0x40000000
    case 2 => 0x20000000
    case 3 => 0x10000000
    case 4 => 0x08000000
    case 5 => 0x04000000
    case 6 => 0x02000000
    case 7 => 0x01000000
    case 8 => 0x00800000
    case 9 => 0x00400000
    case 10 => 0x00200000
    case 11 => 0x00100000
    case 12 => 0x00080000
    case 13 => 0x00040000
    case 14 => 0x00020000
    case 15 => 0x00010000
    case 16 => 0x00008000
    case 17 => 0x00004000
    case 18 => 0x00002000
    case 19 => 0x00001000
    case 20 => 0x00000800
    case 21 => 0x00000400
    case 22 => 0x00000200
    case 23 => 0x00000100
    case 24 => 0x00000080
    case 25 => 0x00000040
    case 26 => 0x00000020
    case 27 => 0x00000010
    case 28 => 0x00000008
    case 29 => 0x00000004
    case 30 => 0x00000002
    case _ => 0x00000001
  }

  /** The 32 coefficients of a word. */
  function Bits32(x: bv32): (p: Poly)
    ensures |p| == 32
  {
    seq(32, i requires 0 <= i < 32 => Bit(x, Mask(i)))
  }

  lemma WordOfBits(x: bv32, y: bv32)
    requires Bit(x, 0x80000000) == Bit(y, 0x80000000) && Bit(x, 0x40000000) == Bit(y, 0x40000000)
    requires Bit(x, 0x20000000) == Bit(y, 0x20000000) && Bit(x, 0x10000000) == Bit(y, 0x10000000)
    requires Bit(x, 0x08000000) == Bit(y, 0x08000000) && Bit(x, 0x04000000) == Bit(y, 0x04000000)
    requires Bit(x, 0x02000000) == Bit(y, 0x02000000) && Bit(x, 0x01000000) == Bit(y, 0x01000000)
    requires Bit(x, 0x00800000) == Bit(y, 0x00800000) && Bit(x, 0x00400000) == Bit(y, 0x00400000)
    requires Bit(x, 0x00200000) == Bit(y, 0x00200000) && Bit(x, 0x00100000) == Bit(y, 0x00100000)
    requires Bit(x, 0x00080000) == Bit(y, 0x00080000) && Bit(x, 0x00040000) == Bit(y, 0x00040000)
    requires Bit(x, 0x00020000) == Bit(y, 0x00020000) && Bit(x, 0x00010000) == Bit(y, 0x00010000)
    requires Bit(x, 0x00008000) == Bit(y, 0x00008000) && Bit(x, 0x00004000) == Bit(y, 0x00004000)
    requires Bit(x, 0x00002000) == Bit(y, 0x00002000) && Bit(x, 0x00001000) == Bit(y, 0x00001000)
    requires Bit(x, 0x00000800) == Bit(y, 0x00000800) && Bit(x, 0x00000400) == Bit(y, 0x00000400)
    requires Bit(x, 0x00000200) == Bit(y, 0x00000200) && Bit(x, 0x00000100) == Bit(y, 0x00000100)
    requires Bit(x, 0x00000080) == Bit(y, 0x00000080) && Bit(x, 0x00000040) == Bit(y, 0x00000040)
    requires Bit(x, 0x00000020) == Bit(y, 0x00000020) && Bit(x, 0x00000010) == Bit(y, 0x00000010)
    requires Bit(x, 0x00000008) == Bit(y, 0x00000008) && Bit(x, 0x00000004) == Bit(y, 0x00000004)
    requires Bit(x, 0x00000002) == Bit(y, 0x00000002) && Bit(x, 0x00000001) == Bit(y, 0x00000001)
    ensures x == y
  {
  }

  lemma BitOf(x: bv32, y: bv32, i: nat)
    requires i < 32 && Bits32(x) == Bits32(y)
    ensures Bit(x, Mask(i)) == Bit(y, Mask(i))
  {
    hide Bit, Mask;
    assert Bits32(x)[i] == Bits32(y)[i];
  }

  lemma Bits32Injective(x: bv32, y: bv32)
    requires Bits32(x) == Bits32(y)
    ensures x == y
  {
    hide Bit, Bits32;
    BitOf(x, y, 0); BitOf(x, y, 1); BitOf(x, y, 2); BitOf(x, y, 3);
    BitOf(x, y, 4); BitOf(x, y, 5); BitOf(x, y, 6); BitOf(x, y, 7);
    BitOf(x, y, 8); BitOf(x, y, 9); BitOf(x, y, 10); BitOf(x, y, 11);
    BitOf(x, y, 12); BitOf(x, y, 13); BitOf(x, y, 14); BitOf(x, y, 15);
    BitOf(x, y, 16); BitOf(x, y, 17); BitOf(x, y, 18); BitOf(x, y, 19);
    BitOf(x, y, 20); BitOf(x, y, 21); BitOf(x, y, 22); BitOf(x, y, 23);
    BitOf(x, y, 24); BitOf(x, y, 25); BitOf(x, y, 26); BitOf(x, y, 27);
    BitOf(x, y, 28); BitOf(x, y, 29); BitOf(x, y, 30); BitOf(x, y, 31);
    WordOfBits(x, y);
  }

  lemma MaskIsPower(i: nat)
    requires i < 32
    ensures Mask(i) & (Mask(i) - 1) == 0
  {
  }

  lemma MaskShiftsHigh(i: nat)
    requires 0 < i < 10
    ensures Mask(i - 1) == Mask(i) << 1
  {
  }

  lemma MaskShiftsLow(i: nat)
    requires 10 <= i < 32
    ensures Mask(i - 1) == Mask(i) << 1
  {
  }

  lemma MaskBelowTop(i: nat)
    requires 0 < i < 32
    ensures Mask(i) & 0x80000000 == 0
  {
  }

  lemma MaskShifts(i: nat)
    requires 0 < i < 32
    ensures Mask(i - 1) == Mask(i) << 1 && Mask(i) & 0x80000000 == 0
  {
    hide Mask;
    MaskBelowTop(i);
    if i < 10 {
      MaskShiftsHigh(i);
    } else {
      MaskShiftsLow(i);
    }
  }

  lemma MaskEnds()
    ensures Mask(31) == 1 && Mask(0) == TOP
  {
  }

  lemma BitShift(x: bv32, mask: bv32)
    ensures mask & 0x80000000 == 0 ==> Bit(Shift(x), mask << 1) == Bit(x, mask)
    ensures !Bit(Shift(x), 1)
  {
  }

  lemma ShiftBits(x: bv32)
    ensures Bits32(Shift(x)) == Bits32(x)[1..] + [false]
  {
    hide Mask, Bit, Shift;
    forall i | 0 <= i < 32
      ensures Bits32(Shift(x))[i] == (Bits32(x)[1..] + [false])[i]
    {
      if i < 31 {
        MaskShifts(i + 1);
        BitShift(x, Mask(i + 1));
      } else {
        MaskEnds();
        BitShift(x, 0);
      }
    }
  }

  /** Under a mask of one bit a word is the mask or nothing. */
  lemma BitIsMask(x: bv32, mask: bv32)
    requires mask & (mask - 1) == 0
    ensures x & mask == If(Bit(x, mask), mask)
  {
  }

  lemma MaskPlus(x: bv32, y: bv32, mask: bv32)
    ensures Plus(x, y) & mask == Plus(x & mask, y & mask)
  {
  }

  lemma BitPlus(x: bv32, y: bv32, mask: bv32)
    requires mask & (mask - 1) == 0
    ensures Bit(Plus(x, y), mask) == (Bit(x, mask) != Bit(y, mask))
  {
    hide Plus;
    BitIsMask(x, mask);
    BitIsMask(y, mask);
    MaskPlus(x, y, mask);
    IfPlus(Bit(x, mask), Bit(y, mask), mask);
  }

  lemma BitsPlus(x: bv32, y: bv32)
    ensures Bits32(Plus(x, y)) == Xor(Bits32(x), Bits32(y))
  {
    hide Mask, Bit, Plus;
    forall i | 0 <= i < 32
      ensures Bits32(Plus(x, y))[i] == (Bits32(x)[i] != Bits32(y)[i])
    {
      MaskIsPower(i);
      BitPlus(x, y, Mask(i));
    }
  }

  // ----- the bit loop as division -----

  /** The polynomial of the check, x^32 first; its lower coefficients are the constant of the loop. */
  function Divisor(): (p: Poly)
    ensures |p| == 33 && p[0]
  {
    [true] + Bits32(POLY)
  }

  /** The divisor is x^32+x^26+x^23+x^22+x^16+x^12+x^11+x^10+x^8+x^7+x^5+x^4+x^2+x+1. */
  lemma DivisorTerms(k: nat)
    requires k <= 32
    ensures Divisor()[32 - k] <==> k in {32, 26, 23, 22, 16, 12, 11, 10, 8, 7, 5, 4, 2, 1, 0}
  {
  }

  /** One step on coefficients: shift the next bit in and take the divisor off if a bit falls out. */
  function ShiftIn(r: Poly, b: bool): (p: Poly)
    requires |r| == 32
    ensures |p| == 32
  {
    Xor(r[1..] + [false], Scale(r[0] != b, Bits32(POLY)))
  }

  function Remainder(d: Poly, r: Poly): (p: Poly)
    requires |r| == 32
    ensures |p| == 32
  {
    if |d| == 0 then r else ShiftIn(Remainder(d[..|d| - 1], r), d[|d| - 1])
  }

  lemma BitStepSplit(c: bv32, b: bool)
    ensures BitStep(c, b) == Plus(Shift(c), If(Top(c) != b, POLY))
  {
    hide Step, Plus, Shift, Top, If;
    StepSplit(Plus(c, If(b, TOP)));
    ShiftPlus(c, If(b, TOP));
    TopPlus(c, If(b, TOP));
    IfTop(b);
    PlusZero(Shift(c));
  }

  lemma IfTop(b: bool)
    ensures Shift(If(b, TOP)) == 0 && Top(If(b, TOP)) == b
  {
  }

  lemma BitsOfIf(t: bool, x: bv32)
    ensures Bits32(If(t, x)) == Scale(t, Bits32(x))
  {
    if !t {
      forall i | 0 <= i < 32
        ensures !Bits32(0)[i]
      {
        hide Mask;
      }
    }
  }

  lemma TopIsBit(c: bv32)
    ensures Top(c) == Bit(c, TOP)
  {
  }

  lemma BitStepShiftsIn(c: bv32, b: bool)
    ensures Bits32(BitStep(c, b)) == ShiftIn(Bits32(c), b)
  {
    hide Bit, Mask, BitStep, Plus, Shift, Top, If;
    var t := Top(c) != b;
    BitStepSplit(c, b);
    BitsPlus(Shift(c), If(t, POLY));
    ShiftBits(c);
    TopIsBit(c);
    BitsOfIf(t, POLY);
    MaskEnds();
  }

  lemma {:induction false} CrcBitsIsRemainder(d: seq<bool>, init: bv32)
    ensures Bits32(CrcBits(d, init)) == Remainder(d, Bits32(init))
  {
    hide BitStep, ShiftIn, Bits32;
    if |d| == 0 {
    } else {
      CrcBitsIsRemainder(d[..|d| - 1], init);
      BitStepShiftsIn(CrcBits(d[..|d| - 1], init), d[|d| - 1]);
    }
  }

  /** init * x^n + d * x^32, for a message of n bits. */
  function Dividend(d: Poly, r: Poly): (p: Poly)
    requires |r| == 32
    ensures |p| == |d| + 32
  {
    Xor(d + Zeros(32), r + Zeros(|d|))
  }

  ghost predicate Divides(num: Poly, q: Poly, r: Poly) {
    |r| == 32 && |num| == |q| + 32 && num == Xor(Times(q, Divisor()), Zeros(|q|) + r)
  }

  lemma DividendExtends(d: Poly, b: bool, init: Poly, k: nat)
    requires |init| == 32 && k < |d| + 33
    ensures Dividend(d + [b], init)[k] == ((Dividend(d, init) + [false])[k] != (k == |d| && b))
  {
    if k < |d| + 32 {
      assert (init + Zeros(|d| + 1))[k] == (init + Zeros(|d|))[k];
      assert ((d + [b]) + Zeros(32))[k] == ((d + Zeros(32))[k] != (k == |d| && b));
    }
  }

  lemma TimesExtends(q: Poly, t: bool)
    ensures Times(q + [t], Divisor()) == Xor(Times(q, Divisor()) + [false], Zeros(|q|) + Scale(t, Divisor()))
  {
    hide Divisor, Scale, Xor;
    assert (q + [t])[..|q|] == q;
  }

  lemma DivisorTail()
    ensures Divisor()[1..] == Bits32(POLY)
  {
  }

  /** Shifting a bit in takes the divisor off where the quotient has a coefficient. */
  lemma ShiftInAt(r: Poly, b: bool, n: nat, k: nat)
    requires |r| == 32 && k < n + 33
    ensures var t := r[0] != b;
            (Zeros(n + 1) + ShiftIn(r, b))[k]
            == (((Zeros(n) + r + [false])[k] != (Zeros(n) + Scale(t, Divisor()))[k]) != (k == n && b))
  {
    hide Divisor, Bits32;
    DivisorTail();
    var t := r[0] != b;
    if k > n {
      assert (Zeros(n) + Scale(t, Divisor()))[k] == (t && Divisor()[1..][k - n - 1]);
      assert (Zeros(n) + r + [false])[k] == (r[1..] + [false])[k - n - 1];
    }
  }

  /** Division with remainder survives one more bit, whose quotient coefficient is the bit that falls out. */
  lemma DivisionStep(d: Poly, b: bool, init: Poly, q: Poly, r: Poly)
    requires |init| == 32 && |r| == 32 && |q| == |d|
    requires Divides(Dividend(d, init), q, r)
    ensures Divides(Dividend(d + [b], init), q + [r[0] != b], ShiftIn(r, b))
  {
    hide Divisor, Bits32, Dividend, Times, ShiftIn, Scale;
    var n, t := |d|, r[0] != b;
    TimesExtends(q, t);
    forall k | 0 <= k < n + 33
      ensures Dividend(d + [b], init)[k] == (Times(q + [t], Divisor())[k] != (Zeros(n + 1) + ShiftIn(r, b))[k])
    {
      DividendExtends(d, b, init, k);
      ShiftInAt(r, b, n, k);
      if k < n + 32 {
        assert (Zeros(n) + r + [false])[k] == (Zeros(n) + r)[k];
      }
    }
  }

  lemma {:induction false} Division(d: Poly, init: Poly) returns (q: Poly)
    requires |init| == 32
    ensures |q| == |d| && Divides(Dividend(d, init), q, Remainder(d, init))
  {
    hide Divisor, ShiftIn;
    if |d| == 0 {
      q := [];
      assert Dividend(d, init) == Xor(Zeros(32), init) == init by { hide Remainder; }
    } else {
      var n := |d| - 1;
      var p := Division(d[..n], init);
      var r := Remainder(d[..n], init);
      DivisionStep(d[..n], d[n], init, p, r);
      assert d == d[..n] + [d[n]];
      q := p + [r[0] != d[n]];
    }
  }

  lemma TimesHigh(q: Poly)
    requires |q| > 0
    ensures
      var n := |q| - 1;
      var a, b := Times(q[..n], Divisor()), Times(q, Divisor());
      b[n] == (a[n] != q[n]) && forall k :: 0 <= k < n ==> b[k] == a[k]
  {
    hide Divisor;
    var n := |q| - 1;
    ShiftedAdd(Times(q[..n], Divisor()), q[n], n);
  }

  lemma ShiftedAdd(a: Poly, t: bool, n: nat)
    requires |a| == n + 32
    ensures
      var b := Xor(a + [false], Zeros(n) + Scale(t, Divisor()));
      b[n] == (a[n] != t) && forall k :: 0 <= k < n ==> b[k] == a[k]
  {
    hide Divisor, Scale;
    var z := Zeros(n) + Scale(t, Divisor());
    assert z[n] == Scale(t, Divisor())[0];
    forall k | 0 <= k < n
      ensures !z[k]
    {
    }
  }

  /** The highest coefficients of a multiple of the divisor determine the quotient. */
  lemma {:induction false} QuotientUnique(p: Poly, q: Poly)
    requires |p| == |q|
    requires forall k :: 0 <= k < |p| ==> Times(p, Divisor())[k] == Times(q, Divisor())[k]
    ensures p == q
  {
    hide Divisor, Times;
    if |p| == 0 {
    } else {
      var n := |p| - 1;
      TimesHigh(p);
      TimesHigh(q);
      QuotientUnique(p[..n], q[..n]);
      assert p == p[..n] + [p[n]] && q == q[..n] + [q[n]];
    }
  }

  lemma DivisionUnique(num: Poly, q: Poly, r: Poly, q': Poly, r': Poly)
    requires Divides(num, q, r) && Divides(num, q', r')
    ensures q == q' && r == r'
  {
    hide Divisor, Times;
    var n := |q|;
    var m, m' := Times(q, Divisor()), Times(q', Divisor());
    var z, z' := Zeros(n) + r, Zeros(n) + r';
    assert forall k :: 0 <= k < n + 32 ==> (m[k] != z[k]) == num[k] == (m'[k] != z'[k]);
    assert forall k :: 0 <= k < n ==> !z[k] && !z'[k];
    QuotientUnique(q, q');
    forall i | 0 <= i < 32
      ensures r[i] == r'[i]
    {
      assert z[n + i] == r[i] && z'[n + i] == r'[i];
    }
  }

  /** What the function returns is the remainder of init * x^(8n) + M(x) * x^32, and nothing else is. */
  lemma CrcIsTheRemainder(buf: seq<bv8>, init: bv32)
    ensures exists q :: Divides(Dividend(Bits(buf), Bits32(init)), q, Bits32(Crc(buf, init)))
    ensures forall q, r :: Divides(Dividend(Bits(buf), Bits32(init)), q, r) ==> r == Bits32(Crc(buf, init))
  {
    hide Divides, Bits32, Remainder, Bits, Crc;
    var q := Division(Bits(buf), Bits32(init));
    CrcIsBitwise(buf, init);
    CrcBitsIsRemainder(Bits(buf), init);
    forall q', r | Divides(Dividend(Bits(buf), Bits32(init)), q', r)
      ensures r == Bits32(Crc(buf, init))
    {
      DivisionUnique(Dividend(Bits(buf), Bits32(init)), q, Bits32(Crc(buf, init)), q', r);
    }
  }

  // ----- bursts -----

  /** The steps without any input. */
  function Idle(r: Poly, n: nat): (p: Poly)
    requires |r| == 32
    ensures |p| == 32
  {
    if n == 0 then r else ShiftIn(Idle(r, n - 1), false)
  }

  lemma LastOfPoly()
    ensures Bits32(POLY)[31]
  {
  }

  /** A step can be undone: the divisor is odd, so the last coefficient says whether it was taken off. */
  lemma ShiftInInjective(r: Poly, s: Poly, b: bool)
    requires |r| == |s| == 32 && ShiftIn(r, b) == ShiftIn(s, b)
    ensures r == s
  {
    hide Bits32;
    LastOfPoly();
    var x, y := ShiftIn(r, b), ShiftIn(s, b);
    assert x[31] == (r[0] != b) && y[31] == (s[0] != b);
    forall i | 1 <= i < 32
      ensures r[i] == s[i]
    {
      assert x[i - 1] == y[i - 1];
      assert (r[1..] + [false])[i - 1] == r[i] && (s[1..] + [false])[i - 1] == s[i];
    }
  }

  lemma {:induction false} IdleInjective(r: Poly, s: Poly, n: nat)
    requires |r| == |s| == 32 && Idle(r, n) == Idle(s, n)
    ensures r == s
  {
    hide ShiftIn;
    if n == 0 {
    } else {
      ShiftInInjective(Idle(r, n - 1), Idle(s, n - 1), false);
      IdleInjective(r, s, n - 1);
    }
  }

  lemma {:induction false} RemainderInjective(d: Poly, r: Poly, s: Poly)
    requires |r| == |s| == 32 && Remainder(d, r) == Remainder(d, s)
    ensures r == s
  {
    hide ShiftIn;
    if |d| == 0 {
    } else {
      var n := |d| - 1;
      ShiftInInjective(Remainder(d[..n], r), Remainder(d[..n], s), d[n]);
      RemainderInjective(d[..n], r, s);
    }
  }

  lemma ShiftInPlus(r: Poly, s: Poly, b: bool, c: bool)
    requires |r| == |s| == 32
    ensures ShiftIn(Xor(r, s), b != c) == Xor(ShiftIn(r, b), ShiftIn(s, c))
  {
    hide Bits32;
    var x, y := ShiftIn(Xor(r, s), b != c), Xor(ShiftIn(r, b), ShiftIn(s, c));
    forall i | 0 <= i < 32
      ensures x[i] == y[i]
    {
      if i < 31 {
        assert Xor(r, s)[i + 1] == (r[i + 1] != s[i + 1]);
      }
    }
  }

  lemma {:induction false} IdlePlus(r: Poly, s: Poly, n: nat)
    requires |r| == |s| == 32
    ensures Idle(Xor(r, s), n) == Xor(Idle(r, n), Idle(s, n))
  {
    hide ShiftIn;
    if n == 0 {
    } else {
      IdlePlus(r, s, n - 1);
      ShiftInPlus(Idle(r, n - 1), Idle(s, n - 1), false, false);
    }
  }

  function Unit(k: nat, b: bool): (p: Poly)
    requires k < 32
    ensures |p| == 32
  {
    Zeros(k) + [b] + Zeros(31 - k)
  }

  lemma {:induction false} IdleUnit(k: nat, n: nat, b: bool)
    requires n <= k < 32
    ensures Idle(Unit(k, b), n) == Unit(k - n, b)
  {
    hide Bits32;
    if n == 0 {
    } else {
      IdleUnit(k, n - 1, b);
      assert Unit(k - n + 1, b)[1..] + [false] == Unit(k - n, b);
      assert ShiftIn(Unit(k - n + 1, b), false) == Unit(k - n, b);
    }
  }

  lemma ShiftInTop(r: Poly, b: bool)
    requires |r| == 32
    ensures ShiftIn(Xor(r, Unit(0, b)), false) == ShiftIn(r, b)
  {
    hide Bits32;
    assert Xor(r, Unit(0, b))[1..] == r[1..];
  }

  lemma IdleOneMore(x: Poly, n: nat, b: bool)
    requires |x| == 32 && n < 32
    ensures Idle(Xor(x, Unit(n, b)), n + 1) == ShiftIn(Idle(x, n), b)
  {
    hide ShiftIn, Unit;
    IdlePlus(x, Unit(n, b), n);
    IdleUnit(n, n, b);
    ShiftInTop(Idle(x, n), b);
  }

  lemma AppendUnit(r: Poly, v: Poly, b: bool)
    requires |v| < 32 && |r| == 32
    ensures Xor(r, v + [b] + Zeros(31 - |v|)) == Xor(Xor(r, v + Zeros(32 - |v|)), Unit(|v|, b))
  {
    var x, y := v + [b] + Zeros(31 - |v|), v + Zeros(32 - |v|);
    assert forall i :: 0 <= i < 32 ==> x[i] == (y[i] != Unit(|v|, b)[i]);
  }

  /** Up to 32 bits that arrive one by one may as well be added to the state at once. */
  lemma {:induction false} RemainderOfShort(w: Poly, r: Poly)
    requires |w| <= 32 && |r| == 32
    ensures Remainder(w, r) == Idle(Xor(r, w + Zeros(32 - |w|)), |w|)
  {
    hide ShiftIn, Unit;
    if |w| == 0 {
      assert Xor(r, w + Zeros(32)) == r;
    } else {
      var n := |w| - 1;
      RemainderOfShort(w[..n], r);
      IdleOneMore(Xor(r, w[..n] + Zeros(32 - n)), n, w[n]);
      AppendUnit(r, w[..n], w[n]);
      assert w[..n] + [w[n]] == w;
    }
  }

  lemma WindowInjective(v: Poly, w: Poly, r: Poly)
    requires |v| == |w| <= 32 && |r| == 32 && Remainder(v, r) == Remainder(w, r)
    ensures v == w
  {
    hide Remainder, Idle;
    RemainderOfShort(v, r);
    RemainderOfShort(w, r);
    var x, y := v + Zeros(32 - |v|), w + Zeros(32 - |w|);
    IdleInjective(Xor(r, x), Xor(r, y), |v|);
    forall i | 0 <= i < |v|
      ensures v[i] == w[i]
    {
      assert Xor(r, x)[i] == Xor(r, y)[i];
    }
  }

  lemma {:induction false} RemainderConcat(a: Poly, b: Poly, r: Poly)
    requires |r| == 32
    ensures Remainder(a + b, r) == Remainder(b, Remainder(a, r))
    decreases |b|
  {
    hide ShiftIn;
    if |b| == 0 {
      assert a + b == a;
    } else {
      var n := |b| - 1;
      assert (a + b)[..|a + b| - 1] == a + b[..n];
      RemainderConcat(a, b[..n], r);
    }
  }

  lemma WindowDetected(pre: Poly, v: Poly, w: Poly, post: Poly, r: Poly)
    requires |v| == |w| <= 32 && |r| == 32 && v != w
    ensures Remainder(pre + v + post, r) != Remainder(pre + w + post, r)
  {
    hide Remainder;
    RemainderConcat(pre, v, r);
    RemainderConcat(pre, w, r);
    RemainderConcat(pre + v, post, r);
    RemainderConcat(pre + w, post, r);
    if Remainder(pre + v + post, r) == Remainder(pre + w + post, r) {
      RemainderInjective(post, Remainder(pre + v, r), Remainder(pre + w, r));
      WindowInjective(v, w, Remainder(pre, r));
    }
  }

  ghost predicate SameOutside(a: Poly, b: Poly, i: nat, n: nat)
  {
    |a| == |b| && forall k :: 0 <= k < |a| && !(i <= k < i + n) ==> a[k] == b[k]
  }

  lemma ByteBitsInjective(x: bv8, y: bv8)
    requires ByteBits(x) == ByteBits(y)
    ensures x == y
  {
    var a, b := ByteBits(x), ByteBits(y);
    assert a[0] == b[0] && a[1] == b[1] && a[2] == b[2] && a[3] == b[3];
    assert a[4] == b[4] && a[5] == b[5] && a[6] == b[6] && a[7] == b[7];
  }

  lemma {:induction false} BitsInjective(a: seq<bv8>, b: seq<bv8>)
    requires Bits(a) == Bits(b)
    ensures a == b
  {
    hide ByteBits;
    if |a| == 0 {
    } else {
      var n := |a| - 1;
      var x, y := ByteBits(a[n]), ByteBits(b[n]);
      assert Bits(a) == Bits(a[..n]) + x && Bits(b) == Bits(b[..n]) + y;
      assert Bits(a)[8 * n..] == x && Bits(b)[8 * n..] == y;
      assert Bits(a)[..8 * n] == Bits(a[..n]) && Bits(b)[..8 * n] == Bits(b[..n]);
      ByteBitsInjective(a[n], b[n]);
      BitsInjective(a[..n], b[..n]);
    }
  }

  lemma ThreeParts(x: Poly, m: nat, e: nat)
    requires m <= e <= |x|
    ensures x == x[..m] + x[m..e] + x[e..]
  {
  }

  /** Two messages whose bits differ only inside a window of 32 never have the same check. */
  lemma BurstDetected(a: seq<bv8>, b: seq<bv8>, i: nat, init: bv32)
    requires |a| == |b| && a != b && SameOutside(Bits(a), Bits(b), i, 32)
    ensures Crc(a, init) != Crc(b, init)
  {
    hide Crc, Bits, Remainder, Bits32;
    var x, y := Bits(a), Bits(b);
    var m := if i <= |x| then i else |x|;
    var e := if m + 32 <= |x| then m + 32 else |x|;
    ThreeParts(x, m, e);
    ThreeParts(y, m, e);
    assert x[..m] == y[..m] && x[e..] == y[e..];
    if x[m..e] == y[m..e] {
      BitsInjective(a, b);
      assert false;
    }
    WindowDetected(x[..m], x[m..e], y[m..e], x[e..], Bits32(init));
    CrcIsBitwise(a, init);
    CrcIsBitwise(b, init);
    CrcBitsIsRemainder(x, init);
    CrcBitsIsRemainder(y, init);
  }

  lemma {:induction false} BitsConcat(a: seq<bv8>, b: seq<bv8>)
    ensures Bits(a + b) == Bits(a) + Bits(b)
    decreases |b|
  {
    hide ByteBits;
    if |b| == 0 {
      assert a + b == a;
    } else {
      var n := |b| - 1;
      assert (a + b)[..|a + b| - 1] == a + b[..n];
      BitsConcat(a, b[..n]);
    }
  }

  /** Two messages that differ only in up to four neighbouring bytes never have the same check. */
  lemma FourBytesDetected(pre: seq<bv8>, v: seq<bv8>, w: seq<bv8>, post: seq<bv8>, init: bv32)
    requires |v| == |w| <= 4 && v != w
    ensures Crc(pre + v + post, init) != Crc(pre + w + post, init)
  {
    hide Crc, Bits, Remainder, Bits32;
    BitsConcat(pre, v);
    BitsConcat(pre + v, post);
    BitsConcat(pre, w);
    BitsConcat(pre + w, post);
    if Bits(v) == Bits(w) {
      BitsInjective(v, w);
      assert false;
    }
    WindowDetected(Bits(pre), Bits(v), Bits(w), Bits(post), Bits32(init));
    CrcIsBitwise(pre + v + post, init);
    CrcIsBitwise(pre + w + post, init);
    CrcBitsIsRemainder(Bits(pre + v + post), init);
    CrcBitsIsRemainder(Bits(pre + w + post), init);
  }

  /** For one message, different starts give different checks. */
  lemma StartMatters(buf: seq<bv8>, i: bv32, j: bv32)
    requires Crc(buf, i) == Crc(buf, j)
    ensures i == j
  {
    hide Crc, Bits, Remainder, Bits32;
    CrcIsBitwise(buf, i);
    CrcIsBitwise(buf, j);
    CrcBitsIsRemainder(Bits(buf), i);
    CrcBitsIsRemainder(Bits(buf), j);
    RemainderInjective(Bits(buf), Bits32(i), Bits32(j));
    Bits32Injective(i, j);
  }
}
