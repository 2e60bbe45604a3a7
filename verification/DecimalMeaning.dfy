/**
 * What decimal text denotes, read digit by digit in the real numbers, without the mantissas and
 * exponents the scanner and the printer work with.
 */
module DecimalMeaning {
  import opened Bytes
  import opened Decimals

  // ----- powers of ten -----

  /** 10^e, for every integer e. */
  ghost function TenTo(e: int): (x: real)
    ensures x > 0.0
    decreases if e < 0 then -e else e
  {
    if e == 0 then 1.0 else if e > 0 then 10.0 * TenTo(e - 1) else TenTo(e + 1) / 10.0
  }

  lemma TenToNext(e: int)
    ensures TenTo(e + 1) == 10.0 * TenTo(e)
  {
  }

  lemma {:induction false} TenToAdd(a: int, b: int)
    ensures TenTo(a + b) == TenTo(a) * TenTo(b)
    decreases if a < 0 then -a else a
  {
    hide TenTo;
    if a == 0 {
      TenToZero();
    } else if a > 0 {
      TenToAdd(a - 1, b);
      TenToNext(a - 1);
      TenToNext(a - 1 + b);
      TenTimesBoth(TenTo(a - 1), TenTo(b));
    } else {
      TenToAdd(a + 1, b);
      TenToNext(a);
      TenToNext(a + b);
      TenTimesBoth(TenTo(a), TenTo(b));
    }
  }

  lemma TenToZero()
    ensures TenTo(0) == 1.0
  {
  }

  lemma TenTimesBoth(x: real, y: real)
    ensures (10.0 * x) * y == 10.0 * (x * y)
  {
  }

  lemma TenToInverse(k: int)
    ensures TenTo(k) * TenTo(-k) == 1.0
  {
    TenToAdd(k, -k);
    TenToZero();
  }

  lemma {:induction false} TenToPow(k: nat)
    ensures TenTo(k) == Pow10(k) as real
  {
    if k == 0 {
    } else {
      TenToPow(k - 1);
    }
  }

  // ----- decimals -----

  ghost function RealOf(d: Decimal): real {
    d.m as real * TenTo(d.e)
  }

  lemma {:induction false} NormalizeMeans(m: int, e: int)
    ensures RealOf(Normalize(m, e)) == m as real * TenTo(e)
    decreases Abs(m)
  {
    if m == 0 {
    } else if m % 10 == 0 {
      assert Abs(m / 10) < Abs(m) && m == 10 * (m / 10);
      NormalizeMeans(m / 10, e + 1);
      TenToNext(e);
      MoveTen((m / 10) as real, TenTo(e));
    } else {
    }
  }

  lemma MoveTen(x: real, y: real)
    ensures x * (10.0 * y) == (10.0 * x) * y
  {
  }

  // ----- numerals -----

  ghost function DigitOf(b: byte): real {
    (b - ('0' as int)) as real
  }

  /** Digits before the point: each counts ten times the one behind it. */
  ghost function Whole(ds: bytes): real {
    if |ds| == 0 then 0.0 else 10.0 * Whole(ds[..|ds| - 1]) + DigitOf(ds[|ds| - 1])
  }

  /** Digits behind the point: the k-th counts 10^-k. */
  ghost function Fraction(ds: bytes): real {
    if |ds| == 0 then 0.0 else Fraction(ds[..|ds| - 1]) + DigitOf(ds[|ds| - 1]) / TenTo(|ds|)
  }

  /** `x` with the point moved as the exponent says. */
  ghost function Scaled(x: real, ex: Exponent): real {
    match ex
    case NoExponent => x
    case Exponent(_, sign, digits) =>
      if sign == ['-' as int] then x / TenTo(DigitsValue(digits)) else x * TenTo(DigitsValue(digits))
  }

  /** The number a numeral denotes. */
  ghost function Reading(n: Numeral): real {
    var size := Scaled(Whole(n.ip) + Fraction(n.fp), n.ex);
    if n.neg then -size else size
  }

  lemma {:induction false} WholeIs(ds: bytes)
    ensures Whole(ds) == DigitsValue(ds) as real
  {
    if |ds| == 0 {
    } else {
      WholeIs(ds[..|ds| - 1]);
    }
  }

  lemma {:induction false} FractionIs(ds: bytes)
    ensures Fraction(ds) * TenTo(|ds|) == DigitsValue(ds) as real
  {
    if |ds| == 0 {
    } else {
      var k := |ds| - 1;
      FractionIs(ds[..k]);
      TenToNext(k);
      hide TenTo;
      LastDigit(Fraction(ds[..k]), DigitOf(ds[k]), TenTo(k), TenTo(|ds|));
    }
  }

  lemma LastDigit(f: real, d: real, t: real, u: real)
    requires u == 10.0 * t && t > 0.0
    ensures (f + d / u) * u == 10.0 * (f * t) + d
  {
  }

  lemma ScaledIs(x: real, ex: Exponent)
    requires ExponentOk(ex)
    ensures Scaled(x, ex) == x * TenTo(ExponentValue(ex))
  {
    hide TenTo;
    TenToZero();
    if ex.Exponent? {
      var k := DigitsValue(ex.digits);
      TenToInverse(k);
      Inverse(x, TenTo(k), TenTo(-k));
    }
  }

  lemma Inverse(x: real, p: real, q: real)
    requires p * q == 1.0 && p > 0.0
    ensures x / p == x * q
  {
    assert x == x * q * p;
  }

  /** The decimal found for a numeral is the number it denotes. */
  lemma NumeralMeans(n: Numeral)
    requires Scannable(n)
    ensures RealOf(NumeralValue(n)) == Reading(n)
  {
    hide Normalize, ExponentValue, Scaled, Whole, Fraction, DigitsValue, TenTo, Pow10;
    var m := DigitsValue(n.ip + n.fp);
    var k, x := |n.fp|, ExponentValue(n.ex);
    WholeIs(n.ip);
    FractionIs(n.fp);
    DigitsValueConcat(n.ip, n.fp);
    ScaledIs(Whole(n.ip) + Fraction(n.fp), n.ex);
    NormalizeMeans(if n.neg then -m else m, x - k);
    TenToAdd(-k, x);
    TenToInverse(k);
    TenToPow(k);
    BothParts(DigitsValue(n.ip) as real, Fraction(n.fp), TenTo(k), TenTo(-k), TenTo(x));
  }

  lemma BothParts(a: real, f: real, p: real, q: real, t: real)
    requires p * q == 1.0
    ensures (a + f) * t == (a * p + f * p) * (q * t)
  {
    assert a * p * (q * t) == a * t * (p * q);
    assert f * p * (q * t) == f * t * (p * q);
  }

  /** Different normal forms are different numbers, so that the number settles the decimal. */
  lemma RealOfInjective(a: Decimal, b: Decimal)
    requires Normal(a) && Normal(b) && RealOf(a) == RealOf(b)
    ensures a == b
  {
    if a.e <= b.e {
      SameNumber(a, b);
    } else {
      SameNumber(b, a);
    }
  }

  lemma SameNumber(a: Decimal, b: Decimal)
    requires Normal(a) && Normal(b) && RealOf(a) == RealOf(b) && a.e <= b.e
    ensures a == b
  {
    var k := b.e - a.e;
    MantissaScaled(a, b, k);
    NormalizeShift(b.m, a.e, k);
    assert Normalize(a.m, a.e) == a && Normalize(b.m, b.e) == b;
  }

  lemma MantissaScaled(a: Decimal, b: Decimal, k: nat)
    requires RealOf(a) == RealOf(b) && b.e == a.e + k
    ensures a.m == b.m * Pow10(k)
  {
    hide TenTo, Pow10;
    TenToAdd(k, a.e);
    TenToPow(k);
    SameMantissa(a.m, b.m, Pow10(k), TenTo(k), TenTo(a.e), TenTo(b.e));
  }

  lemma SameMantissa(m: int, n: int, p: int, q: real, t: real, u: real)
    requires m as real * t == n as real * u && u == q * t && q == p as real && t > 0.0
    ensures m == n * p
  {
    assert (m as real - n as real * q) * t == 0.0;
    assert m as real == n as real * q;
  }

  // ----- exponents as digits moved across the point -----

  /** A numeral without exponent: its digits, of which `k` stand in front of the point. */
  function Pointed(neg: bool, ds: bytes, k: nat): Numeral
    requires k <= |ds|
  {
    Numeral(neg, ds[..k], true, ds[k..], NoExponent)
  }

  /**
   * An exponent, with '+' or no sign, moves the point by its value to the right, and with '-' to the
   * left; zeros are added where digits run out.
   */
  lemma ExponentMovesPoint(neg: bool, ip: bytes, fp: bytes, marker: byte, sign: bytes, ds: bytes)
    ensures var n := Numeral(neg, ip, true, fp, Exponent(marker, sign, ds));
            var k := DigitsValue(ds);
            && (k >= 0 && sign != ['-' as int] ==>
                  NumeralValue(n) == NumeralValue(Pointed(neg, ip + fp + Zeros(k), |ip| + k)))
            && (k >= 0 && sign == ['-' as int] ==>
                  NumeralValue(n) == NumeralValue(Pointed(neg, Zeros(k) + ip + fp, |ip|)))
  {
    hide DigitsValue, Normalize, NumeralValue;
    var k := DigitsValue(ds);
    if k >= 0 {
      if sign != ['-' as int] {
        PointToTheRight(neg, ip + fp, |ip|, k);
      } else {
        PointToTheLeft(neg, ip + fp, |ip|, k);
        assert Zeros(k) + ip + fp == Zeros(k) + (ip + fp);
      }
      ValueOfParts(Numeral(neg, ip, true, fp, Exponent(marker, sign, ds)));
    }
  }

  /** The number of a digit string and an exponent. */
  function SignedValue(neg: bool, ds: bytes, e: int): Decimal {
    Normalize(if neg then -DigitsValue(ds) else DigitsValue(ds), e)
  }

  lemma ValueOfParts(n: Numeral)
    ensures NumeralValue(n) == SignedValue(n.neg, n.ip + n.fp, ExponentValue(n.ex) - |n.fp|)
  {
  }

  lemma PointToTheRight(neg: bool, ds: bytes, p: nat, k: nat)
    requires p <= |ds|
    ensures NumeralValue(Pointed(neg, ds + Zeros(k), p + k)) == SignedValue(neg, ds, k - (|ds| - p))
  {
    TakenApart(ds + Zeros(k), p + k);
    hide NumeralValue, DigitsValue, Normalize, Pow10;
    ValueOfParts(Pointed(neg, ds + Zeros(k), p + k));
    DigitsValueConcat(ds, Zeros(k));
    ZerosValue(k);
    var m := DigitsValue(ds);
    NegatedProduct(m, Pow10(k));
    NormalizeShift(if neg then -m else m, p - |ds|, k);
  }

  lemma NegatedProduct(a: int, b: int)
    ensures (-a) * b == -(a * b)
  {
  }

  lemma PointToTheLeft(neg: bool, ds: bytes, p: nat, k: nat)
    requires p <= |ds|
    ensures NumeralValue(Pointed(neg, Zeros(k) + ds, p)) == SignedValue(neg, ds, p - k - |ds|)
  {
    TakenApart(Zeros(k) + ds, p);
    hide NumeralValue, DigitsValue, Normalize, Pow10;
    ValueOfParts(Pointed(neg, Zeros(k) + ds, p));
    DigitsValueConcat(Zeros(k), ds);
    ZerosValue(k);
  }

  lemma TakenApart(ds: bytes, k: nat)
    requires k <= |ds|
    ensures ds[..k] + ds[k..] == ds
  {
  }
}
