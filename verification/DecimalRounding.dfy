/** What "%.<p>g" prints: the nearest number of p digits, ties to even, in the layout of C. */
module DecimalRounding {
  import opened Bytes
  import opened Decimals
  import opened DecimalMeaning

  ghost function Distance(x: real, y: real): real {
    if x < y then y - x else x - y
  }

  ghost function Size(x: real): real {
    if x < 0.0 then -x else x
  }

  // ----- where the leading digit stands -----

  lemma TenToMonotone(a: int, b: int)
    ensures a <= b ==> TenTo(a) <= TenTo(b)
    ensures a < b ==> TenTo(a) < TenTo(b)
    decreases if a < b then b - a else 0
  {
    if a < b {
      TenToMonotone(a, b - 1);
      TenToNext(b - 1);
    }
  }

  /** The leading digit of a number stands at the power of ten that begins its decade. */
  lemma LeadingExponentMeans(d: Decimal)
    requires d.m != 0
    ensures TenTo(LeadingExponent(d)) <= Size(RealOf(d)) < TenTo(LeadingExponent(d) + 1)
  {
    var m, n := Abs(d.m), |Digits(Abs(d.m))|;
    assert m > 0 && LeadingExponent(d) == n - 1 + d.e;
    hide *;
    DigitsBound(m);
    SizeShifted(d, n);
    SizeShifted(d, n - 1);
  }

  lemma SizeShifted(d: Decimal, n: nat)
    ensures Abs(d.m) < Pow10(n) <==> Size(RealOf(d)) < TenTo(n + d.e)
  {
    hide *;
    SizeIs(d);
    Shifted(Abs(d.m), n, d.e);
  }

  lemma Shifted(m: nat, n: nat, e: int)
    ensures m < Pow10(n) <==> m as real * TenTo(e) < TenTo(n + e)
  {
    hide *;
    TenToPow(n);
    TenToAdd(n, e);
    Scale(TenTo(n), m as real, TenTo(e));
  }

  /** The numbers printed may be any of at least 10^-324 and less than 10^309 in size: all finite doubles. */
  lemma DoublesInRange(d: Decimal)
    requires Normal(d)
    ensures DoubleRange(d) <==> d.m == 0 || TenTo(-324) <= Size(RealOf(d)) < TenTo(309)
  {
    if d.m == 0 {
      assert LeadingExponent(d) == 0;
    } else {
      LeadingExponentMeans(d);
      hide TenTo, RealOf, Size, LeadingExponent;
      TenToMonotone(-324, LeadingExponent(d));
      TenToMonotone(LeadingExponent(d) + 1, -324);
      TenToMonotone(LeadingExponent(d) + 1, 309);
      TenToMonotone(309, LeadingExponent(d));
    }
  }

  lemma DigitsBound(m: nat)
    requires m > 0
    ensures Pow10(|Digits(m)| - 1) <= m < Pow10(|Digits(m)|)
  {
    var n := |Digits(m)|;
    DigitsCount(m, n);
    if n > 1 {
      DigitsCount(m, n - 1);
    }
  }

  lemma SizeIs(d: Decimal)
    ensures Size(RealOf(d)) == Abs(d.m) as real * TenTo(d.e)
  {
    hide TenTo;
    var t := TenTo(d.e);
    if d.m < 0 {
      assert d.m as real * t == -(Abs(d.m) as real * t);
      Scale(0.0, Abs(d.m) as real, t);
    } else {
      Scale(0.0, d.m as real, t);
    }
  }

  lemma Scale(x: real, y: real, t: real)
    requires t > 0.0
    ensures x <= y <==> x * t <= y * t
  {
  }

  // ----- the nearest multiple of the last digit's unit -----

  /** The digits kept, as a signed number. */
  function Kept(d: Decimal, p: nat): int
    requires p >= 1
  {
    var q: int := RoundMantissa(Abs(d.m), p);
    if d.m < 0 then -q else q
  }

  /** The power of ten of the p-th digit. */
  function LastPlace(d: Decimal, p: nat): int {
    LeadingExponent(d) + 1 - p
  }

  /** A product, by a name under which the solver lets it be. */
  ghost function Times(x: real, y: real): real {
    x * y
  }

  /** By how much the k-th multiple of `u` exceeds `m`. */
  function Excess(m: int, u: int, k: int): int {
    u * k - m
  }

  lemma RoundToMeans(d: Decimal, p: nat)
    requires p >= 1
    ensures var n := |Digits(Abs(d.m))|;
            && (n <= p ==> RealOf(RoundTo(d, p)) == RealOf(d))
            && (n > p ==> RealOf(RoundTo(d, p)) == Times(Kept(d, p) as real, TenTo(LastPlace(d, p))))
  {
    hide Normalize, DivideHalfEven, TenTo, Digits;
    var n := |Digits(Abs(d.m))|;
    NormalizeMeans(Kept(d, p), if n <= p then d.e else d.e + n - p);
  }

  lemma KeptIsClose(d: Decimal, p: nat)
    requires p >= 1 && |Digits(Abs(d.m))| > p
    ensures var u: int := Pow10(|Digits(Abs(d.m))| - p);
            && -u <= 2 * Excess(d.m, u, Kept(d, p)) <= u
            && (2 * Abs(Excess(d.m, u, Kept(d, p))) == u ==> Kept(d, p) % 2 == 0)
  {
    hide *;
    KeptIs(d, p);
    var m: int := Abs(d.m);
    var q: int := RoundMantissa(m, p);
    RoundMantissaClose(m, p);
    NegatedExcess(m, Pow10(|Digits(m)| - p), q);
    AbsIsSize(Excess(m, Pow10(|Digits(m)| - p), q));
    AbsIsSize(-Excess(m, Pow10(|Digits(m)| - p), q));
  }

  lemma KeptIs(d: Decimal, p: nat)
    requires p >= 1
    ensures d.m == (if d.m < 0 then -(Abs(d.m) as int) else Abs(d.m))
    ensures Kept(d, p) == if d.m < 0 then -(RoundMantissa(Abs(d.m), p) as int) else RoundMantissa(Abs(d.m), p)
  {
    hide RoundMantissa;
  }

  lemma RoundMantissaClose(m: nat, p: nat)
    requires p >= 1 && |Digits(m)| > p
    ensures var u, q: int := Pow10(|Digits(m)| - p), RoundMantissa(m, p);
            && -(u as int) <= 2 * Excess(m, u, q) <= u
            && (2 * Abs(Excess(m, u, q)) == u ==> q % 2 == 0)
  {
    hide Pow10, Digits;
  }

  lemma NegatedExcess(m: int, u: int, q: int)
    ensures Excess(-m, u, -q) == -Excess(m, u, q)
  {
    NegatedProduct(q, u);
  }

  lemma NearestMultiple(m: int, u: int, q: int, k: int)
    requires 0 <= u && -u <= 2 * Excess(m, u, q) <= u && k != q
    ensures Abs(Excess(m, u, q)) <= Abs(Excess(m, u, k))
    ensures Abs(Excess(m, u, q)) == Abs(Excess(m, u, k)) ==> 2 * Abs(Excess(m, u, q)) == u
  {
    if k > q {
      NextMultiple(m, u, q, k);
    } else {
      NextMultiple(m, u, k, q);
    }
    hide Excess;
  }

  lemma NextMultiple(m: int, u: int, a: int, b: int)
    requires 0 <= u && a < b
    ensures Excess(m, u, a) + u <= Excess(m, u, b)
  {
    Distribute(u, a + 1, b - a - 1);
    Distribute(u, a, 1);
    assert u * (b - a - 1) >= 0;
  }

  lemma Distribute(u: int, a: int, b: int)
    ensures u * (a + b) == u * a + u * b
  {
  }

  /** The distance of a multiple of 10^(d.e + j), counted in units of d. */
  lemma GridDistance(d: Decimal, j: nat, k: int)
    ensures Distance(Times(k as real, TenTo(d.e + j)), RealOf(d)) ==
            Times(Abs(Excess(d.m, Pow10(j), k)) as real, TenTo(d.e))
  {
    hide *;
    var t, c := TenTo(d.e), Excess(d.m, Pow10(j), k);
    RealOfIsTimes(d);
    TenToShift(j, d.e);
    ExcessIs(k, d.m, Pow10(j), t);
    ScaledDistance(c as real + d.m as real, d.m as real, t);
    AbsIs(c, d.m);
  }

  lemma RealOfIsTimes(d: Decimal)
    ensures RealOf(d) == Times(d.m as real, TenTo(d.e))
  {
  }

  lemma AbsIs(c: int, m: int)
    ensures Distance(c as real + m as real, m as real) == Abs(c) as real
  {
  }

  lemma TenToShift(j: nat, e: int)
    ensures TenTo(e + j) == Times(Pow10(j) as real, TenTo(e))
  {
    TenToAdd(j, e);
    TenToPow(j);
  }

  lemma ExcessIs(k: int, m: int, u: int, t: real)
    ensures Times(k as real, Times(u as real, t)) == Times(Excess(m, u, k) as real + m as real, t)
  {
    assert (u * k) as real == u as real * k as real;
  }

  lemma ScaledDistance(x: real, y: real, t: real)
    requires t > 0.0
    ensures Distance(Times(x, t), Times(y, t)) == Times(Distance(x, y), t)
  {
    Scale(x, y, t);
    assert (x - y) * t == x * t - y * t;
    assert (y - x) * t == y * t - x * t;
  }

  /**
   * Rounding a number of more than p digits gives the multiple of 10^LastPlace that is nearest, at
   * most half of that away; of two that are equally near, the even one.
   */
  lemma NearestOnGrid(d: Decimal, p: nat, k: int)
    requires p >= 1 && |Digits(Abs(d.m))| > p
    ensures var unit, x := TenTo(LastPlace(d, p)), RealOf(d);
            var here, there := RealOf(RoundTo(d, p)), Times(k as real, unit);
            && here == Times(Kept(d, p) as real, unit)
            && 2.0 * Distance(here, x) <= unit
            && Distance(here, x) <= Distance(there, x)
            && (k != Kept(d, p) && Distance(here, x) == Distance(there, x) ==> Kept(d, p) % 2 == 0)
  {
    var j := |Digits(Abs(d.m))| - p;
    assert LastPlace(d, p) == d.e + j;
    var u, q := Pow10(j), Kept(d, p);
    hide *;
    RoundToMeans(d, p);
    KeptIsClose(d, p);
    GridDistance(d, j, q);
    GridDistance(d, j, k);
    TenToShift(j, d.e);
    if k != q {
      NearestMultiple(d.m, u, q, k);
    }
    InUnits(Excess(d.m, u, q), Excess(d.m, u, k), u, TenTo(d.e));
  }

  lemma InUnits(a: int, b: int, u: int, t: real)
    requires t > 0.0
    ensures var here, there := Times(Abs(a) as real, t), Times(Abs(b) as real, t);
            && (-u <= 2 * a <= u ==> 2.0 * here <= Times(u as real, t))
            && (Abs(a) <= Abs(b) ==> here <= there)
            && (here == there ==> Abs(a) == Abs(b))
  {
    AbsIsSize(a);
    hide *;
    TimesOrder(Abs(a), Abs(b), t);
    TimesOrder(Abs(b), Abs(a), t);
    TimesOrder(2 * Abs(a), u, t);
    TimesTwice(Abs(a), t);
  }

  lemma AbsIsSize(i: int)
    ensures Abs(i) == if i < 0 then -i else i
  {
  }

  lemma TimesOrder(a: int, b: int, t: real)
    requires t > 0.0
    ensures a <= b <==> Times(a as real, t) <= Times(b as real, t)
  {
    Scale(a as real, b as real, t);
  }

  lemma TimesTwice(a: int, t: real)
    ensures Times((2 * a) as real, t) == 2.0 * Times(a as real, t)
  {
  }

  /** No number of at most p digits is nearer to d than what d is rounded to. */
  lemma NearestOfAll(d: Decimal, p: nat, x: Decimal)
    requires p >= 1 && Abs(x.m) < Pow10(p)
    ensures Distance(RealOf(RoundTo(d, p)), RealOf(d)) <= Distance(RealOf(x), RealOf(d))
  {
    hide *;
    RoundToMeans(d, p);
    if |Digits(Abs(d.m))| <= p {
      DistanceToSelf(RealOf(d), RealOf(x));
    } else if x.e >= LastPlace(d, p) {
      var j := x.e - LastPlace(d, p);
      OnGrid(x, LastPlace(d, p), j);
      NearestOnGrid(d, p, x.m * Pow10(j));
    } else {
      SmallerDecade(d, p, x);
      NearestOnGrid(d, p, DecadeStart(d, p));
    }
  }

  lemma DistanceToSelf(x: real, y: real)
    ensures Distance(x, x) == 0.0 <= Distance(y, x)
  {
  }

  lemma OnGrid(x: Decimal, e: int, j: nat)
    requires x.e == e + j
    ensures RealOf(x) == Times((x.m * Pow10(j)) as real, TenTo(e))
  {
    assert RealOf(x) == Times(x.m as real, TenTo(e + j));
    hide RealOf, TenTo, Pow10;
    TenToShift(j, e);
    ExcessIs(x.m, 0, Pow10(j), TenTo(e));
  }

  /** The first number of p digits in the decade of d, in units of the last place. */
  function DecadeStart(d: Decimal, p: nat): int
    requires p >= 1
  {
    if d.m < 0 then -(Pow10(p - 1) as int) else Pow10(p - 1)
  }

  lemma SmallerDecade(d: Decimal, p: nat, x: Decimal)
    requires p >= 1 && Abs(x.m) < Pow10(p) && |Digits(Abs(d.m))| > p && x.e < LastPlace(d, p)
    ensures Distance(Times(DecadeStart(d, p) as real, TenTo(LastPlace(d, p))), RealOf(d)) <=
            Distance(RealOf(x), RealOf(d))
  {
    var e := LeadingExponent(d);
    assert d.m != 0 && LastPlace(d, p) == e + 1 - p;
    hide *;
    LeadingExponentMeans(d);
    SizeShifted(x, p);
    TenToMonotone(p + x.e, e);
    SignOf(d);
    SignedStart(d, p, e);
    Nearer(RealOf(x), RealOf(d), TenTo(e));
  }

  lemma SignOf(d: Decimal)
    ensures d.m < 0 <==> RealOf(d) < 0.0
  {
    hide TenTo;
    Scale(0.0, d.m as real, TenTo(d.e));
  }

  lemma SignedStart(d: Decimal, p: nat, e: int)
    requires p >= 1
    ensures Times(DecadeStart(d, p) as real, TenTo(e + 1 - p)) == if d.m < 0 then -TenTo(e) else TenTo(e)
  {
    hide TenTo, Pow10;
    TenToShift(p - 1, e + 1 - p);
  }

  lemma Nearer(x: real, y: real, t: real)
    requires Size(x) <= t <= Size(y)
    ensures Distance(if y < 0.0 then -t else t, y) <= Distance(x, y)
  {
  }

  // ----- the text -----

  /** What is printed reads as the rounded number. */
  lemma PrintedMeans(d: Decimal, p: nat)
    requires p >= 1
    ensures Reading(FormatG(d, p)) == RealOf(RoundTo(d, p))
  {
    hide *;
    FormatGIsExact(d, p);
    PrintExactIsRfc(RoundTo(d, p), p);
    PrintExactValue(RoundTo(d, p), p);
    RfcIsScannable(FormatG(d, p));
    NumeralMeans(FormatG(d, p));
  }

  lemma FormatGIsExact(d: Decimal, p: nat)
    requires p >= 1
    ensures FormatG(d, p) == PrintExact(RoundTo(d, p), p) && Normal(RoundTo(d, p))
  {
  }

  lemma RfcIsScannable(n: Numeral)
    requires RfcNumber(n)
    ensures Scannable(n) && |n.ip| >= 1
  {
  }

  /** "%.<p>g" prints a number than which no number of at most p digits is nearer. */
  lemma PrintedIsNearest(d: Decimal, p: nat, x: Decimal)
    requires p >= 1 && Abs(x.m) < Pow10(p)
    ensures Distance(Reading(FormatG(d, p)), RealOf(d)) <= Distance(RealOf(x), RealOf(d))
  {
    hide *;
    PrintedMeans(d, p);
    NearestOfAll(d, p, x);
  }

  /** `x` has its leading digit at 10^e. */
  ghost predicate InDecade(x: real, e: int) {
    TenTo(e) <= Size(x) < TenTo(e + 1)
  }

  lemma OneDecade(x: real, a: int, b: int)
    requires InDecade(x, a) && InDecade(x, b)
    ensures a == b
  {
    hide TenTo;
    TenToMonotone(a + 1, b);
    TenToMonotone(b + 1, a);
  }

  /** The layout with an exponent: one digit in front, 'e', a sign, and at least two digits. */
  ghost predicate Scientific(n: Numeral, e: int) {
    && |n.ip| == 1 && n.ip[0] != '0' as int
    && n.ex.Exponent?
    && n.ex.marker == 'e' as int
    && n.ex.sign == [if e < 0 then '-' as int else '+' as int]
    && |n.ex.digits| >= 2 && (|n.ex.digits| > 2 ==> n.ex.digits[0] != '0' as int)
    && DigitsValue(n.ex.digits) == Abs(e)
  }

  /**
   * The layout of "%g": an exponent is written if and only if the rounded number is below 10^-4 or
   * takes more than p digits, and no zeros stand at the end of a fraction.
   */
  lemma PrintedLayout(d: Decimal, p: nat, e: int)
    requires p >= 1 && InDecade(RealOf(RoundTo(d, p)), e)
    ensures var n := FormatG(d, p);
            && Scannable(n)
            && (n.neg <==> RealOf(RoundTo(d, p)) < 0.0)
            && |n.ip| >= 1 && (|n.ip| > 1 ==> n.ip[0] != '0' as int)
            && (if -4 <= e < p then n.ex == NoExponent else Scientific(n, e))
            && (n.point <==> n.fp != [])
            && (n.fp != [] ==> n.fp[|n.fp| - 1] != '0' as int)
  {
    var r := RoundTo(d, p);
    NotZero(r, e);
    SignOf(r);
    LeadingExponentMeans(r);
    OneDecade(RealOf(r), e, LeadingExponent(r));
    hide TenTo, RealOf, RoundTo;
    PrintExactIsRfc(r, p);
    RfcIsScannable(PrintExact(r, p));
    ExactLayout(r, p);
  }

  lemma NotZero(r: Decimal, e: int)
    requires InDecade(RealOf(r), e)
    ensures r.m != 0
  {
  }

  lemma ExactLayout(r: Decimal, p: nat)
    requires Normal(r) && r.m != 0 && p >= 1
    ensures var n, e := PrintExact(r, p), LeadingExponent(r);
            && (n.neg <==> r.m < 0)
            && |n.ip| >= 1 && (|n.ip| > 1 ==> n.ip[0] != '0' as int)
            && (if -4 <= e < p then n.ex == NoExponent else Scientific(n, e))
            && (n.point <==> n.fp != [])
            && (n.fp != [] ==> n.fp[|n.fp| - 1] != '0' as int)
  {
    hide Digits, TwoDigits, DigitsValue, AllDigits, Pow10;
    LastOfDigits(Abs(r.m));
    ExponentDigits(Abs(LeadingExponent(r)));
    var n := PrintExact(r, p);
    if n.ex.NoExponent? && n.fp != [] {
      var ds := Digits(Abs(r.m));
      assert n.fp[|n.fp| - 1] == ds[|ds| - 1];
    }
  }

  lemma LastOfDigits(m: nat)
    requires m % 10 != 0
    ensures var ds := Digits(m); ds[0] != '0' as int && ds[|ds| - 1] != '0' as int
  {
  }

  lemma ExponentDigits(x: nat)
    ensures var ds := TwoDigits(x); |ds| > 2 ==> ds[0] != '0' as int
  {
    if x < 10 {
      DigitsCount(x, 1);
    }
  }

  /** Zero is printed as "0". */
  lemma ZeroPrinted(d: Decimal, p: nat)
    requires p >= 1 && d.m == 0
    ensures NumeralText(FormatG(d, p)) == ['0' as int]
  {
  }
}
