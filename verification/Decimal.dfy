/**
 * Exact decimal numbers, standing in for IEEE doubles, with the two conversions the
 * JSON code needs: printing in the style of "%.<p>g" and scanning decimal text.
 */
module Decimals {
  import opened Bytes

  const DOT: byte := 46
  const MINUS: byte := 45
  const PLUS: byte := 43
  const ZERO: byte := 48

  // ----- powers of ten and digit strings -----

  function Pow10(k: nat): (p: nat)
    ensures p >= 1
  {
    if k == 0 then 1 else 10 * Pow10(k - 1)
  }

  lemma {:induction false} Pow10Add(a: nat, b: nat)
    ensures Pow10(a + b) == Pow10(a) * Pow10(b)
  {
    if a == 0 {
    } else {
      Pow10Add(a - 1, b);
    }
  }

  predicate IsDigit(b: byte) {
    48 <= b <= 57
  }

  ghost predicate AllDigits(ds: bytes) {
    forall k :: 0 <= k < |ds| ==> IsDigit(ds[k])
  }

  /** The number a digit string denotes, most significant digit first. */
  function DigitsValue(ds: bytes): int {
    if |ds| == 0 then 0 else 10 * DigitsValue(ds[..|ds| - 1]) + ds[|ds| - 1] - 48
  }

  lemma {:induction false} DigitsValueConcat(a: bytes, b: bytes)
    ensures DigitsValue(a + b) == DigitsValue(a) * Pow10(|b|) + DigitsValue(b)
  {
    if |b| == 0 {
      assert a + b == a;
    } else {
      var init := b[..|b| - 1];
      assert (a + b)[..|a + b| - 1] == a + init;
      DigitsValueConcat(a, init);
      TenTimes(DigitsValue(a), Pow10(|init|));
    }
  }

  lemma TenTimes(x: int, y: int)
    ensures x * (10 * y) == 10 * (x * y)
  {
  }

  /** The decimal digits of a natural number, without leading zeros. */
  function Digits(n: nat): (ds: bytes)
    ensures |ds| >= 1
    ensures AllDigits(ds)
    ensures n > 0 ==> ds[0] != ZERO
    ensures n == 0 ==> ds == [ZERO]
    ensures DigitsValue(ds) == n
  {
    if n < 10 then [ZERO + n] else
      var ds := Digits(n / 10) + [ZERO + n % 10];
      assert ds[..|ds| - 1] == Digits(n / 10);
      ds
  }

  lemma {:induction false} DigitsCount(n: nat, p: nat)
    requires p >= 1
    ensures |Digits(n)| <= p <==> n < Pow10(p)
  {
    if n >= 10 {
      if p == 1 {
        assert Pow10(1) == 10;
      } else {
        DigitsCount(n / 10, p - 1);
      }
    } else {
      assert Pow10(p) == 10 * Pow10(p - 1);
    }
  }

  function Zeros(k: nat): (ds: bytes)
    ensures |ds| == k && AllDigits(ds)
  {
    seq(k, _ => ZERO)
  }

  lemma {:induction false} ZerosValue(k: nat)
    ensures DigitsValue(Zeros(k)) == 0
  {
    if k == 0 {
    } else {
      assert Zeros(k)[..k - 1] == Zeros(k - 1);
      ZerosValue(k - 1);
    }
  }

  // ----- decimals -----

  /** The number m * 10^e. */
  datatype Decimal = Decimal(m: int, e: int)

  /** Each number has one normal form: the mantissa has no trailing zero. */
  predicate Normal(d: Decimal) {
    if d.m == 0 then d.e == 0 else d.m % 10 != 0
  }

  function Normalize(m: int, e: int): (d: Decimal)
    ensures Normal(d)
    decreases if m < 0 then -m else m
  {
    if m == 0 then Decimal(0, 0)
    else if m % 10 == 0 then Normalize(m / 10, e + 1)
    else Decimal(m, e)
  }

  lemma {:induction false} NormalizeShift(m: int, e: int, k: nat)
    ensures Normalize(m * Pow10(k), e) == Normalize(m, e + k)
    decreases k
  {
    if k == 0 {
    } else {
      var shifted := m * Pow10(k - 1);
      assert m * Pow10(k) == 10 * shifted;
      NormalizeShift(m, e + 1, k - 1);
    }
  }

  function FromInt(i: int): (d: Decimal)
    ensures Normal(d)
  {
    Normalize(i, 0)
  }

  /** A decimal is an integer when its exponent is not negative (in normal form). */
  predicate IsInteger(d: Decimal) {
    d.e >= 0
  }

  function ToInt(d: Decimal): int
    requires IsInteger(d)
  {
    d.m * Pow10(d.e)
  }

  lemma {:induction false} NormalizeValue(m: int, e: nat)
    ensures var d := Normalize(m, e); d.e >= 0 && d.m * Pow10(d.e) == m * Pow10(e)
    decreases if m < 0 then -m else m
  {
    if m != 0 && m % 10 == 0 {
      NormalizeValue(m / 10, e + 1);
      assert Pow10(e + 1) == 10 * Pow10(e);
      assert m / 10 * (10 * Pow10(e)) == m * Pow10(e);
    } else {
    }
  }

  /** Integers embed into the decimals, and come back. */
  lemma IntegersEmbed(i: int)
    ensures IsInteger(FromInt(i)) && ToInt(FromInt(i)) == i
  {
    NormalizeValue(i, 0);
  }

  lemma FromIntOfToInt(d: Decimal)
    requires Normal(d) && IsInteger(d)
    ensures FromInt(ToInt(d)) == d
  {
    NormalizeShift(d.m, 0, d.e);
  }

  // ----- numerals: the shape of decimal text -----

  datatype Exponent = NoExponent | Exponent(marker: byte, sign: bytes, digits: bytes)
  datatype Numeral = Numeral(neg: bool, ip: bytes, point: bool, fp: bytes, ex: Exponent)

  function ExponentText(ex: Exponent): bytes {
    match ex
    case NoExponent => []
    case Exponent(marker, sign, digits) => [marker] + sign + digits
  }

  function FractionText(n: Numeral): bytes {
    if n.point then [DOT] + n.fp else []
  }

  function SignText(neg: bool): bytes {
    if neg then [MINUS] else []
  }

  function NumeralText(n: Numeral): bytes {
    SignText(n.neg) + (n.ip + (FractionText(n) + ExponentText(n.ex)))
  }

  function ExponentValue(ex: Exponent): int {
    match ex
    case NoExponent => 0
    case Exponent(_, sign, digits) =>
      if sign == [MINUS] then -DigitsValue(digits) else DigitsValue(digits)
  }

  function NumeralValue(n: Numeral): (d: Decimal)
    ensures Normal(d)
  {
    var m := DigitsValue(n.ip + n.fp);
    Normalize(if n.neg then -m else m, ExponentValue(n.ex) - |n.fp|)
  }

  ghost predicate ExponentOk(ex: Exponent) {
    ex.Exponent? ==>
      && (ex.marker == 101 || ex.marker == 69)
      && (ex.sign == [] || ex.sign == [PLUS] || ex.sign == [MINUS])
      && |ex.digits| >= 1
      && AllDigits(ex.digits)
  }

  /** Decimal text in the sense of strtod: some digit, and a well formed exponent if any. */
  ghost predicate Scannable(n: Numeral) {
    && AllDigits(n.ip)
    && AllDigits(n.fp)
    && (!n.point ==> n.fp == [])
    && |n.ip| + |n.fp| >= 1
    && ExponentOk(n.ex)
  }

  /** The numbers of section 6 of RFC 8259. */
  ghost predicate RfcNumber(n: Numeral) {
    && Scannable(n)
    && |n.ip| >= 1
    && (|n.ip| > 1 ==> n.ip[0] != ZERO)
    && (n.point ==> |n.fp| >= 1)
  }

  // ----- printing: "%.<p>g" -----

  lemma DivisionLaw(m: nat, unit: nat)
    requires unit >= 1
    ensures m / unit >= 0
    ensures m == unit * (m / unit) + m % unit
    ensures 0 <= m % unit < unit
  {
  }

  /** Division to nearest, half to even: the error is at most half a unit. */
  function DivideHalfEven(m: nat, unit: nat): (r: nat)
    requires unit >= 1
    ensures -(unit as int) <= 2 * (unit * r - m) <= unit
    ensures 2 * (unit * r - m) == unit || 2 * (m - unit * r) == unit ==> r % 2 == 0
  {
    DivisionLaw(m, unit);
    var q: nat := m / unit;
    var rest: nat := m % unit;
    assert unit * (q + 1) == unit * q + unit;
    if 2 * rest > unit || (2 * rest == unit && q % 2 == 1) then q + 1 else q
  }

  /** Rounds a mantissa to `p` significant digits. */
  function RoundMantissa(m: nat, p: nat): (r: nat)
    requires p >= 1
  {
    var n := |Digits(m)|;
    if n <= p then m else DivideHalfEven(m, Pow10(n - p))
  }

  function Abs(i: int): nat {
    if i < 0 then -i else i
  }

  function RoundTo(d: Decimal, p: nat): (r: Decimal)
    requires p >= 1
    ensures Normal(r)
  {
    var n := |Digits(Abs(d.m))|;
    var q: int := RoundMantissa(Abs(d.m), p);
    Normalize(if d.m < 0 then -q else q, if n <= p then d.e else d.e + n - p)
  }

  /** The decimal exponent of the leading digit. */
  function LeadingExponent(d: Decimal): int {
    d.e + |Digits(Abs(d.m))| - 1
  }

  function TwoDigits(x: nat): (ds: bytes)
    ensures AllDigits(ds) && |ds| >= 2
    ensures DigitsValue(ds) == x
  {
    if x < 10 then
      DigitsValueConcat([ZERO], Digits(x));
      [ZERO] + Digits(x)
    else
      DigitsCount(x, 1);
      Digits(x)
  }

  /** The numeral "%.<p>g" prints for a number that already has at most p digits. */
  function PrintExact(d: Decimal, p: nat): Numeral
  {
    var ds := Digits(Abs(d.m));
    var n := |ds|;
    var x := LeadingExponent(d);
    var neg := d.m < 0;
    if -4 <= x < p then
      if d.e >= 0 then Numeral(neg, ds + Zeros(d.e), false, [], NoExponent)
      else if x >= 0 then Numeral(neg, ds[..x + 1], true, ds[x + 1..], NoExponent)
      else Numeral(neg, [ZERO], true, Zeros(-x - 1) + ds, NoExponent)
    else
      Numeral(neg, ds[..1], n > 1, ds[1..],
              Exponent(101, if x < 0 then [MINUS] else [PLUS], TwoDigits(Abs(x))))
  }

  function FormatG(d: Decimal, p: nat): Numeral
    requires p >= 1
  {
    PrintExact(RoundTo(d, p), p)
  }

  lemma PrintExactIsRfc(d: Decimal, p: nat)
    requires Normal(d)
    ensures RfcNumber(PrintExact(d, p))
  {
  }

  lemma PaddedValue(ds: bytes, d: Decimal)
    requires Normal(d) && d.e >= 0 && ds == Digits(Abs(d.m))
    ensures NumeralValue(Numeral(d.m < 0, ds + Zeros(d.e), false, [], NoExponent)) == d
  {
    DigitsValueConcat(ds, Zeros(d.e));
    ZerosValue(d.e);
    assert ds + Zeros(d.e) + [] == ds + Zeros(d.e);
    var m: int := Abs(d.m);
    assert (-m) * Pow10(d.e) == -(m * Pow10(d.e));
    NormalizeShift(d.m, 0, d.e);
  }

  lemma LeadingZerosValue(ds: bytes, k: nat)
    ensures DigitsValue([ZERO] + (Zeros(k) + ds)) == DigitsValue(ds)
  {
    assert [ZERO] + (Zeros(k) + ds) == Zeros(k + 1) + ds;
    DigitsValueConcat(Zeros(k + 1), ds);
    ZerosValue(k + 1);
  }

  lemma NumeralValueIs(n: Numeral, d: Decimal)
    requires Normal(d) && DigitsValue(n.ip + n.fp) == Abs(d.m) && n.neg == (d.m < 0)
    requires ExponentValue(n.ex) - |n.fp| == d.e
    ensures NumeralValue(n) == d
  {
  }

  /** Printing loses nothing when the number fits the precision. */
  lemma PrintExactValue(d: Decimal, p: nat)
    requires Normal(d)
    ensures NumeralValue(PrintExact(d, p)) == d
  {
    hide Pow10, DigitsValue, Normalize, Digits, NumeralValue;
    var n := PrintExact(d, p);
    var ds := Digits(Abs(d.m));
    var x := LeadingExponent(d);
    if -4 <= x < p && d.e >= 0 {
      PaddedValue(ds, d);
    } else if -4 <= x < p && x >= 0 {
      assert ds[..x + 1] + ds[x + 1..] == ds;
      NumeralValueIs(n, d);
    } else if -4 <= x < p {
      LeadingZerosValue(ds, -x - 1);
      NumeralValueIs(n, d);
    } else {
      assert ds[..1] + ds[1..] == ds;
      NumeralValueIs(n, d);
    }
  }

  lemma {:induction false} NormalizeDigits(m: int, e: int, p: nat)
    requires p >= 1 && Abs(m) <= Pow10(p)
    ensures |Digits(Abs(Normalize(m, e).m))| <= p
    decreases Abs(m)
  {
    if m == 0 {
    } else if m % 10 == 0 {
      assert Abs(m / 10) <= Abs(m);
      NormalizeDigits(m / 10, e + 1, p);
    } else {
      assert Pow10(p) == 10 * Pow10(p - 1);
      assert Abs(m) != Pow10(p);
      DigitsCount(Abs(m), p);
    }
  }

  lemma RoundMantissaBound(m: nat, p: nat)
    requires p >= 1
    ensures RoundMantissa(m, p) <= Pow10(p)
  {
    var n := |Digits(m)|;
    if n <= p {
      DigitsCount(m, p);
    } else {
      DigitsCount(m, n);
      Pow10Add(n - p, p);
      NearestBound(m, Pow10(n - p), Pow10(p));
    }
  }

  lemma NearestBound(m: nat, unit: nat, b: nat)
    requires unit >= 1 && m < unit * b
    ensures DivideHalfEven(m, unit) <= b
  {
    var r := DivideHalfEven(m, unit);
    assert unit * (b + 1) == unit * b + unit;
    if r > b {
      ProductMonotone(unit, b + 1, r);
      assert false;
    }
  }

  lemma ProductMonotone(d: nat, b: nat, q: nat)
    requires b <= q
    ensures d * b <= d * q
  {
  }

  /** Rounding really produces at most p digits, and is the identity on such numbers. */
  lemma RoundToFits(d: Decimal, p: nat)
    requires p >= 1
    ensures |Digits(Abs(RoundTo(d, p).m))| <= p
    ensures Normal(d) && |Digits(Abs(d.m))| <= p ==> RoundTo(d, p) == d
  {
    RoundMantissaBound(Abs(d.m), p);
    var q: int := RoundMantissa(Abs(d.m), p);
    var n := |Digits(Abs(d.m))|;
    NormalizeDigits(if d.m < 0 then -q else q, if n <= p then d.e else d.e + n - p, p);
  }

  lemma {:induction false} NormalizeKeepsMagnitude(m: int, e: int)
    requires m != 0
    ensures LeadingExponent(Normalize(m, e)) == e + |Digits(Abs(m))| - 1
    decreases Abs(m)
  {
    if m % 10 == 0 {
      assert Abs(m / 10) == Abs(m) / 10;
      NormalizeKeepsMagnitude(m / 10, e + 1);
    } else {
    }
  }

  /** The decimal exponents of the finite doubles. */
  predicate DoubleRange(d: Decimal) {
    -324 <= LeadingExponent(d) <= 308
  }

  lemma RoundToMagnitude(d: Decimal, p: nat)
    requires 1 <= p <= 14 && DoubleRange(d)
    ensures -400 <= LeadingExponent(RoundTo(d, p)) <= 400
  {
    RoundedDigits(Abs(d.m), p);
    hide Digits, RoundMantissa;
    var n := |Digits(Abs(d.m))|;
    var q: int := RoundMantissa(Abs(d.m), p);
    if q != 0 {
      NormalizeKeepsMagnitude(if d.m < 0 then -q else q, if n <= p then d.e else d.e + n - p);
      hide Normalize;
    }
  }

  lemma RoundedDigits(m: nat, p: nat)
    requires p >= 1
    ensures |Digits(RoundMantissa(m, p))| <= p + 1
  {
    RoundMantissaBound(m, p);
    assert Pow10(p + 1) == 10 * Pow10(p);
    DigitsCount(RoundMantissa(m, p), p + 1);
  }

  lemma TwoDigitsLength(x: nat)
    requires x < 1000
    ensures |TwoDigits(x)| <= 3
  {
    DigitsCount(x, 3);
    assert Pow10(3) == 10 * Pow10(2) && Pow10(2) == 10 * Pow10(1) && Pow10(1) == 10;
  }

  lemma PrintExactLength(d: Decimal, p: nat)
    requires 1 <= p <= 14 && |Digits(Abs(d.m))| <= p && -400 <= LeadingExponent(d) <= 400
    ensures |NumeralText(PrintExact(d, p))| <= 21
  {
    TwoDigitsLength(Abs(LeadingExponent(d)));
    var n := PrintExact(d, p);
    assert |NumeralText(n)| == |SignText(n.neg)| + |n.ip| + |FractionText(n)| + |ExponentText(n.ex)|;
  }

  /** "%.14g" prints at most 21 characters for a finite double. */
  lemma FormatGLength(d: Decimal, p: nat)
    requires 1 <= p <= 14 && DoubleRange(d)
    ensures |NumeralText(FormatG(d, p))| <= 21
  {
    RoundToFits(d, p);
    RoundToMagnitude(d, p);
    PrintExactLength(RoundTo(d, p), p);
  }

  // ----- scanning: the decimal part of strtod -----

  /** The digits standing at `i`, as many as there are. */
  function DigitRun(s: bytes, i: nat): (ds: bytes)
    ensures AllDigits(ds)
    ensures i <= |s| ==> i + |ds| <= |s|
    ensures i > |s| ==> ds == []
    decreases |s| - i
  {
    if i < |s| && IsDigit(s[i]) then [s[i]] + DigitRun(s, i + 1) else []
  }

  function ScanExponent(s: bytes, i: nat): (ex: Exponent)
    ensures ExponentOk(ex)
  {
    if At(s, i) == 101 || At(s, i) == 69 then
      var sign := if At(s, i + 1) == PLUS || At(s, i + 1) == MINUS then [At(s, i + 1)] else [];
      var digits := DigitRun(s, i + 1 + |sign|);
      if |digits| >= 1 then Exponent(s[i], sign, digits) else NoExponent
    else NoExponent
  }

  datatype Scan = NoNumber | Scanned(plus: bool, numeral: Numeral)

  /** Scans one number at `i`, with `point` for the decimal point, as far as it goes. */
  function ScanNumber(s: bytes, i: nat, point: byte): Scan
    requires i <= |s| && point != 0
  {
    var signed := At(s, i) == MINUS || At(s, i) == PLUS;
    var j0 := if signed then i + 1 else i;
    var ip := DigitRun(s, j0);
    var j1 := j0 + |ip|;
    var dotted := At(s, j1) == point;
    var fp := if dotted then DigitRun(s, j1 + 1) else [];
    var j2 := if dotted then j1 + 1 + |fp| else j1;
    if |ip| + |fp| == 0 then NoNumber
    else Scanned(At(s, i) == PLUS, Numeral(At(s, i) == MINUS, ip, dotted, fp, ScanExponent(s, j2)))
  }

  function ScanLength(r: Scan): nat
    requires r.Scanned?
  {
    (if r.plus then 1 else 0) + |NumeralText(r.numeral)|
  }

  lemma {:induction false} DigitRunSound(s: bytes, i: nat)
    requires i <= |s|
    ensures HasAt(s, i, DigitRun(s, i))
    decreases |s| - i
  {
    if i < |s| && IsDigit(s[i]) {
      var rest := DigitRun(s, i + 1);
      DigitRunSound(s, i + 1);
      assert forall k :: 0 <= k < |[s[i]] + rest| ==> ([s[i]] + rest)[k] == if k == 0 then s[i] else rest[k - 1];
    } else {
    }
  }

  lemma ScanExponentSound(s: bytes, i: nat)
    requires i <= |s|
    ensures HasAt(s, i, ExponentText(ScanExponent(s, i)))
  {
    hide ScanExponent, HasAt, DigitRun, AllDigits;
    var ex := ScanExponent(s, i);
    if ex.Exponent? {
      MarkerAndSign(s, i);
      DigitRunSound(s, i + 1 + |ex.sign|);
      HasAtConcat(s, i, [ex.marker], ex.sign);
      HasAtConcat(s, i, [ex.marker] + ex.sign, ex.digits);
    } else {
      HasAtOne(s, i);
    }
  }

  lemma MarkerAndSign(s: bytes, i: nat)
    requires i <= |s| && ScanExponent(s, i).Exponent?
    ensures var ex := ScanExponent(s, i);
            && HasAt(s, i, [ex.marker]) && HasAt(s, i + 1, ex.sign)
            && ex.digits == DigitRun(s, i + 1 + |ex.sign|) && i + 1 + |ex.sign| <= |s|
  {
    hide DigitRun;
  }

  /** A numeral stands at `i` exactly when its four parts stand one after the other. */
  ghost predicate PartsAt(s: bytes, i: nat, n: Numeral) {
    var j0 := i + |SignText(n.neg)|;
    var j1 := j0 + |n.ip|;
    var j2 := j1 + |FractionText(n)|;
    && HasAt(s, i, SignText(n.neg))
    && HasAt(s, j0, n.ip)
    && HasAt(s, j1, FractionText(n))
    && HasAt(s, j2, ExponentText(n.ex))
  }

  lemma NumeralAtParts(s: bytes, i: nat, n: Numeral)
    ensures HasAt(s, i, NumeralText(n)) <==> PartsAt(s, i, n)
    ensures |NumeralText(n)| == |SignText(n.neg)| + |n.ip| + |FractionText(n)| + |ExponentText(n.ex)|
  {
    HasAtFour(s, i, SignText(n.neg), n.ip, FractionText(n), ExponentText(n.ex));
  }

  lemma ScannedFields(s: bytes, i: nat, n: Numeral, j0: nat, j1: nat)
    requires i <= |s| && ScanNumber(s, i, DOT).Scanned? && n == ScanNumber(s, i, DOT).numeral
    requires j0 == (if At(s, i) == MINUS || At(s, i) == PLUS then i + 1 else i) && j1 == j0 + |n.ip|
    ensures Scannable(n)
    ensures j0 <= |s| && n.ip == DigitRun(s, j0)
    ensures n.point <==> At(s, j1) == DOT
    ensures n.point ==> n.fp == DigitRun(s, j1 + 1)
    ensures n.ex == ScanExponent(s, j1 + |FractionText(n)|)
    ensures n.neg <==> At(s, i) == MINUS
  {
    assert AllDigits([]);
    hide DigitRun, ScanExponent, AllDigits, ExponentOk;
  }

  lemma FractionSound(s: bytes, j1: nat, n: Numeral)
    requires j1 <= |s| && (n.point ==> At(s, j1) == DOT && n.fp == DigitRun(s, j1 + 1))
    ensures HasAt(s, j1, FractionText(n))
  {
    if n.point {
      DigitRunSound(s, j1 + 1);
      HasAtConcat(s, j1, [DOT], n.fp);
    }
  }

  /** What the scanner reports really stands in the text. */
  lemma ScanSound(s: bytes, i: nat)
    requires i <= |s| && ScanNumber(s, i, DOT).Scanned?
    ensures var r := ScanNumber(s, i, DOT);
            && Scannable(r.numeral)
            && r.plus == (At(s, i) == PLUS)
            && r.numeral.neg == (At(s, i) == MINUS)
            && HasAt(s, if r.plus then i + 1 else i, NumeralText(r.numeral))
  {
    hide ScanExponent, DigitRun, ExponentText, FractionText, Scannable;
    var n := ScanNumber(s, i, DOT).numeral;
    var j0 := if At(s, i) == MINUS || At(s, i) == PLUS then i + 1 else i;
    var j1 := j0 + |n.ip|;
    ScannedFields(s, i, n, j0, j1);
    DigitRunSound(s, j0);
    FractionSound(s, j1, n);
    ScanExponentSound(s, j1 + |FractionText(n)|);
    NumeralAtParts(s, if At(s, i) == PLUS then i + 1 else i, n);
  }

  lemma {:induction false} DigitRunOver(s: bytes, i: nat, ds: bytes)
    requires HasAt(s, i, ds) && AllDigits(ds) && !IsDigit(At(s, i + |ds|))
    ensures DigitRun(s, i) == ds
    decreases |ds|
  {
    if |ds| == 0 {
    } else {
      FirstOf(s, i, ds);
      assert ds == [ds[0]] + ds[1..];
      HasAtConcat(s, i, [ds[0]], ds[1..]);
      DigitRunOver(s, i + 1, ds[1..]);
    }
  }

  /** A byte that cannot continue a number: the scanner must stop in front of it. */
  predicate EndsNumber(b: byte) {
    !IsDigit(b) && b != DOT && b != 101 && b != 69
  }

  lemma ScanExponentComplete(s: bytes, i: nat, ex: Exponent)
    requires ExponentOk(ex) && HasAt(s, i, ExponentText(ex))
    requires EndsNumber(At(s, i + |ExponentText(ex)|))
    ensures ScanExponent(s, i) == ex
  {
    if ex.Exponent? {
      var k := i + 1 + |ex.sign|;
      HasAtConcat(s, i, [ex.marker] + ex.sign, ex.digits);
      HasAtConcat(s, i, [ex.marker], ex.sign);
      FirstOf(s, i, [ex.marker]);
      DigitRunOver(s, k, ex.digits);
      if |ex.sign| == 1 {
        FirstOf(s, i + 1, ex.sign);
      } else {
        FirstOf(s, k, ex.digits);
      }
    }
  }

  lemma ScanFraction(s: bytes, j1: nat, n: Numeral)
    requires AllDigits(n.fp) && (!n.point ==> n.fp == [])
    requires HasAt(s, j1, FractionText(n))
    requires var c := At(s, j1 + |FractionText(n)|); !IsDigit(c) && (!n.point ==> c != DOT)
    ensures (At(s, j1) == DOT) == n.point
    ensures n.point ==> DigitRun(s, j1 + 1) == n.fp
  {
    if n.point {
      FirstOf(s, j1, FractionText(n));
      HasAtConcat(s, j1, [DOT], n.fp);
      DigitRunOver(s, j1 + 1, n.fp);
    }
  }

  lemma ScanSign(s: bytes, i: nat, n: Numeral)
    requires Scannable(n) && PartsAt(s, i, n)
    ensures (At(s, i) == MINUS) == n.neg && At(s, i) != PLUS
  {
    if n.neg {
      FirstOf(s, i, SignText(n.neg));
    } else if |n.ip| > 0 {
      FirstOf(s, i, n.ip);
    } else {
      FirstOf(s, i, FractionText(n));
    }
  }

  lemma ScanFromParts(s: bytes, i: nat, n: Numeral, j0: nat, j1: nat, j2: nat)
    requires j0 == i + |SignText(n.neg)| && j1 == j0 + |n.ip| && j2 == j1 + |FractionText(n)|
    requires Scannable(n) && PartsAt(s, i, n)
    requires EndsNumber(At(s, j2 + |ExponentText(n.ex)|))
    ensures ScanNumber(s, i, DOT) == Scanned(false, n)
  {
    hide DigitRun, ScanExponent, HasAt;
    var ends := At(s, j2);
    ScanExponentComplete(s, j2, n.ex);
    assert !IsDigit(ends) && ends != DOT by {
      if n.ex.Exponent? {
        FirstOf(s, j2, ExponentText(n.ex));
      }
    }
    ScanFraction(s, j1, n);
    assert !IsDigit(At(s, j1));
    DigitRunOver(s, j0, n.ip);
    ScanSign(s, i, n);
  }

  /** Every numeral followed by a byte that ends it is scanned back, whole and exactly. */
  lemma ScanComplete(s: bytes, i: nat, n: Numeral)
    requires Scannable(n) && HasAt(s, i, NumeralText(n))
    requires EndsNumber(At(s, i + |NumeralText(n)|))
    ensures ScanNumber(s, i, DOT) == Scanned(false, n)
  {
    NumeralAtParts(s, i, n);
    var j0 := i + |SignText(n.neg)|;
    var j1 := j0 + |n.ip|;
    ScanFromParts(s, i, n, j0, j1, j1 + |FractionText(n)|);
  }
}
