/**
 * The locale shim: C's strtod and snprintf write and read the decimal point of the locale,
 * JSON always uses '.'.
 */
module Fpconv {
  import opened Bytes
  import opened Decimals

  /** FPCONV_G_FMT_BUFSIZE. */
  const BUFSIZE: nat := 32

  predicate IsSpace(b: byte) {
    b == 32 || 9 <= b <= 13
  }

  predicate ValidNumberCharacter(b: byte) {
    || IsDigit(b) || b == MINUS || b == PLUS || b == DOT
    || 97 <= b <= 121 || 65 <= b <= 89
  }

  /** The decimal points a locale may have: '.', or a byte no number contains. */
  predicate LocalePoint(point: byte) {
    point == DOT || (point != 0 && !ValidNumberCharacter(point))
  }

  // ----- the C library, for decimal text -----

  function SkipSpaces(s: bytes, i: nat): (j: nat)
    requires i <= |s|
    ensures i <= j <= |s|
    decreases |s| - i
  {
    if i < |s| && IsSpace(s[i]) then SkipSpaces(s, i + 1) else i
  }

  /** strtod in a locale: the value, and the position after the number (`i` if there is none). */
  function Strtod(s: bytes, i: nat, point: byte): (r: (Decimal, nat))
    requires i <= |s| && point != 0
  {
    var w := SkipSpaces(s, i);
    var scan := ScanNumber(s, w, point);
    if scan.NoNumber? then (Decimal(0, 0), i)
    else (NumeralValue(scan.numeral), w + ScanLength(scan))
  }

  function Translate(b: byte, from: byte, to: byte): byte {
    if b == from then to else b
  }

  /** snprintf("%.<p>g") in a locale. */
  function PrintG(d: Decimal, precision: nat, point: byte): (t: bytes)
    requires precision >= 1
    ensures |t| == |NumeralText(FormatG(d, precision))|
  {
    var t := NumeralText(FormatG(d, precision));
    seq(|t|, k requires 0 <= k < |t| => Translate(t[k], DOT, point))
  }

  // ----- scanning a copy with the point replaced -----

  /** The position of the first '.', or the length if there is none: strchr. */
  function FirstDot(u: bytes): (f: nat)
    ensures f <= |u|
    ensures forall k :: 0 <= k < f ==> u[k] != DOT
    ensures f < |u| ==> u[f] == DOT
  {
    if |u| == 0 || u[0] == DOT then 0 else
      var f := FirstDot(u[1..]);
      assert forall k :: 1 <= k < f + 1 ==> u[k] == u[1..][k - 1];
      f + 1
  }

  function Localize(u: bytes, point: byte): (t: bytes)
    ensures |t| == |u|
  {
    if FirstDot(u) < |u| then u[FirstDot(u) := point] else u
  }

  /** `u` is the longest run of number characters at `i`. */
  ghost predicate NumberRun(s: bytes, i: nat, u: bytes) {
    && HasAt(s, i, u)
    && (forall k :: 0 <= k < |u| ==> ValidNumberCharacter(u[k]))
    && !ValidNumberCharacter(At(s, i + |u|))
  }

  /** A byte with no role in a decimal number. */
  predicate Foreign(b: byte) {
    !IsDigit(b) && b != MINUS && b != PLUS && b != DOT && b != 101 && b != 69
  }

  lemma LocalizedAt(s: bytes, i: nat, u: bytes, point: byte, k: nat)
    requires NumberRun(s, i, u) && LocalePoint(point) && point != DOT && k <= |u|
    ensures var a, b := At(s, i + k), At(Localize(u, point), k);
            a == b || (a == DOT && b == point) || (k == |u| && b == 0 && Foreign(a))
    ensures Foreign(point)
    ensures k < |u| ==> !IsSpace(At(s, i + k))
    ensures k < |u| && At(Localize(u, point), k) != point ==> !IsSpace(At(Localize(u, point), k))
    ensures k < |u| && s[i + k] != DOT ==> At(Localize(u, point), k) != point
    ensures At(Localize(u, point), k) == point ==> k < |u|
    ensures k <= FirstDot(u) && At(s, i + k) == DOT ==> At(Localize(u, point), k) == point
    ensures At(Localize(u, point), k) == point ==> At(s, i + k) == DOT
    ensures k < |u| ==> s[i + k] == u[k]
  {
  }

  lemma {:induction false} LocalizedDigits(s: bytes, i: nat, u: bytes, point: byte, k: nat)
    requires NumberRun(s, i, u) && LocalePoint(point) && point != DOT && k <= |u|
    ensures var ds := DigitRun(s, i + k);
            ds == DigitRun(Localize(u, point), k) && (k <= FirstDot(u) ==> k + |ds| <= FirstDot(u))
    decreases |u| - k
  {
    hide NumberRun, Localize, FirstDot, LocalePoint;
    LocalizedAt(s, i, u, point, k);
    if k < |u| && IsDigit(u[k]) {
      LocalizedDigits(s, i, u, point, k + 1);
    } else {
    }
  }

  lemma LocalizedExponent(s: bytes, i: nat, u: bytes, point: byte, k: nat)
    requires NumberRun(s, i, u) && LocalePoint(point) && point != DOT && k <= |u|
    ensures ScanExponent(s, i + k) == ScanExponent(Localize(u, point), k)
  {
    hide NumberRun, Localize, DigitRun, LocalePoint;
    LocalizedAt(s, i, u, point, k);
    if k < |u| {
      LocalizedAt(s, i, u, point, k + 1);
      LocalizedDigits(s, i, u, point, k + 1);
      if k + 1 < |u| {
        LocalizedDigits(s, i, u, point, k + 2);
      }
    }
  }

  /** Scanning the localized copy is scanning the text, up to the shift of position. */
  lemma LocalizedScan(s: bytes, i: nat, u: bytes, point: byte)
    requires NumberRun(s, i, u) && LocalePoint(point) && point != DOT
    ensures ScanNumber(s, i, DOT) == ScanNumber(Localize(u, point), 0, point)
  {
    hide NumberRun, Localize, DigitRun, LocalePoint, ScanExponent, IsSpace, ValidNumberCharacter, FirstDot, AllDigits;
    var t := Localize(u, point);
    LocalizedAt(s, i, u, point, 0);
    var j0 := if At(t, 0) == MINUS || At(t, 0) == PLUS then 1 else 0;
    LocalizedDigits(s, i, u, point, j0);
    var j1 := j0 + |DigitRun(t, j0)|;
    LocalizedAt(s, i, u, point, j1);
    if At(t, j1) == point {
      LocalizedDigits(s, i, u, point, j1 + 1);
      LocalizedExponent(s, i, u, point, j1 + 1 + |DigitRun(t, j1 + 1)|);
    } else {
      LocalizedExponent(s, i, u, point, j1);
    }
  }

  /** The two ways through the shim's strtod, on the text and on the copy, agree. */
  lemma LocalizedStrtod(s: bytes, i: nat, u: bytes, point: byte)
    requires NumberRun(s, i, u) && LocalePoint(point) && point != DOT && |u| > 0
    requires !(IsSpace(point) && u[0] == DOT)
    ensures var there, here := Strtod(s, i, DOT), Strtod(Localize(u, point), 0, point);
            there == (here.0, i + here.1)
  {
    hide NumberRun, Localize, LocalePoint, ScanNumber, NumeralText, NumeralValue;
    LocalizedAt(s, i, u, point, 0);
    LocalizedScan(s, i, u, point);
  }

  lemma NoRunNoNumber(s: bytes, i: nat)
    requires i <= |s| && !ValidNumberCharacter(At(s, i)) && !IsSpace(At(s, i))
    ensures Strtod(s, i, DOT) == (Decimal(0, 0), i)
  {
  }

  // ----- a decimal point that is white space -----

  /** What the '.' parser makes of a '.' at `i`. */
  lemma ScanAtDot(s: bytes, i: nat)
    requires i < |s| && s[i] == DOT
    ensures var fp := DigitRun(s, i + 1);
            ScanNumber(s, i, DOT) ==
            if |fp| == 0 then NoNumber
            else Scanned(false, Numeral(false, [], true, fp, ScanExponent(s, i + 1 + |fp|)))
  {
    hide ScanExponent, DigitRun;
    NoDigits(s, i);
  }

  lemma NoDigits(s: bytes, i: nat)
    requires !IsDigit(At(s, i))
    ensures DigitRun(s, i) == []
  {
  }

  lemma SomeDigits(s: bytes, i: nat)
    requires IsDigit(At(s, i))
    ensures |DigitRun(s, i)| > 0
  {
  }

  /** What the foreign parser makes of the rest, where its point does not occur. */
  lemma ScanBehindDot(s: bytes, i: nat, u: bytes, point: byte)
    requires NumberRun(s, i, u) && LocalePoint(point) && point != DOT && |u| > 0 && u[0] == DOT
    ensures var t := Localize(u, point);
            var b := At(s, i + 1);
            var r := ScanNumber(t, 1, point);
            && (IsDigit(b) ==>
                  var fp := DigitRun(s, i + 1);
                  r == Scanned(false, Numeral(false, fp, false, [], ScanExponent(s, i + 1 + |fp|))))
            && (!IsDigit(b) ==>
                  (r.Scanned? <==> (b == PLUS || b == MINUS) && IsDigit(At(s, i + 2))))
  {
    hide NumberRun, ScanExponent, DigitRun, Localize, LocalePoint;
    var t := Localize(u, point);
    RestHasNoPoint(s, i, u, point);
    LocalizedAt(s, i, u, point, 1);
    var b := At(s, i + 1);
    if IsDigit(b) {
      SomeDigits(t, 1);
      LocalizedDigits(s, i, u, point, 1);
      LocalizedExponent(s, i, u, point, 1 + |DigitRun(t, 1)|);
    } else if (b == PLUS || b == MINUS) && |u| > 1 {
      LocalizedAt(s, i, u, point, 2);
      if IsDigit(At(s, i + 2)) {
        SomeDigits(t, 2);
      } else {
        NoDigits(t, 2);
      }
    } else {
      NoDigits(t, 1);
      assert |u| == 1 ==> !ValidNumberCharacter(b) by {
        RunEnds(s, i, u);
      }
    }
  }

  lemma RunEnds(s: bytes, i: nat, u: bytes)
    requires NumberRun(s, i, u)
    ensures i + |u| <= |s| && !ValidNumberCharacter(At(s, i + |u|))
  {
  }

  lemma RestHasNoPoint(s: bytes, i: nat, u: bytes, point: byte)
    requires NumberRun(s, i, u) && LocalePoint(point) && point != DOT && |u| > 0 && u[0] == DOT
    ensures forall k :: k >= 1 ==> At(Localize(u, point), k) != point
    ensures At(Localize(u, point), 0) == point && At(s, i) == DOT && i < |s|
    ensures |u| > 1 ==> !IsSpace(At(Localize(u, point), 1))
  {
    FirstOf(s, i, u);
  }

  ghost predicate AllZero(ds: bytes) {
    forall k :: 0 <= k < |ds| ==> ds[k] == ZERO
  }

  lemma {:induction false} ZeroDigits(ds: bytes)
    requires AllDigits(ds)
    ensures DigitsValue(ds) >= 0
    ensures DigitsValue(ds) == 0 <==> AllZero(ds)
    decreases |ds|
  {
    if |ds| == 0 {
    } else {
      ZeroDigits(ds[..|ds| - 1]);
    }
  }

  /** Moving the decimal point changes every number but zero. */
  lemma PointMatters(fp: bytes, ex: Exponent)
    requires AllDigits(fp) && |fp| >= 1
    ensures NumeralValue(Numeral(false, [], true, fp, ex)) == NumeralValue(Numeral(false, fp, false, [], ex)) <==>
            AllZero(fp)
  {
    hide Normalize, ExponentValue, AllZero, Digits, DigitsValue;
    ZeroDigits(fp);
    assert [] + fp == fp && fp + [] == fp;
    var m := DigitsValue(fp);
    if m == 0 {
      NormalizeZero(ExponentValue(ex));
      NormalizeZero(ExponentValue(ex) - |fp|);
    } else {
      NormalizeKeepsMagnitude(m, ExponentValue(ex));
      NormalizeKeepsMagnitude(m, ExponentValue(ex) - |fp|);
    }
  }

  lemma NormalizeZero(e: int)
    ensures Normalize(0, e) == Decimal(0, 0)
  {
  }

  /** No number stands behind the '.' at `i`, or only zeros do. */
  ghost predicate NothingBehindDot(s: bytes, i: nat) {
    if IsDigit(At(s, i + 1)) then AllZero(DigitRun(s, i + 1))
    else !((At(s, i + 1) == PLUS || At(s, i + 1) == MINUS) && IsDigit(At(s, i + 2)))
  }

  /** With white space for a point, a leading '.' of the copy is skipped. */
  lemma SpacePoint(s: bytes, i: nat, u: bytes, point: byte)
    requires NumberRun(s, i, u) && LocalePoint(point) && point != DOT && |u| > 0
    requires IsSpace(point) && u[0] == DOT
    ensures var there, here := Strtod(s, i, DOT), Strtod(Localize(u, point), 0, point);
            there == (here.0, i + here.1) <==> NothingBehindDot(s, i)
  {
    hide NumberRun, Localize, LocalePoint, ScanNumber, NumeralValue, DigitRun, ScanExponent, AllZero,
         ValidNumberCharacter, ExponentText;
    var t := Localize(u, point);
    RestHasNoPoint(s, i, u, point);
    RunEnds(s, i, u);
    assert SkipSpaces(t, 0) == 1;
    ScanAtDot(s, i);
    ScanBehindDot(s, i, u, point);
    if IsDigit(At(s, i + 1)) {
      SomeDigits(s, i + 1);
      var fp := DigitRun(s, i + 1);
      PointMatters(fp, ScanExponent(s, i + 1 + |fp|));
    } else {
      NoDigits(s, i + 1);
      if ScanNumber(t, 1, point).Scanned? {
        assert ScanLength(ScanNumber(t, 1, point)) >= 0;
      }
    }
  }

  // ----- the routines of the shim -----

  /** How many number characters stand at `i`. */
  function RunLength(s: bytes, i: nat): (n: nat)
    requires i <= |s|
    ensures i + n <= |s| && !ValidNumberCharacter(At(s, i + n))
    ensures forall k :: i <= k < i + n ==> ValidNumberCharacter(s[k])
    decreases |s| - i
  {
    if i < |s| && ValidNumberCharacter(s[i]) then 1 + RunLength(s, i + 1) else 0
  }

  method StrtodBufferSize(s: bytes, i: nat) returns (len: nat)
    requires i <= |s|
    ensures i + len <= |s| && !ValidNumberCharacter(At(s, i + len))
    ensures forall k :: i <= k < i + len ==> ValidNumberCharacter(s[k])
    ensures len == RunLength(s, i)
  {
    hide ValidNumberCharacter;
    var p := i;
    while p < |s| && ValidNumberCharacter(s[p])
      invariant i <= p <= |s|
      invariant forall k :: i <= k < p ==> ValidNumberCharacter(s[k])
      invariant RunLength(s, i) == p - i + RunLength(s, p)
    {
      p := p + 1;
    }
    len := p - i;
    NulIsNoNumber();
  }

  lemma NulIsNoNumber()
    ensures !ValidNumberCharacter(0)
  {
  }

  /** strchr(buf, '.'), then the replacement. */
  method ReplaceFirstDot(buf: array<byte>, len: nat, point: byte)
    requires len < buf.Length && buf[len] == 0 && (forall k :: 0 <= k < len ==> buf[k] != 0)
    modifies buf
    ensures buf[..len] == Localize(old(buf[..len]), point) && buf[len] == 0
  {
    var k := 0;
    ghost var u := buf[..len];
    while buf[k] != 0 && buf[k] != DOT
      invariant k <= FirstDot(u)
      decreases len - k
    {
      k := k + 1;
    }
    if buf[k] == DOT {
      buf[k] := point;
    }
  }

  /** What the shim returns: the value, and the end position. */
  function Shim(s: bytes, i: nat, point: byte): (Decimal, nat)
    requires i <= |s| && point != 0
  {
    var n := RunLength(s, i);
    if point == DOT then Strtod(s, i, DOT)
    else if n == 0 then (Decimal(0, 0), i)
    else
      var r := Strtod(Localize(s[i..i + n], point), 0, point);
      (r.0, i + r.1)
  }

  /** fpconv_strtod, at position `i` of the C string `s`. */
  method FpconvStrtod(s: bytes, i: nat, point: byte) returns (value: Decimal, end: nat)
    requires NulFree(s) && i <= |s| && LocalePoint(point)
    ensures (value, end) == Shim(s, i, point)
  {
    hide Strtod, Localize, RunLength;
    if point == DOT {
      var r := Strtod(s, i, point);
      return r.0, r.1;
    }
    var buflen := StrtodBufferSize(s, i);
    if buflen == 0 {
      return Decimal(0, 0), i;
    }
    var buf := new byte[buflen + 1];
    for k := 0 to buflen
      invariant forall h :: 0 <= h < k ==> buf[h] == s[i + h]
    {
      buf[k] := s[i + k];
    }
    buf[buflen] := 0;
    assert buf[..buflen] == s[i..i + buflen];
    ReplaceFirstDot(buf, buflen, point);
    var r := Strtod(buf[..buflen], 0, point);
    return r.0, i + r.1;
  }

  /** A decimal number starts at `i`: behind an optional sign, a digit or a '.' before one. */
  predicate NumberStarts(s: bytes, i: nat) {
    var j := if At(s, i) == MINUS || At(s, i) == PLUS then i + 1 else i;
    IsDigit(At(s, j)) || (At(s, j) == DOT && IsDigit(At(s, j + 1)))
  }

  lemma ScannedIfStarts(s: bytes, i: nat)
    requires i <= |s|
    ensures ScanNumber(s, i, DOT).Scanned? <==> NumberStarts(s, i)
  {
    hide ScanExponent;
    var j := if At(s, i) == MINUS || At(s, i) == PLUS then i + 1 else i;
    if IsDigit(At(s, j)) {
      SomeDigits(s, j);
    } else {
      NoDigits(s, j);
      if IsDigit(At(s, j + 1)) {
        SomeDigits(s, j + 1);
      } else {
        NoDigits(s, j + 1);
      }
    }
  }

  /** A condition on the bytes of the text: when the shim and the '.' parser agree. */
  ghost predicate Agrees(s: bytes, i: nat, point: byte)
    requires i <= |s|
  {
    if point == DOT then true
    else if IsSpace(At(s, i)) then !NumberStarts(s, SkipSpaces(s, i))
    else IsSpace(point) && At(s, i) == DOT ==> NothingBehindDot(s, i)
  }

  /**
   * The shim behaves like the '.' parser, for every text and every decimal point that is no number
   * character, except in two cases: white space stands in front of a number; or white space is the
   * decimal point, and a leading '.' is followed by digits that are not all zeros, or by a sign and
   * a digit.
   */
  lemma LocaleAgreement(s: bytes, i: nat, point: byte)
    requires i <= |s| && LocalePoint(point)
    ensures Shim(s, i, point) == Strtod(s, i, DOT) <==> Agrees(s, i, point)
  {
    hide Strtod, Localize, LocalePoint, RunLength, NothingBehindDot, ScanNumber, ValidNumberCharacter, SkipSpaces,
         NumberStarts;
    if point != DOT {
      if IsSpace(At(s, i)) {
        SpacesFirst(s, i);
        ScannedIfStarts(s, SkipSpaces(s, i));
      } else if RunLength(s, i) == 0 {
        NoRun(s, i);
      } else {
        RunIs(s, i);
        SomeRun(s, i, s[i..i + RunLength(s, i)], point);
      }
    }
  }

  /** The text " 1" with ',' for a point, and the texts ".5" and ".+5" with a space for one. */
  lemma Disagreements()
    ensures Shim([32, 49], 0, 44) != Strtod([32, 49], 0, DOT)
    ensures Shim([DOT, 53], 0, 32) != Strtod([DOT, 53], 0, DOT)
    ensures Shim([DOT, PLUS, 53], 0, 32) != Strtod([DOT, PLUS, 53], 0, DOT)
  {
    SpaceBeforeOne();
    FiveBehindDot();
    hide *;
    LocaleAgreement([32, 49], 0, 44);
    LocaleAgreement([DOT, 53], 0, 32);
    LocaleAgreement([DOT, PLUS, 53], 0, 32);
  }

  lemma SpaceBeforeOne()
    ensures LocalePoint(44) && !Agrees([32, 49], 0, 44)
  {
    assert SkipSpaces([32, 49], 0) == SkipSpaces([32, 49], 1) == 1;
  }

  lemma FiveBehindDot()
    ensures LocalePoint(32) && !Agrees([DOT, 53], 0, 32) && !Agrees([DOT, PLUS, 53], 0, 32)
  {
    SomeDigits([DOT, 53], 1);
    assert DigitRun([DOT, 53], 1)[0] == 53;
  }

  lemma NoRun(s: bytes, i: nat)
    requires i <= |s| && RunLength(s, i) == 0 && !IsSpace(At(s, i))
    ensures Strtod(s, i, DOT) == (Decimal(0, 0), i) && At(s, i) != DOT
  {
    hide Strtod;
    NoRunNoNumber(s, i);
  }

  lemma SomeRun(s: bytes, i: nat, u: bytes, point: byte)
    requires NumberRun(s, i, u) && |u| > 0 && LocalePoint(point) && point != DOT
    ensures var there, here := Strtod(s, i, DOT), Strtod(Localize(u, point), 0, point);
            there == (here.0, i + here.1) <==> (IsSpace(point) && u[0] == DOT ==> NothingBehindDot(s, i))
  {
    hide *;
    if IsSpace(point) && u[0] == DOT {
      SpacePoint(s, i, u, point);
    } else {
      LocalizedStrtod(s, i, u, point);
    }
  }

  lemma RunIs(s: bytes, i: nat)
    requires i <= |s|
    ensures var n := RunLength(s, i); NumberRun(s, i, s[i..i + n]) && (n > 0 ==> s[i..i + n][0] == At(s, i))
  {
    hide ValidNumberCharacter, RunLength;
    HasAtSlice(s, i, i + RunLength(s, i));
  }

  lemma SpacesFirst(s: bytes, i: nat)
    requires i <= |s| && IsSpace(At(s, i))
    ensures RunLength(s, i) == 0 && i < |s|
    ensures Strtod(s, i, DOT) == (Decimal(0, 0), i) <==> ScanNumber(s, SkipSpaces(s, i), DOT).NoNumber?
  {
    assert SkipSpaces(s, i) > i;
  }

  ghost predicate NumberBytes(t: bytes) {
    forall k :: 0 <= k < |t| ==> ValidNumberCharacter(t[k])
  }

  lemma NumeralBytes(n: Numeral)
    requires Scannable(n)
    ensures NumberBytes(NumeralText(n))
  {
    assert NumberBytes(n.ip) && NumberBytes(SignText(n.neg));
    assert NumberBytes(FractionText(n));
    assert NumberBytes(ExponentText(n.ex));
    assert NumberBytes(FractionText(n) + ExponentText(n.ex));
    assert NumberBytes(n.ip + (FractionText(n) + ExponentText(n.ex)));
  }

  /** Translating the locale's point back gives the '.' text. */
  lemma TranslateBack(d: Decimal, precision: nat, point: byte)
    requires 1 <= precision && LocalePoint(point)
    ensures var text, printed := NumeralText(FormatG(d, precision)), PrintG(d, precision, point);
            forall k :: 0 <= k < |text| ==> Translate(printed[k], point, DOT) == text[k]
  {
    PrintExactIsRfc(RoundTo(d, precision), precision);
    NumeralBytes(FormatG(d, precision));
  }

  /** In a locale the text printed is the same but for the point. */
  lemma PrintedInLocale(d: Decimal, precision: nat, point: byte, k: nat)
    requires 1 <= precision && k < |PrintG(d, precision, point)|
    ensures var text, printed := NumeralText(FormatG(d, precision)), PrintG(d, precision, point);
            && (text[k] == '.' as int ==> printed[k] == point)
            && (text[k] != '.' as int ==> printed[k] == text[k])
  {
  }

  /**
   * Prints a number into `out` at `at`, always with '.': the text, then a NUL, and nothing else
   * of the buffer changes. (With the point '.' the translation is the identity.)
   */
  method FpconvGFmt(out: array<byte>, at: nat, d: Decimal, precision: nat, point: byte) returns (len: nat)
    requires 1 <= precision <= 14 && DoubleRange(d) && LocalePoint(point)
    requires at + 32 <= out.Length
    modifies out
    ensures len == |NumeralText(FormatG(d, precision))| < 32
    ensures out[..] == old(out[..at]) + NumeralText(FormatG(d, precision)) + [0] + old(out[at + len + 1..])
  {
    FormatGLength(d, precision);
    TranslateBack(d, precision, point);
    var printed := PrintG(d, precision, point);
    len := TranslateInto(out, at, printed, point);
    ghost var text := NumeralText(FormatG(d, precision));
    assert seq(|printed|, k requires 0 <= k < |printed| => Translate(printed[k], point, DOT)) == text;
  }

  method TranslateInto(out: array<byte>, at: nat, printed: bytes, point: byte) returns (len: nat)
    requires point != 0 && at + |printed| < out.Length
    modifies out
    ensures len == |printed|
    ensures out[..] == old(out[..at])
                       + seq(|printed|, k requires 0 <= k < |printed| => Translate(printed[k], point, DOT))
                       + [0] + old(out[at + len + 1..])
  {
    var b := printed + [0];
    var k := 0;
    len := |printed|;
    while k <= len
      invariant 0 <= k <= len + 1
      invariant forall h :: 0 <= h < at ==> out[h] == old(out[h])
      invariant forall h :: at <= h < at + k ==> out[h] == Translate(b[h - at], point, DOT)
      invariant forall h :: at + k <= h < out.Length ==> out[h] == old(out[h])
    {
      out[at + k] := Translate(b[k], point, DOT);
      k := k + 1;
    }
  }
}
