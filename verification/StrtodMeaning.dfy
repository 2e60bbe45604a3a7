/**
 * What strtod finds in a text, told without its scanner: behind white space, the longest piece that
 * is a decimal number, and the number that piece denotes.
 */
module StrtodMeaning {
  import opened Bytes
  import opened Decimals
  import opened DecimalMeaning
  import opened DecimalRounding
  import opened Fpconv

  function PlusText(plus: bool): bytes {
    if plus then ['+' as int] else []
  }

  /** The text of a number, with or without a '+' in front. */
  function SignedText(plus: bool, n: Numeral): bytes {
    PlusText(plus) + NumeralText(n)
  }

  /** A decimal number stands at `i`. */
  ghost predicate NumberAt(s: bytes, i: nat, plus: bool, n: Numeral) {
    Scannable(n) && !(plus && n.neg) && HasAt(s, i, SignedText(plus, n))
  }

  // ----- the scanner goes as far as possible -----

  lemma {:induction false} LongRun(s: bytes, i: nat, ds: bytes)
    requires HasAt(s, i, ds) && AllDigits(ds)
    ensures |DigitRun(s, i)| >= |ds|
    ensures |DigitRun(s, i)| > |ds| ==> IsDigit(At(s, i + |ds|))
    decreases |ds|
  {
    if |ds| == 0 {
    } else {
      FirstOf(s, i, ds);
      assert ds == [ds[0]] + ds[1..];
      HasAtConcat(s, i, [ds[0]], ds[1..]);
      LongRun(s, i + 1, ds[1..]);
    }
  }

  lemma LongExponent(s: bytes, i: nat, ex: Exponent)
    requires ExponentOk(ex) && HasAt(s, i, ExponentText(ex))
    ensures |ExponentText(ScanExponent(s, i))| >= |ExponentText(ex)|
  {
    hide HasAt, DigitRun, AllDigits;
    if ex.Exponent? {
      ExponentParts(s, i, ex);
      LongRun(s, i + 1 + |ex.sign|, ex.digits);
    }
  }

  lemma ExponentParts(s: bytes, i: nat, ex: Exponent)
    requires ExponentOk(ex) && ex.Exponent? && HasAt(s, i, ExponentText(ex))
    ensures i < |s| && (s[i] == 101 || s[i] == 69)
    ensures HasAt(s, i + 1 + |ex.sign|, ex.digits)
    ensures if ex.sign == [] then IsDigit(At(s, i + 1)) else ex.sign == [At(s, i + 1)]
  {
    hide HasAt;
    var k := i + 1 + |ex.sign|;
    HasAtConcat(s, i, [ex.marker] + ex.sign, ex.digits);
    HasAtConcat(s, i, [ex.marker], ex.sign);
    FirstOf(s, i, [ex.marker]);
    FirstOf(s, k, ex.digits);
    if |ex.sign| == 1 {
      FirstOf(s, i + 1, ex.sign);
    }
  }

  /** The bytes at which a numeral goes on after its digits. */
  lemma NextPart(s: bytes, j1: nat, n: Numeral)
    requires Scannable(n) && HasAt(s, j1, FractionText(n)) && HasAt(s, j1 + |FractionText(n)|, ExponentText(n.ex))
    ensures n.point ==> At(s, j1) == DOT && HasAt(s, j1 + 1, n.fp)
    ensures n.ex.Exponent? ==> var b := At(s, j1 + |FractionText(n)|); b == 101 || b == 69
  {
    if n.point {
      HasAtConcat(s, j1, [DOT], n.fp);
      FirstOf(s, j1, [DOT]);
    }
    if n.ex.Exponent? {
      FirstOf(s, j1 + |FractionText(n)|, ExponentText(n.ex));
    }
  }

  /** Where the pieces of a number stand, and what is not in front of its digits. */
  lemma NumberParts(s: bytes, i: nat, plus: bool, n: Numeral, j0: nat)
    requires i <= |s| && NumberAt(s, i, plus, n) && j0 == i + |PlusText(plus)| + |SignText(n.neg)|
    ensures plus == (At(s, i) == PLUS) && n.neg == (At(s, i) == MINUS)
    ensures HasAt(s, j0, n.ip) && HasAt(s, j0 + |n.ip|, FractionText(n))
    ensures HasAt(s, j0 + |n.ip| + |FractionText(n)|, ExponentText(n.ex))
  {
    hide FractionText, ExponentText, HasAt;
    var i0 := i + |PlusText(plus)|;
    HasAtConcat(s, i, PlusText(plus), NumeralText(n));
    NumeralAtParts(s, i0, n);
    ScanSign(s, i0, n);
    if plus {
      FirstOf(s, i, PlusText(plus));
    }
  }

  /** Of all numbers that stand at `i`, the scanner finds the longest. */
  lemma ScanLongest(s: bytes, i: nat, plus: bool, n: Numeral)
    requires i <= |s| && NumberAt(s, i, plus, n)
    ensures var r := ScanNumber(s, i, DOT); r.Scanned? && ScanLength(r) >= |SignedText(plus, n)|
  {
    var j0 := i + |PlusText(plus)| + |SignText(n.neg)|;
    hide *;
    NumberIs(s, i, plus, n);
    NumberParts(s, i, plus, n, j0);
    RunsAreLong(s, n, j0);
    LengthOfSigned(plus, n);
    ScannedLength(s, i, j0);
  }

  /** How far the scanner gets, by the runs of digits it meets. */
  lemma ScannedLength(s: bytes, i: nat, j0: nat)
    requires i <= |s| && j0 == if At(s, i) == MINUS || At(s, i) == PLUS then i + 1 else i
    ensures var r := ScanNumber(s, i, DOT);
            var j1 := j0 + |DigitRun(s, j0)|;
            var fp := if At(s, j1) == DOT then DigitRun(s, j1 + 1) else [];
            var j2 := if At(s, j1) == DOT then j1 + 1 + |fp| else j1;
            && (r.Scanned? <==> |DigitRun(s, j0)| + |fp| > 0)
            && (r.Scanned? ==> ScanLength(r) == j2 + |ExponentText(ScanExponent(s, j2))| - i)
  {
    hide DigitRun, ScanExponent, ExponentText, NumeralText;
    var r := ScanNumber(s, i, DOT);
    if r.Scanned? {
      LengthOfParts(r.numeral);
    }
  }

  lemma NumberIs(s: bytes, i: nat, plus: bool, n: Numeral)
    requires NumberAt(s, i, plus, n)
    ensures Scannable(n) && !(plus && n.neg)
    ensures |n.ip| + |n.fp| >= 1 && (!n.point ==> n.fp == [])
  {
  }

  lemma RunsAreLong(s: bytes, n: Numeral, j0: nat)
    requires Scannable(n)
    requires HasAt(s, j0, n.ip) && HasAt(s, j0 + |n.ip|, FractionText(n))
    requires HasAt(s, j0 + |n.ip| + |FractionText(n)|, ExponentText(n.ex))
    ensures var j1 := j0 + |n.ip|;
            var j2 := j1 + |FractionText(n)|;
            && |DigitRun(s, j0)| >= |n.ip|
            && (|DigitRun(s, j0)| > |n.ip| ==> !n.point && n.ex.NoExponent?)
            && (n.point ==> At(s, j1) == DOT && |DigitRun(s, j1 + 1)| >= |n.fp|)
            && (n.point && |DigitRun(s, j1 + 1)| > |n.fp| ==> n.ex.NoExponent?)
            && (!n.point && At(s, j1) == DOT ==> n.ex.NoExponent?)
            && |ExponentText(ScanExponent(s, j2))| >= |ExponentText(n.ex)|
  {
    hide DigitRun, ScanExponent, HasAt, AllDigits, ExponentOk, ExponentText;
    var j1 := j0 + |n.ip|;
    NextPart(s, j1, n);
    LongRun(s, j0, n.ip);
    LongExponent(s, j1 + |FractionText(n)|, n.ex);
    if n.point {
      LongRun(s, j1 + 1, n.fp);
    }
  }

  lemma LengthOfParts(n: Numeral)
    ensures |NumeralText(n)| == |SignText(n.neg)| + |n.ip| + |FractionText(n)| + |ExponentText(n.ex)|
  {
  }

  lemma LengthOfSigned(plus: bool, n: Numeral)
    ensures |SignText(n.neg)| == (if n.neg then 1 else 0) && |PlusText(plus)| == (if plus then 1 else 0)
    ensures |FractionText(n)| == (if n.point then 1 + |n.fp| else 0)
    ensures n.ex.NoExponent? ==> |ExponentText(n.ex)| == 0
    ensures |SignedText(plus, n)| ==
            |PlusText(plus)| + |SignText(n.neg)| + |n.ip| + |FractionText(n)| + |ExponentText(n.ex)|
  {
  }

  // ----- one longest number -----

  lemma ScanWithPlus(s: bytes, i: nat)
    requires i < |s| && s[i] == PLUS && At(s, i + 1) != PLUS && At(s, i + 1) != MINUS
    ensures var r, rest := ScanNumber(s, i, DOT), ScanNumber(s, i + 1, DOT);
            && (r.Scanned? <==> rest.Scanned?)
            && (r.Scanned? ==> r == Scanned(true, rest.numeral))
  {
    hide DigitRun, ScanExponent;
  }

  /** A number with nothing behind it is scanned whole. */
  lemma ScanToEnd(s: bytes, i: nat, plus: bool, n: Numeral)
    requires NumberAt(s, i, plus, n) && i + |SignedText(plus, n)| == |s|
    ensures ScanNumber(s, i, DOT) == Scanned(plus, n)
  {
    hide Scannable, HasAt, NumeralText;
    var i0 := i + |PlusText(plus)|;
    HasAtConcat(s, i, PlusText(plus), NumeralText(n));
    ScanComplete(s, i0, n);
    if plus {
      FirstOf(s, i, PlusText(plus));
      NumeralAtParts(s, i0, n);
      ScanSign(s, i0, n);
      ScanWithPlus(s, i);
    }
  }

  /** Only one number of a given length stands at one place. */
  lemma OneOfEachLength(s: bytes, i: nat, plus: bool, n: Numeral, plus': bool, n': Numeral)
    requires NumberAt(s, i, plus, n) && NumberAt(s, i, plus', n')
    requires |SignedText(plus, n)| == |SignedText(plus', n')|
    ensures plus == plus' && n == n'
  {
    var t := s[..i + |SignedText(plus, n)|];
    assert NumberAt(t, i, plus, n) && NumberAt(t, i, plus', n');
    hide *;
    ScanToEnd(t, i, plus, n);
    ScanToEnd(t, i, plus', n');
  }

  lemma ScannedStands(s: bytes, i: nat)
    requires i <= |s| && ScanNumber(s, i, DOT).Scanned?
    ensures var r := ScanNumber(s, i, DOT);
            NumberAt(s, i, r.plus, r.numeral) && ScanLength(r) == |SignedText(r.plus, r.numeral)|
  {
    hide ScanNumber, NumeralText;
    ScanSound(s, i);
    var r := ScanNumber(s, i, DOT);
    HasAtConcat(s, i, PlusText(r.plus), NumeralText(r.numeral));
  }

  /** `w` is the first position from `i` on that is no white space. */
  ghost predicate BehindSpaces(s: bytes, i: nat, w: nat) {
    i <= w <= |s| && (forall k :: i <= k < w ==> IsSpace(s[k])) && !IsSpace(At(s, w))
  }

  lemma {:induction false} SkipSpacesIs(s: bytes, i: nat, w: nat)
    requires BehindSpaces(s, i, w)
    ensures SkipSpaces(s, i) == w
    decreases w - i
  {
    if i == w {
    } else {
      SkipSpacesIs(s, i + 1, w);
    }
  }

  /** Of the numbers that stand at `w`, `n` is the longest. */
  ghost predicate LongestAt(s: bytes, w: nat, plus: bool, n: Numeral) {
    && NumberAt(s, w, plus, n)
    && forall plus', n' :: NumberAt(s, w, plus', n') ==> |SignedText(plus', n')| <= |SignedText(plus, n)|
  }

  /**
   * strtod: behind white space it takes the longest number there is, returns what that number
   * denotes, and stops right behind it; if there is none, it returns 0 and does not move.
   */
  lemma StrtodMeans(s: bytes, i: nat, w: nat, plus: bool, n: Numeral)
    requires BehindSpaces(s, i, w)
    ensures var r := Strtod(s, i, DOT);
            && (LongestAt(s, w, plus, n) ==> RealOf(r.0) == Reading(n) && r.1 == w + |SignedText(plus, n)|)
            && ((forall plus', n' :: !NumberAt(s, w, plus', n')) ==> r == (Decimal(0, 0), i))
  {
    hide NumberAt, BehindSpaces, SkipSpaces, ScanNumber, ScanLength, SignedText, Reading, RealOf, NumeralValue;
    assert i <= w <= |s| by {
      Within(s, i, w);
    }
    SkipSpacesIs(s, i, w);
    var r := ScanNumber(s, w, DOT);
    if r.Scanned? {
      ScannedStands(s, w);
    }
    if LongestAt(s, w, plus, n) {
      ScanLongest(s, w, plus, n);
      OneOfEachLength(s, w, plus, n, r.plus, r.numeral);
      NumberIs(s, w, plus, n);
      NumeralMeans(n);
    }
  }

  lemma Within(s: bytes, i: nat, w: nat)
    requires BehindSpaces(s, i, w)
    ensures i <= w <= |s|
  {
  }

  /** A numeral by itself is read to its end. */
  lemma NumeralIsReadBack(n: Numeral)
    requires Scannable(n)
    ensures Strtod(NumeralText(n), 0, DOT) == (NumeralValue(n), |NumeralText(n)|)
  {
    var t := NumeralText(n);
    assert HasAt(t, 0, t);
    hide NumeralText, ScanNumber, NumeralValue, Scannable;
    NotSpace(t, n);
    ScanComplete(t, 0, n);
  }

  lemma NotSpace(t: bytes, n: Numeral)
    requires Scannable(n) && t == NumeralText(n)
    ensures |t| > 0 && !IsSpace(t[0])
  {
    NumeralBytes(n);
    LengthOfParts(n);
    NumberIsNotSpace(t);
  }

  lemma NumberIsNotSpace(t: bytes)
    requires NumberBytes(t)
    ensures |t| > 0 ==> !IsSpace(t[0])
  {
  }

  /** What "%.<p>g" prints is read back as the rounded number, to its end. */
  lemma PrintedIsReadBack(d: Decimal, p: nat)
    requires p >= 1
    ensures var t := NumeralText(FormatG(d, p)); Strtod(t, 0, DOT) == (RoundTo(d, p), |t|)
  {
    hide *;
    FormatGIsExact(d, p);
    PrintExactIsRfc(RoundTo(d, p), p);
    PrintExactValue(RoundTo(d, p), p);
    RfcIsScannable(FormatG(d, p));
    NumeralIsReadBack(FormatG(d, p));
  }

  /** The text "1e5" is a hundred thousand. */
  lemma UnsignedExponent()
    ensures Strtod(['1' as int, 'e' as int, '5' as int], 0, DOT) == (Decimal(1, 5), 3)
  {
    var n := Numeral(false, ['1' as int], false, [], Exponent('e' as int, [], ['5' as int]));
    OneE5(n);
    hide *;
    NumeralIsReadBack(n);
  }

  lemma OneE5(n: Numeral)
    requires n == Numeral(false, ['1' as int], false, [], Exponent('e' as int, [], ['5' as int]))
    ensures Scannable(n) && NumeralText(n) == ['1' as int, 'e' as int, '5' as int]
    ensures NumeralValue(n) == Decimal(1, 5)
  {
    assert n.ip + n.fp == ['1' as int];
    OneDigit('1' as int);
    OneDigit('5' as int);
  }

  lemma OneDigit(b: byte)
    ensures DigitsValue([b]) == b as int - 48
  {
    assert [b][..0] == [];
  }

  // ----- the bytes it is about -----

  /** The white space of isspace. */
  lemma SpacesOfC(b: byte)
    ensures IsSpace(b) <==> b as char in " \t\n\U{0B}\U{0C}\r"
  {
  }

  /** The test of valid_number_character, on a byte; a byte above 127 is a negative char. */
  lemma NumberCharactersOfC(b: bv8)
    ensures ValidNumberCharacter(b as int) <==>
            || 48 <= b <= 57 || b == 45 || b == 43 || b == 46
            || (b < 128 && 97 <= b | 0x20 <= 121)
  {
  }

  lemma DigitsOfC(b: byte)
    ensures IsDigit(b) <==> b as char in "0123456789"
  {
  }
}
