/** The names Get gives the keys of a Lua table, told by what they look like. */
module GoNames {
  import opened Bytes
  import opened Decimals
  import opened GoBridge

  // ----- the decimal form of an integer -----

  /** The digits of `m`, without leading zeros. */
  ghost predicate DigitsOf(ds: bytes, m: int) {
    |ds| >= 1 && AllDigits(ds) && DigitsValue(ds) == m && (|ds| > 1 ==> ds[0] != '0' as int)
  }

  /** A minus sign for a negative number, and its digits. */
  ghost predicate DecimalForm(t: bytes, n: int) {
    if n < 0 then |t| >= 1 && t[0] == '-' as int && DigitsOf(t[1..], -n) else DigitsOf(t, n)
  }

  lemma LastByte(ds: bytes)
    requires |ds| >= 1 && AllDigits(ds)
    ensures DigitsValue(ds) == 10 * DigitsValue(ds[..|ds| - 1]) + (ds[|ds| - 1] as int - 48)
    ensures 0 <= ds[|ds| - 1] as int - 48 < 10
  {
  }

  lemma {:induction false} DigitsPositive(ds: bytes)
    requires |ds| >= 1 && AllDigits(ds) && ds[0] != ZERO
    ensures DigitsValue(ds) > 0
    decreases |ds|
  {
    LastByte(ds);
    if |ds| == 1 {
      assert ds[..0] == [];
    } else {
      DigitsPositive(ds[..|ds| - 1]);
    }
  }

  /** A number has one form only. */
  lemma {:induction false} DigitsUnique(ds: bytes, m: nat)
    requires DigitsOf(ds, m)
    ensures ds == Digits(m)
    decreases |ds|
  {
    var k := |ds| - 1;
    LastByte(ds);
    assert ds == ds[..k] + [ds[k]];
    if k == 0 {
      assert ds[..0] == [];
    } else {
      DigitsPositive(ds[..k]);
      DigitsUnique(ds[..k], m / 10);
    }
  }

  /** strconv.Itoa writes the one decimal form of every int. */
  lemma ItoaIsDecimalForm(n: int, t: bytes)
    ensures t == Itoa(n) <==> DecimalForm(t, n)
  {
    hide DigitsValue, AllDigits;
    var m: nat := if n < 0 then -n else n;
    var ds := if n < 0 && |t| >= 1 then t[1..] else t;
    assert DigitsOf(Digits(m), m);
    assert n < 0 && |t| >= 1 ==> t == [t[0]] + ds;
    hide Digits;
    if DigitsOf(ds, m) {
      DigitsUnique(ds, m);
    }
  }

  lemma ItoaTells(i: int, j: int)
    requires Itoa(i) == Itoa(j)
    ensures i == j
  {
    hide *;
    ItoaIsDecimalForm(i, Itoa(i));
    ItoaIsDecimalForm(j, Itoa(j));
    FormTells(Itoa(i), i, j);
  }

  lemma FormTells(t: bytes, i: int, j: int)
    requires DecimalForm(t, i) && DecimalForm(t, j)
    ensures i == j
  {
    hide DigitsValue;
  }

  /** The conversion to int cuts the fraction off: the nearest integer on the way to 0. */
  lemma TruncatedMeans(r: real)
    ensures var i := Truncated(r) as real;
            if r < 0.0 then r <= i < r + 1.0 && i <= 0.0 else r - 1.0 < i <= r && i >= 0.0
  {
  }

  // ----- names -----

  /** Two numbers have one name exactly if they truncate to one integer. */
  lemma NumbersShareName(r: real, q: real)
    ensures KeyName(Number(r)) == KeyName(Number(q)) <==> Truncated(r) == Truncated(q)
  {
    hide Itoa, Truncated;
    if Itoa(Truncated(r)) == Itoa(Truncated(q)) {
      ItoaTells(Truncated(r), Truncated(q));
    }
  }

  /** What Go sees of a string with a NUL byte is what stands before it. */
  lemma {:induction false} CutOff(s: bytes, rest: bytes)
    requires NulFree(s)
    ensures CString(s + [0] + rest) == s
    decreases |s|
  {
    var t := s + [0] + rest;
    if |s| == 0 {
    } else {
      assert t[1..] == s[1..] + [0] + rest;
      CutOff(s[1..], rest);
    }
  }

  /** So that strings may share a name, and a string read is cut off. */
  lemma StringsAreCutOff(s: bytes, rest: bytes)
    requires NulFree(s)
    ensures KeyName(Str(s + [0] + rest)) == s == KeyName(Str(s))
    ensures Scalar(Str(s + [0] + rest)) == GoString(s)
  {
    CutOff(s, rest);
    CStringWhole(s);
  }

  /** A string shares the name of a number exactly if, up to its first NUL, it is the truncated number's form. */
  lemma StringSharesName(r: real, s: bytes)
    ensures KeyName(Number(r)) == KeyName(Str(s)) <==> DecimalForm(CString(s), Truncated(r))
  {
    hide Itoa, Truncated, DecimalForm;
    ItoaIsDecimalForm(Truncated(r), CString(s));
  }

  /** When two keys have one name, for keys that have one at all. */
  ghost predicate SameName(k: StackValue, k': StackValue) {
    match (k, k')
    case (Number(r), Number(q)) => Truncated(r) == Truncated(q)
    case (Str(s), Str(t)) => CString(s) == CString(t)
    case (Number(r), Str(s)) => DecimalForm(CString(s), Truncated(r))
    case (Str(s), Number(r)) => DecimalForm(CString(s), Truncated(r))
    case _ => false
  }

  lemma SameNameMeans(k: StackValue, k': StackValue)
    requires NamedKey(k) && NamedKey(k')
    ensures KeyName(k) == KeyName(k') <==> SameName(k, k')
  {
    hide KeyName, Truncated, DecimalForm;
    match (k, k')
    case (Number(r), Number(q)) => NumbersShareName(r, q);
    case (Number(r), Str(s)) => StringSharesName(r, s);
    case (Str(s), Number(r)) => StringSharesName(r, s);
    case (Str(s), Str(t)) => StringNames(s, t);
  }

  ghost predicate NoneShareNames(t: TableEntries) {
    forall k, k' :: k in t && k' in t && SameName(k, k') ==> k == k'
  }

  lemma NamesDifferIff(t: TableEntries)
    requires forall k :: k in t ==> NamedKey(k)
    ensures NamesDiffer(t) <==> NoneShareNames(t)
  {
    hide KeyName, SameName, NamedKey;
    forall k, k' | k in t && k' in t
      ensures KeyName(k) == KeyName(k') <==> SameName(k, k')
    {
      SameNameMeans(k, k');
    }
  }

  /** Entries are lost exactly where two keys are one integer when cut, one C string, or one of each. */
  lemma LostIffSameName(h: Tables, x: StackValue, n: nat, v: GoValue)
    requires Reads(h, x, n, v) && x.Table? && forall k :: k in h[x.id] ==> NamedKey(k)
    ensures v.GoMap? && (|v.m| == |h[x.id]| <==> NoneShareNames(h[x.id]))
  {
    LostIffNamesClash(h, x, n, v);
    hide *;
    NamesDifferIff(h[x.id]);
  }

  lemma StringNames(s: bytes, t: bytes)
    ensures KeyName(Str(s)) == KeyName(Str(t)) <==> CString(s) == CString(t)
  {
  }

  /** Slot 1 is the lowest and slot -1 the one on top; the two ways of counting meet. */
  lemma SlotsCounted(below: seq<StackValue>, x: StackValue, above: seq<StackValue>)
    ensures var stack := below + [x] + above;
            SlotAt(stack, |below| + 1) == x == SlotAt(stack, -|above| - 1)
    ensures forall i :: i > |below| ==> SlotAt(below, i) == Other
  {
  }

  /** What is pushed for nil: nil by itself, and a null address as a table value. */
  lemma NilPushed(h: Tables, x: StackValue, low: nat)
    ensures Represents(h, x, GoNil, false, low) <==> x == Nil
    ensures Represents(h, x, GoNil, true, low) <==> x == Light(0)
    ensures Represents(h, x, GoNilPointer, false, low) <==> x == Nil
    ensures Represents(h, x, GoNilPointer, true, low) <==> x == Light(0)
    ensures Represents(h, x, GoUnsupported, false, low) <==> x == Nil
    ensures Represents(h, x, GoUnsupported, true, low) <==> x == Light(0)
  {
  }
}
