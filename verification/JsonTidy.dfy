/**
 * How the decoder and RFC 8259 differ, told from the text alone. One scan of the bytes, which only
 * knows whether it is inside a string, looks for raw control bytes and bare dots, for unpaired
 * surrogate escapes, or for trailing commas.
 */
module JsonTidy {
  import opened Bytes
  import opened Decimals
  import opened JsonGrammar
  import opened JsonLexer
  import opened JsonParser
  import opened JsonRegroup
  import opened JsonSyntax
  import opened Utf8

  /** What a scan looks for: raw control bytes and bare dots; unpaired surrogates; trailing commas. */
  datatype Check = Shape | Escapes | Commas

  predicate DigitsBeside(s: bytes, i: nat)
    requires i < |s|
  {
    i > 0 && IsDigit(s[i - 1]) && IsDigit(At(s, i + 1))
  }

  /** A low surrogate is escaped right behind the escaped high surrogate at `i`. */
  predicate PairAt(s: bytes, i: nat) {
    && IsHigh(DecodeHex4(s, i + 2))
    && At(s, i + 6) == BACKSLASH && At(s, i + 7) == LETTER_U
    && IsLow(DecodeHex4(s, i + 8))
  }

  /** The comma before `i` is followed by a closing bracket or brace. */
  predicate CloserNext(s: bytes, i: nat)
    requires i <= |s|
  {
    var b := At(s, SkipWhitespace(s, i));
    b == RBRACKET || b == RBRACE
  }

  /** From `i` to the end of the text nothing is found. */
  predicate ScanFrom(s: bytes, i: nat, inString: bool, check: Check)
    decreases |s| - i
  {
    if i >= |s| then true
    else if inString then
      if s[i] == BACKSLASH then
        if check == Escapes && At(s, i + 1) == LETTER_U && IsSurrogate(DecodeHex4(s, i + 2))
        then PairAt(s, i) && ScanFrom(s, i + 12, true, check)
        else ScanFrom(s, i + 2, true, check)
      else if s[i] == QUOTE then ScanFrom(s, i + 1, false, check)
      else (check == Shape ==> s[i] >= 0x20) && ScanFrom(s, i + 1, true, check)
    else if s[i] == QUOTE then ScanFrom(s, i + 1, true, check)
    else
      && (check == Shape && s[i] == DOT ==> DigitsBeside(s, i))
      && (check == Commas && s[i] == COMMA ==> !CloserNext(s, i + 1))
      && ScanFrom(s, i + 1, false, check)
  }

  /** UTF-8 without NUL, without raw control bytes in strings, with digits on both sides of every '.'. */
  ghost predicate Tidy(text: bytes) {
    NulFree(text) && WellFormed(text) && ScanFrom(text, 0, false, Shape)
  }

  /** Every escaped surrogate is one of a pair. */
  predicate EscapesPaired(text: bytes) {
    ScanFrom(text, 0, false, Escapes)
  }

  /** No comma, white space apart, before a closing bracket or brace, outside strings. */
  predicate NoTrailingCommas(text: bytes) {
    ScanFrom(text, 0, false, Commas)
  }

  // ----- what a scan says about a tree with all escapes by themselves -----

  ghost predicate ItemsPassing(cs: Items, check: Check) {
    match check
    case Shape => ItemsOk(cs, Rfc)
    case Escapes => ItemsOk(Merge(cs), Relaxed)
    case Commas => true
  }

  ghost predicate Passing(v: Json, check: Check) {
    match check
    case Shape => JsonOk(v, Rfc)
    case Escapes => JsonOk(Regroup(v, Pairwise), Relaxed)
    case Commas => true
  }

  ghost predicate ElementsPassing(es: Elements, check: Check) {
    match check
    case Shape => ElementsOk(es, Rfc)
    case Escapes => ElementsOk(RegroupElements(es, Pairwise), Relaxed)
    case Commas => true
  }

  ghost predicate MembersPassing(ms: Members, check: Check) {
    match check
    case Shape => MembersOk(ms, Rfc)
    case Escapes => MembersOk(RegroupMembers(ms, Pairwise), Relaxed)
    case Commas => true
  }

  // ----- pieces in which nothing is found -----

  ghost predicate Quiet(t: bytes) {
    forall k :: 0 <= k < |t| ==> t[k] != QUOTE && t[k] != DOT && t[k] != COMMA
  }

  lemma {:induction false} QuietPasses(s: bytes, i: nat, t: bytes, check: Check)
    requires HasAt(s, i, t) && Quiet(t)
    ensures ScanFrom(s, i, false, check) <==> ScanFrom(s, i + |t|, false, check)
    decreases |t|
  {
    if |t| == 0 {
    } else {
      FirstOf(s, i, t);
      assert t == [t[0]] + t[1..];
      HasAtConcat(s, i, [t[0]], t[1..]);
      QuietPasses(s, i + 1, t[1..], check);
    }
  }

  ghost predicate Visible(t: bytes) {
    forall k :: 0 <= k < |t| ==> t[k] >= 0x20 && t[k] != QUOTE && t[k] != BACKSLASH
  }

  lemma {:induction false} VisiblePasses(s: bytes, i: nat, t: bytes, check: Check)
    requires HasAt(s, i, t) && Visible(t)
    ensures ScanFrom(s, i, true, check) <==> ScanFrom(s, i + |t|, true, check)
    decreases |t|
  {
    if |t| == 0 {
    } else {
      FirstOf(s, i, t);
      assert t == [t[0]] + t[1..];
      HasAtConcat(s, i, [t[0]], t[1..]);
      VisiblePasses(s, i + 1, t[1..], check);
    }
  }

  lemma WhitespaceQuiet(w: bytes)
    requires AllWhitespace(w)
    ensures Quiet(w)
  {
  }

  lemma WordsQuiet()
    ensures Quiet(NULL_TEXT) && Quiet(TRUE_TEXT) && Quiet(FALSE_TEXT)
  {
  }

  lemma HexVisible(h: bytes)
    requires IsHex4(h)
    ensures Visible(h)
  {
    assert forall k :: 0 <= k < 4 ==> IsHexDigit(h[k]);
  }

  // ----- strings -----

  lemma UnitAt(s: bytes, i: nat, h: bytes)
    requires HasAt(s, i, ItemText(Unit(h))) && IsHex4(h)
    ensures i + 6 <= |s| && s[i] == BACKSLASH && s[i + 1] == LETTER_U && HasAt(s, i + 2, h)
    ensures DecodeHex4(s, i + 2) == DecodeHex4(h, 0)
  {
    hide DecodeHex4;
    HasAtConcat(s, i, [BACKSLASH, LETTER_U], h);
    assert s[i + 0] == [BACKSLASH, LETTER_U][0] && s[i + 1] == [BACKSLASH, LETTER_U][1];
    DecodeHex4At(s, i + 2, h);
  }

  /** An escape by itself, unless it is a surrogate that is looked at. */
  lemma UnitPasses(s: bytes, i: nat, h: bytes, check: Check)
    requires HasAt(s, i, ItemText(Unit(h))) && IsHex4(h)
    requires check == Escapes ==> !IsSurrogate(DecodeHex4(h, 0))
    ensures ScanFrom(s, i, true, check) <==> ScanFrom(s, i + 6, true, check)
  {
    hide DecodeHex4, HasAt;
    UnitAt(s, i, h);
    HexVisible(h);
    VisiblePasses(s, i + 2, h, check);
  }

  /** A surrogate by itself, before something that is no escape of four digits. */
  lemma LonePasses(s: bytes, i: nat, h: bytes)
    requires HasAt(s, i, ItemText(Unit(h))) && IsHex4(h) && IsSurrogate(DecodeHex4(h, 0))
    requires !(At(s, i + 6) == BACKSLASH && At(s, i + 7) == LETTER_U)
    ensures !ScanFrom(s, i, true, Escapes)
  {
    hide DecodeHex4, HasAt;
    UnitAt(s, i, h);
  }

  lemma PairPasses(s: bytes, i: nat, h: bytes, l: bytes)
    requires HasAt(s, i, ItemText(Unit(h))) && IsHex4(h) && IsSurrogate(DecodeHex4(h, 0))
    requires HasAt(s, i + 6, ItemText(Unit(l))) && IsHex4(l)
    ensures ScanFrom(s, i, true, Escapes) <==>
            IsHigh(DecodeHex4(h, 0)) && IsLow(DecodeHex4(l, 0)) && ScanFrom(s, i + 12, true, Escapes)
  {
    hide DecodeHex4, HasAt;
    UnitAt(s, i, h);
    UnitAt(s, i + 6, l);
  }

  /** One character, unless it is a surrogate that is looked at. */
  lemma ItemPasses(s: bytes, i: nat, c: StringItem, check: Check)
    requires ItemOk(c, Loose) && HasAt(s, i, ItemText(c))
    requires check == Escapes ==> !LoneSurrogate(c)
    ensures ScanFrom(s, i, true, check) <==>
            (check == Shape ==> ItemOk(c, Rfc)) && ScanFrom(s, i + |ItemText(c)|, true, check)
    ensures check == Escapes ==> ItemOk(c, Relaxed)
  {
    hide DecodeHex4, HasAt;
    FirstOf(s, i, ItemText(c));
    match c
    case Raw(b) =>
    case Short(e) => SecondOfEscape(s, i, e);
    case Unit(h) => UnitPasses(s, i, h, check);
  }

  lemma SecondOfEscape(s: bytes, i: nat, e: byte)
    requires HasAt(s, i, ItemText(Short(e)))
    ensures i + 2 <= |s| && s[i] == BACKSLASH && s[i + 1] == e
  {
    assert s[i + 0] == [BACKSLASH, e][0] && s[i + 1] == [BACKSLASH, e][1];
  }

  /** The first byte of what follows in a string is no escape of four digits, unless an item says so. */
  lemma NoUnitNext(s: bytes, i: nat, cs: Items)
    requires ItemsOk(cs, Loose) && HasAt(s, i, ItemsText(cs)) && (|cs| == 0 || !cs[0].Unit?)
    ensures !(At(s, i) == BACKSLASH && At(s, i + 1) == LETTER_U)
  {
    if |cs| == 0 {
      FirstOf(s, i, [QUOTE]);
    } else {
      assert ItemOk(cs[0], Loose);
      HasAtConcat(s, i, ItemText(cs[0]), ItemsText(cs[1..]));
      FirstOf(s, i, ItemText(cs[0]));
      if cs[0].Short? {
        SecondOfEscape(s, i, cs[0].c);
      }
    }
  }

  lemma PassingStep(c: StringItem, cs: Items, check: Check)
    requires check == Escapes ==> !LoneSurrogate(c) && ItemOk(c, Relaxed)
    ensures ItemsPassing([c] + cs, check) <==>
            (check == Shape ==> ItemOk(c, Rfc)) && ItemsPassing(cs, check)
  {
    hide ItemOk, Merge, LoneSurrogate;
    if check == Escapes {
      MergeOne(c, cs);
      ConsOk(c, Merge(cs), Relaxed);
    } else {
      ConsOk(c, cs, Rfc);
    }
  }

  lemma ConsOk(c: StringItem, cs: Items, g: Grammar)
    ensures ItemsOk([c] + cs, g) <==> ItemOk(c, g) && ItemsOk(cs, g)
  {
    hide ItemOk;
    var all := [c] + cs;
    if ItemsOk(all, g) {
      assert all[0] == c;
      assert forall k :: 0 <= k < |cs| ==> cs[k] == all[k + 1];
    }
  }

  lemma {:induction false} ItemsPass(s: bytes, i: nat, cs: Items, check: Check)
    requires ItemsOk(cs, Loose) && HasAt(s, i, ItemsText(cs))
    ensures ScanFrom(s, i, true, check) <==>
            ItemsPassing(cs, check) && ScanFrom(s, i + |ItemsText(cs)|, false, check)
    decreases |cs|
  {
    hide ItemText, HasAt, ItemOk, ItemsPassing;
    if |cs| == 0 {
      FirstOf(s, i, [QUOTE]);
      NothingPasses(check);
    } else {
      assert ItemOk(cs[0], Loose);
      HasAtConcat(s, i, ItemText(cs[0]), ItemsText(cs[1..]));
      assert cs == [cs[0]] + cs[1..];
      if check == Escapes && LoneSurrogate(cs[0]) {
        SurrogatePasses(s, i, cs);
        if |cs| >= 2 && cs[1].Unit? {
          ItemsPass(s, i + 12, cs[2..], check);
        }
      } else {
        ItemPasses(s, i, cs[0], check);
        PassingStep(cs[0], cs[1..], check);
        ItemsPass(s, i + |ItemText(cs[0])|, cs[1..], check);
      }
    }
  }

  lemma NothingPasses(check: Check)
    ensures ItemsPassing([], check)
  {
  }

  /** A surrogate first: it must be followed by its other half. */
  lemma SurrogatePasses(s: bytes, i: nat, cs: Items)
    requires |cs| > 0 && ItemsOk(cs, Loose) && HasAt(s, i, ItemsText(cs)) && LoneSurrogate(cs[0])
    ensures |cs| >= 2 && cs[1].Unit? ==>
              && HasAt(s, i + 12, ItemsText(cs[2..]))
              && |ItemsText(cs)| == 12 + |ItemsText(cs[2..])|
              && ItemsOk(cs[2..], Loose)
              && (ItemsPassing(cs, Escapes) <==>
                    && IsHigh(DecodeHex4(cs[0].h, 0)) && IsLow(DecodeHex4(cs[1].h, 0))
                    && ItemsPassing(cs[2..], Escapes))
              && (ScanFrom(s, i, true, Escapes) <==>
                    && IsHigh(DecodeHex4(cs[0].h, 0)) && IsLow(DecodeHex4(cs[1].h, 0))
                    && ScanFrom(s, i + 12, true, Escapes))
    ensures !(|cs| >= 2 && cs[1].Unit?) ==> !ItemsPassing(cs, Escapes) && !ScanFrom(s, i, true, Escapes)
  {
    hide DecodeHex4, HasAt, ScanFrom, Merge;
    assert ItemOk(cs[0], Loose);
    HasAtConcat(s, i, ItemText(cs[0]), ItemsText(cs[1..]));
    if |cs| >= 2 && cs[1].Unit? {
      assert ItemOk(cs[1], Loose);
      assert cs[1..][1..] == cs[2..];
      HasAtConcat(s, i + 6, ItemText(cs[1]), ItemsText(cs[2..]));
      PairPasses(s, i, cs[0].h, cs[1].h);
      PairPassing(cs);
    } else {
      assert ItemsOk(cs[1..], Loose);
      NoUnitNext(s, i + 6, cs[1..]);
      LonePasses(s, i, cs[0].h);
      LonePassing(cs);
    }
  }

  lemma PairPassing(cs: Items)
    requires |cs| >= 2 && LoneSurrogate(cs[0]) && cs[1].Unit? && IsHex4(cs[0].h) && IsHex4(cs[1].h)
    ensures ItemsPassing(cs, Escapes) <==>
            && IsHigh(DecodeHex4(cs[0].h, 0)) && IsLow(DecodeHex4(cs[1].h, 0))
            && ItemsPassing(cs[2..], Escapes)
  {
    hide DecodeHex4;
    ConsOk(Pair(cs[0].h, cs[1].h), Merge(cs[2..]), Relaxed);
  }

  lemma LonePassing(cs: Items)
    requires |cs| > 0 && LoneSurrogate(cs[0]) && !(|cs| >= 2 && cs[1].Unit?)
    ensures !ItemsPassing(cs, Escapes)
  {
    hide DecodeHex4;
    ConsOk(cs[0], Merge(cs[1..]), Relaxed);
  }

  lemma StringPasses(s: bytes, i: nat, cs: Items, check: Check)
    requires ItemsOk(cs, Loose) && HasAt(s, i, StringText(cs))
    ensures ScanFrom(s, i, false, check) <==>
            ItemsPassing(cs, check) && ScanFrom(s, i + |StringText(cs)|, false, check)
  {
    hide ItemsOk, ItemsText, HasAt, ItemsPassing;
    HasAtConcat(s, i, [QUOTE], ItemsText(cs));
    FirstOf(s, i, [QUOTE]);
    ItemsPass(s, i + 1, cs, check);
  }

  // ----- numbers -----

  lemma DigitsQuiet(n: Numeral)
    requires Scannable(n)
    ensures Quiet(SignText(n.neg)) && Quiet(n.ip) && Quiet(n.fp) && Quiet(ExponentText(n.ex))
  {
  }

  /** The bytes beside the '.' of a numeral at `i`. */
  lemma BesideDot(s: bytes, i: nat, n: Numeral)
    requires NumeralOk(n, false) && PartsAt(s, i, n) && n.point && !IsDigit(At(s, i + |NumeralText(n)|))
    ensures var d := i + |SignText(n.neg)| + |n.ip|;
            && d < |s| && s[d] == DOT && d > 0
            && (IsDigit(s[d - 1]) <==> |n.ip| >= 1)
            && (IsDigit(At(s, d + 1)) <==> |n.fp| >= 1)
  {
    var j0 := i + |SignText(n.neg)|;
    var d := j0 + |n.ip|;
    NumeralAtParts(s, i, n);
    FirstOf(s, d, FractionText(n));
    if |n.ip| >= 1 {
      assert s[j0 + (|n.ip| - 1)] == n.ip[|n.ip| - 1];
    } else {
      FirstOf(s, i, SignText(n.neg));
    }
    if |n.fp| >= 1 {
      assert FractionText(n)[1] == n.fp[0] && s[d + 1] == FractionText(n)[1];
    } else if n.ex.Exponent? {
      FirstOf(s, d + 1, ExponentText(n.ex));
    }
  }

  lemma NumeralPasses(s: bytes, i: nat, n: Numeral, check: Check)
    requires NumeralOk(n, false) && HasAt(s, i, NumeralText(n)) && !IsDigit(At(s, i + |NumeralText(n)|))
    ensures ScanFrom(s, i, false, check) <==>
            (check == Shape ==> NumeralOk(n, true)) && ScanFrom(s, i + |NumeralText(n)|, false, check)
  {
    hide HasAt, NumeralText, ExponentText, SignText;
    NumeralAtParts(s, i, n);
    DigitsQuiet(n);
    var j0 := i + |SignText(n.neg)|;
    var d := j0 + |n.ip|;
    QuietPasses(s, i, SignText(n.neg), check);
    QuietPasses(s, j0, n.ip, check);
    QuietPasses(s, d + |FractionText(n)|, ExponentText(n.ex), check);
    if n.point {
      BesideDot(s, i, n);
      HasAtConcat(s, d, [DOT], n.fp);
      QuietPasses(s, d + 1, n.fp, check);
    }
  }

  // ----- values -----

  ghost predicate ValueStands(s: bytes, i: nat, v: Json) {
    JsonOk(v, Loose) && HasAt(s, i, JsonText(v)) && !IsDigit(At(s, i + |JsonText(v)|))
  }

  lemma DelimiterNoDigit(b: byte)
    requires Delimiter(b)
    ensures !IsDigit(b)
  {
  }

  lemma BracketsPass(s: bytes, i: nat, open: byte, w: bytes, close: byte, check: Check)
    requires AllWhitespace(w) && HasAt(s, i, [open] + (w + [close]))
    requires Quiet([open]) && Quiet([close])
    ensures ScanFrom(s, i, false, check) <==> ScanFrom(s, i + 2 + |w|, false, check)
  {
    hide HasAt;
    HasAtConcat(s, i, [open], w + [close]);
    HasAtConcat(s, i + 1, w, [close]);
    WhitespaceQuiet(w);
    QuietPasses(s, i, [open], check);
    QuietPasses(s, i + 1, w, check);
    QuietPasses(s, i + 1 + |w|, [close], check);
  }

  /** A comma before white space and something that is no closer. */
  lemma CommaPasses(s: bytes, i: nat, w: bytes, check: Check)
    requires HasAt(s, i, [COMMA]) && AllWhitespace(w) && HasAt(s, i + 1, w)
    requires var b := At(s, i + 1 + |w|); !IsWhitespace(b) && b != RBRACKET && b != RBRACE
    ensures ScanFrom(s, i, false, check) <==> ScanFrom(s, i + 1, false, check)
  {
    FirstOf(s, i, [COMMA]);
    SkipWhitespaceOver(s, i + 1, w);
  }

  /** No value starts with white space or a closer. */
  lemma ValueStarts(v: Json)
    requires JsonOk(v, Loose)
    ensures |JsonText(v)| > 0
    ensures var b := JsonText(v)[0]; !IsWhitespace(b) && b != RBRACKET && b != RBRACE
  {
    hide ItemsText, ElementsText, MembersText;
  }

  lemma {:induction false} ValuePasses(s: bytes, i: nat, v: Json, check: Check)
    requires ValueStands(s, i, v)
    ensures ScanFrom(s, i, false, check) <==>
            Passing(v, check) && ScanFrom(s, i + |JsonText(v)|, false, check)
    decreases v, 1
  {
    hide HasAt, NumeralText, StringText, ElementsText, MembersText, NumeralOk, ItemsOk, ScanFrom, Merge;
    WordsQuiet();
    match v
    case JNull => QuietPasses(s, i, NULL_TEXT, check);
    case JBool(b) => QuietPasses(s, i, if b then TRUE_TEXT else FALSE_TEXT, check);
    case JNumber(n) => NumeralPasses(s, i, n, check);
    case JString(items) => StringPasses(s, i, items, check);
    case JEmptyArray(w) => BracketsPass(s, i, LBRACKET, w, RBRACKET, check);
    case JEmptyObject(w) => BracketsPass(s, i, LBRACE, w, RBRACE, check);
    case JArray(es) =>
      HasAtConcat(s, i, [LBRACKET], ElementsText(es));
      QuietPasses(s, i, [LBRACKET], check);
      ElementsPass(s, i + 1, es, check);
    case JObject(ms) =>
      HasAtConcat(s, i, [LBRACE], MembersText(ms));
      QuietPasses(s, i, [LBRACE], check);
      MembersPass(s, i + 1, ms, check);
  }

  /** White space, a value, white space, and then some text that starts with a delimiter. */
  lemma {:induction false} SpacedValuePasses(s: bytes, i: nat, w1: bytes, v: Json, w2: bytes, tail: bytes, check: Check)
    requires AllWhitespace(w1) && AllWhitespace(w2) && JsonOk(v, Loose)
    requires HasAt(s, i, w1) && HasAt(s, i + |w1|, JsonText(v))
    requires HasAt(s, i + |w1| + |JsonText(v)|, w2) && HasAt(s, i + |w1| + |JsonText(v)| + |w2|, tail)
    requires |tail| > 0 && Delimiter(tail[0])
    ensures ScanFrom(s, i, false, check) <==>
            Passing(v, check) && ScanFrom(s, i + |w1| + |JsonText(v)| + |w2|, false, check)
    decreases v, 2
  {
    hide HasAt, JsonText, JsonOk, ScanFrom, Delimiter, Passing;
    var j := i + |w1| + |JsonText(v)|;
    DelimiterAhead(s, j, w2, tail);
    DelimiterNoDigit(At(s, j));
    WhitespaceQuiet(w1);
    WhitespaceQuiet(w2);
    QuietPasses(s, i, w1, check);
    ValuePasses(s, i + |w1|, v, check);
    QuietPasses(s, j, w2, check);
  }

  lemma {:induction false} ElementsPass(s: bytes, i: nat, es: Elements, check: Check)
    requires ElementsOk(es, Loose) && HasAt(s, i, ElementsText(es))
    ensures ScanFrom(s, i, false, check) <==>
            ElementsPassing(es, check) && ScanFrom(s, i + |ElementsText(es)|, false, check)
    decreases es, 3
  {
    hide HasAt, JsonText, JsonOk, ScanFrom, AllWhitespace, Regroup;
    HasAtFour(s, i, es.w1, JsonText(es.value), es.w2, ElementsTail(es));
    SpacedValuePasses(s, i, es.w1, es.value, es.w2, ElementsTail(es), check);
    var j := i + |es.w1| + |JsonText(es.value)| + |es.w2|;
    match es
    case LastElement(_, _, _) => QuietPasses(s, j, [RBRACKET], check);
    case MoreElements(_, _, _, rest) =>
      HasAtConcat(s, j, [COMMA], ElementsText(rest));
      ElementsStart(s, j + 1, rest);
      CommaPasses(s, j, rest.w1, check);
      ElementsPass(s, j + 1, rest, check);
  }

  lemma ElementsStart(s: bytes, i: nat, es: Elements)
    requires ElementsOk(es, Loose) && HasAt(s, i, ElementsText(es))
    ensures HasAt(s, i, es.w1)
    ensures var b := At(s, i + |es.w1|); !IsWhitespace(b) && b != RBRACKET && b != RBRACE
  {
    hide HasAt, JsonText, JsonOk;
    HasAtFour(s, i, es.w1, JsonText(es.value), es.w2, ElementsTail(es));
    ValueStarts(es.value);
    FirstOf(s, i + |es.w1|, JsonText(es.value));
  }

  lemma MembersStart(s: bytes, i: nat, ms: Members)
    requires MembersOk(ms, Loose) && HasAt(s, i, MembersText(ms))
    ensures HasAt(s, i, ms.w1)
    ensures At(s, i + |ms.w1|) == QUOTE
  {
    hide HasAt, MembersText, ItemsText;
    MemberParts(s, i, ms);
    FirstOf(s, i + |ms.w1|, StringText(ms.key));
  }

  /** The key of a member, and the colon behind it. */
  lemma KeyPasses(s: bytes, i: nat, ms: Members, check: Check)
    requires MembersOk(ms, Loose) && HasAt(s, i, MembersText(ms))
    ensures var k := i + |ms.w1| + |StringText(ms.key)| + |ms.w2| + 1;
            && (ScanFrom(s, i, false, check) <==> ItemsPassing(ms.key, check) && ScanFrom(s, k, false, check))
            && HasAt(s, k, ms.w3) && HasAt(s, k + |ms.w3|, JsonText(ms.value))
            && HasAt(s, k + |ms.w3| + |JsonText(ms.value)|, ms.w4)
            && HasAt(s, k + |ms.w3| + |JsonText(ms.value)| + |ms.w4|, MembersTail(ms))
            && |MembersText(ms)| == k + |ms.w3| + |JsonText(ms.value)| + |ms.w4| + |MembersTail(ms)| - i
  {
    hide HasAt, JsonText, JsonOk, ScanFrom, StringText, ItemsOk, MembersText, ItemsPassing;
    MemberParts(s, i, ms);
    var k1 := i + |ms.w1|;
    var k2 := k1 + |StringText(ms.key)|;
    WhitespaceQuiet(ms.w1);
    WhitespaceQuiet(ms.w2);
    QuietPasses(s, i, ms.w1, check);
    StringPasses(s, k1, ms.key, check);
    QuietPasses(s, k2, ms.w2, check);
    QuietPasses(s, k2 + |ms.w2|, [COLON], check);
  }

  lemma {:induction false} MembersPass(s: bytes, i: nat, ms: Members, check: Check)
    requires MembersOk(ms, Loose) && HasAt(s, i, MembersText(ms))
    ensures ScanFrom(s, i, false, check) <==>
            MembersPassing(ms, check) && ScanFrom(s, i + |MembersText(ms)|, false, check)
    decreases ms, 3
  {
    hide HasAt, JsonText, JsonOk, ScanFrom, StringText, ItemsOk, AllWhitespace, MembersText, Regroup, Merge;
    KeyPasses(s, i, ms, check);
    var k := i + |ms.w1| + |StringText(ms.key)| + |ms.w2| + 1;
    SpacedValuePasses(s, k, ms.w3, ms.value, ms.w4, MembersTail(ms), check);
    var j := k + |ms.w3| + |JsonText(ms.value)| + |ms.w4|;
    match ms
    case LastMember(_, _, _, _, _, _) => QuietPasses(s, j, [RBRACE], check);
    case MoreMembers(_, _, _, _, _, _, rest) =>
      HasAtConcat(s, j, [COMMA], MembersText(rest));
      MembersStart(s, j + 1, rest);
      CommaPasses(s, j, rest.w1, check);
      MembersPass(s, j + 1, rest, check);
  }

  /** A scan of a whole text finds exactly what is wrong with its tree. */
  lemma DocumentScan(d: Document, check: Check)
    requires DocumentOk(d, Loose)
    ensures ScanFrom(DocumentText(d), 0, false, check) <==> Passing(d.value, check)
  {
    hide HasAt, JsonText, JsonOk, AllWhitespace, Passing;
    var s := DocumentText(d);
    var j := |d.w1| + |JsonText(d.value)|;
    assert s[0..|s|] == s;
    HasAtIsSlice(s, 0, s);
    HasAtConcat(s, 0, d.w1, JsonText(d.value) + d.w2);
    HasAtConcat(s, |d.w1|, JsonText(d.value), d.w2);
    EndDelimits(s, j, d.w2);
    DelimiterNoDigit(At(s, j));
    WhitespaceQuiet(d.w1);
    WhitespaceQuiet(d.w2);
    QuietPasses(s, 0, d.w1, check);
    ValuePasses(s, |d.w1|, d.value, check);
    QuietPasses(s, j, d.w2, check);
  }

  // ----- the theorems -----

  /**
   * `text` is a JSON text of RFC 8259, nested at most `max` deep: in the grammar of sections 2 to 7,
   * and UTF-8 as section 8.1 demands.
   */
  ghost predicate RfcText(text: bytes, max: nat) {
    WellFormed(text) && exists d :: IsRfc(text, max, d)
  }

  ghost predicate IsRfc(text: bytes, max: nat, d: Document) {
    DocumentOk(d, Rfc) && Depth(d.value) <= max && DocumentText(d) == text
  }

  function RegroupDocument(d: Document, how: Grouping): Document {
    Document(d.w1, Regroup(d.value, how), d.w2)
  }

  lemma DocumentRegrouped(d: Document, g: Grammar)
    requires PairsUp(g) && DocumentOk(d, g)
    ensures var e := RegroupDocument(d, Singly);
            && DocumentOk(e, Singled(g)) && DocumentText(e) == DocumentText(d) && Depth(e.value) == Depth(d.value)
            && Regroup(e.value, Pairwise) == d.value
  {
    hide JsonOk, JsonText, Regroup, Depth;
    RegroupOk(d.value, g);
    TextKept(d.value, Singly);
  }

  /** A tree of the strict grammar is a text of RFC 8259, if that is UTF-8. */
  lemma StrictIsRfc(d: Document, max: nat)
    requires DocumentOk(d, Strict) && Depth(d.value) <= max
    ensures RfcText(DocumentText(d), max) <==> WellFormed(DocumentText(d))
  {
    hide DocumentText, WellFormed, JsonOk, Depth, RegroupDocument;
    DocumentRegrouped(d, Strict);
    StrictDepth(d);
    assert WellFormed(DocumentText(d)) ==> IsRfc(DocumentText(d), max, RegroupDocument(d, Singly));
  }

  lemma StrictDepth(d: Document)
    ensures Depth(RegroupDocument(d, Singly).value) == Depth(d.value)
  {
    TextKept(d.value, Singly);
  }

  /** What is decoded: its tree, with all escapes by themselves, and what the scans say about it. */
  lemma DecodedScan(text: bytes, max: nat)
    requires Decode(text, max).Decoded? && NulFree(text)
    ensures EscapesPaired(text) && NoTrailingCommas(text)
    ensures ScanFrom(text, 0, false, Shape) ==>
              IsRfc(text, max, RegroupDocument(Decode(text, max).document, Singly))
  {
    hide ScanFrom, JsonOk, JsonText, Decode, DocumentText, Regroup, Depth;
    var d := Decode(text, max).document;
    DocumentSound(text, max);
    CStringOfNulFree(text);
    DocumentRegrouped(d, Relaxed);
    var e := RegroupDocument(d, Singly);
    DocumentScan(e, Escapes);
    DocumentScan(e, Commas);
    DocumentScan(e, Shape);
  }

  /** A JSON text is decoded if its escaped surrogates are paired. */
  lemma RfcDecoded(text: bytes, max: nat, e: Document)
    requires IsRfc(text, max, e)
    ensures NulFree(text) && ScanFrom(text, 0, false, Shape)
    ensures EscapesPaired(text) ==> Decode(text, max).Decoded?
  {
    hide ScanFrom, JsonOk, JsonText, Decode, DocumentText, Regroup, Depth;
    JsonLoosened(e.value, Rfc);
    DocumentNulFree(e, Rfc);
    CStringOfNulFree(text);
    DocumentScan(e, Shape);
    DocumentScan(e, Escapes);
    if EscapesPaired(text) {
      var d := RegroupDocument(e, Pairwise);
      TextKept(e.value, Pairwise);
      SameText(e, Pairwise);
      DocumentComplete(text, d, max);
    }
  }

  lemma SameText(e: Document, how: Grouping)
    ensures DocumentText(RegroupDocument(e, how)) == DocumentText(e)
  {
    TextKept(e.value, how);
  }

  /** A text of RFC 8259 within the depth limit is decoded if and only if all its escaped surrogates are paired. */
  lemma RfcDecodedIffPaired(text: bytes, max: nat)
    requires RfcText(text, max)
    ensures Decode(text, max).Decoded? <==> EscapesPaired(text)
  {
    hide Decode, EscapesPaired, WellFormed;
    var e :| IsRfc(text, max, e);
    RfcDecoded(text, max, e);
    if Decode(text, max).Decoded? {
      DecodedScan(text, max);
    }
  }

  /**
   * For every text: it is decoded and tidy if and only if it is a text of RFC 8259 within the depth
   * limit and has its surrogates paired. Being tidy is what the decoder does not check.
   */
  lemma RfcIffTidy(text: bytes, max: nat)
    ensures Decode(text, max).Decoded? && Tidy(text) <==> RfcText(text, max) && EscapesPaired(text)
  {
    hide Decode, EscapesPaired, WellFormed, ScanFrom, RegroupDocument;
    if RfcText(text, max) && EscapesPaired(text) {
      var e :| IsRfc(text, max, e);
      RfcDecoded(text, max, e);
    }
    if Decode(text, max).Decoded? && Tidy(text) {
      DecodedScan(text, max);
    }
  }

  /** For every text: one with a trailing comma, up to its first NUL, is rejected. */
  lemma TrailingCommaRejected(text: bytes, max: nat)
    requires !NoTrailingCommas(CString(text))
    ensures Decode(text, max).Rejected?
  {
    hide ScanFrom, JsonOk, JsonText, DocumentText, Regroup, Depth, ParseValue, NextToken;
    if Decode(text, max).Decoded? {
      var d := Decode(text, max).document;
      DocumentSound(text, max);
      DocumentRegrouped(d, Relaxed);
      DocumentScan(RegroupDocument(d, Singly), Commas);
    }
  }

  // ----- the differences, by example -----

  /** The text "1." is decoded, though it is not JSON. */
  lemma EmptyFractionIsAccepted()
    ensures Decode([49, DOT], 0).Decoded? && !RfcText([49, DOT], 0)
  {
    var text := [49, DOT];
    var n := Numeral(false, [49], true, [], NoExponent);
    assert NumeralText(n) == text;
    assert DocumentText(Document([], JNumber(n), [])) == text;
    Accepted(text, JNumber(n));
    BareDot();
    Untidy(text);
  }

  /** A string of one byte 0x80 is decoded, though it is not UTF-8. */
  lemma RawByteIsAccepted()
    ensures Decode([QUOTE, 0x80, QUOTE], 0).Decoded? && !RfcText([QUOTE, 0x80, QUOTE], 0)
  {
    var text := [QUOTE, 0x80, QUOTE];
    StringOfOne(Raw(0x80), text);
    Accepted(text, JString([Raw(0x80)]));
    assert text[1..][0] == 0x80;
    assert !WellFormed(text);
    Untidy(text);
  }

  /** A string of one byte 1 is decoded, though control bytes must be escaped. */
  lemma ControlByteIsAccepted()
    ensures Decode([QUOTE, 1, QUOTE], 0).Decoded? && !RfcText([QUOTE, 1, QUOTE], 0)
  {
    var text := [QUOTE, 1, QUOTE];
    StringOfOne(Raw(1), text);
    Accepted(text, JString([Raw(1)]));
    assert !ScanFrom(text, 1, true, Shape);
    Untidy(text);
  }

  /** The escape of U+D800 in a string by itself. */
  function LoneText(): bytes {
    [QUOTE, BACKSLASH, LETTER_U, 100, 56, 48, 48, QUOTE]
  }

  /** It is JSON, but not decoded. */
  lemma LoneSurrogateIsRejected()
    ensures RfcText(LoneText(), 0) && Decode(LoneText(), 0).Rejected?
  {
    LoneIsRfc();
    LoneIsFound();
    hide RfcText, LoneText, Decode, EscapesPaired;
    RfcDecodedIffPaired(LoneText(), 0);
  }

  lemma LoneIsRfc()
    ensures RfcText(LoneText(), 0)
  {
    hide RfcText, ItemOk, LoneText;
    LoneUnit([100, 56, 48, 48]);
    OneItemIsRfc(Unit([100, 56, 48, 48]), LoneText());
  }

  lemma OneItemIsRfc(c: StringItem, text: bytes)
    requires ItemOk(c, Rfc) && text == [QUOTE] + (ItemText(c) + [QUOTE]) && Ascii(text)
    ensures RfcText(text, 0)
  {
    hide ItemOk, ItemText, WellFormed;
    StringOfOne(c, text);
    AsciiWellFormed(text);
    assert IsRfc(text, 0, Document([], JString([c]), []));
  }

  lemma LoneUnit(h: bytes)
    requires h == [100, 56, 48, 48]
    ensures ItemOk(Unit(h), Rfc) && [QUOTE] + (ItemText(Unit(h)) + [QUOTE]) == LoneText()
    ensures Ascii(LoneText())
  {
  }

  lemma Accepted(text: bytes, v: Json)
    requires JsonOk(v, Relaxed) && Depth(v) == 0 && DocumentText(Document([], v, [])) == text
    ensures Decode(text, 0).Decoded? && NulFree(text)
  {
    hide Decode, JsonOk, DocumentText;
    DocumentNulFree(Document([], v, []), Relaxed);
    CStringOfNulFree(text);
    DocumentComplete(text, Document([], v, []), 0);
  }

  lemma Untidy(text: bytes)
    requires Decode(text, 0).Decoded? && NulFree(text) && !Tidy(text)
    ensures !RfcText(text, 0)
  {
    hide Decode, RfcText, Tidy;
    RfcIffTidy(text, 0);
    DecodedScan(text, 0);
  }

  lemma StringOfOne(c: StringItem, text: bytes)
    requires text == [QUOTE] + (ItemText(c) + [QUOTE])
    ensures DocumentText(Document([], JString([c]), [])) == text
  {
    hide ItemText;
    ItemsTextStep(c, []);
    assert [c] + [] == [c];
  }

  lemma BareDot()
    ensures !ScanFrom([49, DOT], 0, false, Shape)
  {
    assert !ScanFrom([49, DOT], 1, false, Shape);
  }

  lemma LoneIsFound()
    ensures !EscapesPaired(LoneText())
  {
    var s := LoneText();
    assert DecodeHex4(s, 3) == 0xD800;
    assert !PairAt(s, 1);
    assert !ScanFrom(s, 1, true, Escapes);
  }
}
