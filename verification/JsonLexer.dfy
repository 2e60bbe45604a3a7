/** The tokens of a JSON text, as the decoder cuts them, and that it cuts them right. */
module JsonLexer {
  import opened Bytes
  import opened Decimals
  import opened Utf8
  import opened JsonSyntax

  datatype Kind =
    | ObjBeginKind | ObjEndKind | ArrBeginKind | ArrEndKind | CommaKind | ColonKind
    | EndKind | WhitespaceKind | ErrorKind | UnknownKind

  datatype LexError = InvalidToken | InvalidNumber | UnexpectedEnd | InvalidUnicode | InvalidEscape

  datatype Token =
    | ObjBegin | ObjEnd | ArrBegin | ArrEnd | Comma | Colon | End
    | StringToken(items: Items)
    | NumberToken(n: Numeral)
    | BooleanToken(b: bool)
    | NullToken
    | ErrorToken(e: LexError)

  /** The type of a token, or the message of an error: what error reports mention. */
  datatype TokenType =
    | TObjBegin | TObjEnd | TArrBegin | TArrEnd | TString | TNumber | TBoolean | TNull
    | TColon | TComma | TEnd | TError(e: LexError)

  function TypeOf(t: Token): TokenType {
    match t
    case ObjBegin => TObjBegin
    case ObjEnd => TObjEnd
    case ArrBegin => TArrBegin
    case ArrEnd => TArrEnd
    case Comma => TComma
    case Colon => TColon
    case End => TEnd
    case StringToken(_) => TString
    case NumberToken(_) => TNumber
    case BooleanToken(_) => TBoolean
    case NullToken => TNull
    case ErrorToken(e) => TError(e)
  }

  /** A token, where it starts (or where the error is), and where reading goes on. */
  datatype Lexed = Lexed(tok: Token, index: nat, next: nat)

  /** The table ch2token. */
  function Ch2Token(b: byte): Kind {
    if b == LBRACE then ObjBeginKind
    else if b == RBRACE then ObjEndKind
    else if b == LBRACKET then ArrBeginKind
    else if b == RBRACKET then ArrEndKind
    else if b == COMMA then CommaKind
    else if b == COLON then ColonKind
    else if b == 0 then EndKind
    else if b == 32 || b == 9 || b == 10 || b == 13 then WhitespaceKind
    else if b == 102 || b == 105 || b == 73 || b == 110 || b == 78 || b == 116 then UnknownKind
    else if b == QUOTE || b == PLUS || b == MINUS || 48 <= b <= 57 then UnknownKind
    else ErrorKind
  }

  // ----- strings -----

  datatype ItemLex = BadItem(e: LexError) | GoodItem(c: StringItem)

  function LexUnicode(s: bytes, i: nat): (r: ItemLex)
    requires i + 2 <= |s|
    ensures r.GoodItem? ==> i + |ItemText(r.c)| <= |s|
  {
    var unit := DecodeHex4(s, i + 2);
    if unit < 0 then BadItem(InvalidUnicode)
    else if IsSurrogate(unit) then
      if !IsHigh(unit) then BadItem(InvalidUnicode)
      else if At(s, i + 6) != BACKSLASH || At(s, i + 7) != LETTER_U then BadItem(InvalidUnicode)
      else
        var low := DecodeHex4(s, i + 8);
        if low < 0 || !IsLow(low) then BadItem(InvalidUnicode)
        else GoodItem(Pair(s[i + 2..i + 6], s[i + 8..i + 12]))
    else GoodItem(Unit(s[i + 2..i + 6]))
  }

  /** One character of a string, starting at `i`. */
  function LexItem(s: bytes, i: nat): (r: ItemLex)
    requires i < |s|
    ensures r.GoodItem? ==> i + |ItemText(r.c)| <= |s|
  {
    if s[i] != BACKSLASH then GoodItem(Raw(s[i]))
    else
      var c := Escape2Char(At(s, i + 1));
      if c == LETTER_U then LexUnicode(s, i)
      else if c == 0 then BadItem(InvalidEscape)
      else GoodItem(Short(s[i + 1]))
  }

  lemma HexSlice(s: bytes, i: nat)
    requires DecodeHex4(s, i) >= 0
    ensures HasAt(s, i, s[i..i + 4]) && DecodeHex4(s[i..i + 4], 0) == DecodeHex4(s, i)
  {
    HasAtIsSlice(s, i, s[i..i + 4]);
    DecodeHex4At(s, i, s[i..i + 4]);
  }

  lemma EscapeAt(s: bytes, i: nat)
    requires At(s, i) == BACKSLASH && At(s, i + 1) == LETTER_U
    ensures HasAt(s, i, [BACKSLASH, LETTER_U])
  {
  }

  lemma LexUnicodeSound(s: bytes, i: nat)
    requires i + 2 <= |s| && s[i] == BACKSLASH && s[i + 1] == LETTER_U && LexUnicode(s, i).GoodItem?
    ensures var c := LexUnicode(s, i).c; ItemOk(c, Relaxed) && HasAt(s, i, ItemText(c))
  {
    hide DecodeHex4, HasAt;
    var c := LexUnicode(s, i).c;
    EscapeAt(s, i);
    HexSlice(s, i + 2);
    if c.Pair? {
      HexSlice(s, i + 8);
      EscapeAt(s, i + 6);
      HasAtFour(s, i, [BACKSLASH, LETTER_U], c.high, [BACKSLASH, LETTER_U], c.low);
    } else {
      HasAtConcat(s, i, [BACKSLASH, LETTER_U], c.h);
    }
  }

  lemma LexItemSound(s: bytes, i: nat)
    requires NulFree(s) && i < |s| && s[i] != QUOTE && LexItem(s, i).GoodItem?
    ensures var c := LexItem(s, i).c; ItemOk(c, Relaxed) && HasAt(s, i, ItemText(c))
  {
    if s[i] == BACKSLASH && Escape2Char(At(s, i + 1)) == LETTER_U {
      assert s[i + 1] == LETTER_U;
      LexUnicodeSound(s, i);
    }
  }

  lemma LexUnitComplete(s: bytes, i: nat, h: bytes)
    requires HasAt(s, i, [BACKSLASH, LETTER_U] + h) && ItemOk(Unit(h), Relaxed)
    ensures LexItem(s, i) == GoodItem(Unit(h))
  {
    HasAtConcat(s, i, [BACKSLASH, LETTER_U], h);
    FirstOf(s, i, [BACKSLASH, LETTER_U]);
    assert s[i + 1] == [BACKSLASH, LETTER_U][1];
    DecodeHex4At(s, i + 2, h);
    HasAtIsSlice(s, i + 2, h);
  }

  lemma LexPairComplete(s: bytes, i: nat, high: bytes, low: bytes)
    requires HasAt(s, i, ItemText(Pair(high, low))) && ItemOk(Pair(high, low), Relaxed)
    ensures LexItem(s, i) == GoodItem(Pair(high, low))
  {
    HasAtFour(s, i, [BACKSLASH, LETTER_U], high, [BACKSLASH, LETTER_U], low);
    FirstOf(s, i, [BACKSLASH, LETTER_U]);
    FirstOf(s, i + 6, [BACKSLASH, LETTER_U]);
    assert s[i + 1] == [BACKSLASH, LETTER_U][1] && s[i + 6 + 1] == [BACKSLASH, LETTER_U][1];
    DecodeHex4At(s, i + 2, high);
    DecodeHex4At(s, i + 8, low);
    HasAtIsSlice(s, i + 2, high);
    HasAtIsSlice(s, i + 8, low);
  }

  lemma LexItemComplete(s: bytes, i: nat, c: StringItem)
    requires HasAt(s, i, ItemText(c)) && ItemOk(c, Relaxed)
    ensures i < |s| && s[i] != QUOTE && LexItem(s, i) == GoodItem(c)
  {
    FirstOf(s, i, ItemText(c));
    match c
    case Raw(_) =>
    case Short(e) => assert s[i + 1] == ItemText(c)[1];
    case Unit(h) => LexUnitComplete(s, i, h);
    case Pair(high, low) => LexPairComplete(s, i, high, low);
  }

  /** The scalar value `v` is written at `i`: as one unit, or as its surrogate pair. */
  predicate ScalarEscapeAt(s: bytes, i: nat, v: nat)
    requires IsScalar(v)
  {
    if v <= 0xFFFF then DecodeHex4(s, i + 2) == v
    else
      && DecodeHex4(s, i + 2) == HighOf(v)
      && At(s, i + 6) == BACKSLASH && At(s, i + 7) == LETTER_U
      && DecodeHex4(s, i + 8) == LowOf(v)
  }

  /**
   * A \u escape that writes a scalar value is read as its UTF-8 encoding, and reading goes on 6 or
   * 12 bytes further.
   */
  lemma ScalarEscape(s: bytes, i: nat, v: nat)
    requires i + 2 <= |s| && IsScalar(v) && ScalarEscapeAt(s, i, v)
    ensures var r := LexUnicode(s, i);
            && r.GoodItem?
            && ItemMeaning(r.c) == CodepointToUtf8(v)
            && |ItemText(r.c)| == (if v <= 0xFFFF then 6 else 12)
  {
    HexSlice(s, i + 2);
    if v > 0xFFFF {
      HexSlice(s, i + 8);
    }
  }

  lemma PairsCoverSupplementary(high: nat, low: nat)
    requires IsHigh(high) && IsLow(low)
    ensures HighOf(PairValue(high, low)) == high && LowOf(PairValue(high, low)) == low
  {
  }

  /** Nothing else is accepted: lone and misordered surrogates and bad digits are errors. */
  lemma OnlyScalarEscapes(s: bytes, i: nat)
    requires i + 2 <= |s|
    ensures LexUnicode(s, i).GoodItem? <==> exists v: nat :: IsScalar(v) && ScalarEscapeAt(s, i, v)
  {
    if LexUnicode(s, i).GoodItem? {
      var unit := DecodeHex4(s, i + 2);
      if IsHigh(unit) {
        var low := DecodeHex4(s, i + 8);
        PairsCoverSupplementary(unit, low);
        assert ScalarEscapeAt(s, i, PairValue(unit, low));
      } else {
        assert ScalarEscapeAt(s, i, unit);
      }
    }
    forall v: nat | IsScalar(v) && ScalarEscapeAt(s, i, v)
      ensures LexUnicode(s, i).GoodItem?
    {
      ScalarEscape(s, i, v);
    }
  }

  datatype StringLex = StringEnd(items: Items, next: nat) | StringError(e: LexError, at: nat)

  /** The rest of a string from `i` on, through its closing quote. */
  function LexString(s: bytes, i: nat): (r: StringLex)
    requires i <= |s|
    ensures r.StringEnd? ==> i < r.next <= |s|
    ensures r.StringError? ==> i <= r.at <= |s|
    decreases |s| - i
  {
    if i == |s| then StringError(UnexpectedEnd, i)
    else if s[i] == QUOTE then StringEnd([], i + 1)
    else match LexItem(s, i)
      case BadItem(e) => StringError(e, i)
      case GoodItem(c) =>
        match LexString(s, i + |ItemText(c)|)
        case StringError(e, at) => StringError(e, at)
        case StringEnd(rest, next) => StringEnd([c] + rest, next)
  }

  lemma {:induction false} LexStringSound(s: bytes, i: nat)
    requires NulFree(s) && i <= |s| && LexString(s, i).StringEnd?
    ensures var r := LexString(s, i);
            && ItemsOk(r.items, Relaxed)
            && HasAt(s, i, ItemsText(r.items))
            && r.next == i + |ItemsText(r.items)|
    decreases |s| - i
  {
    hide LexItem, ItemOk, ItemText;
    if s[i] == QUOTE {
    } else {
      var c := LexItem(s, i).c;
      LexItemSound(s, i);
      var j := i + |ItemText(c)|;
      LexStringSound(s, j);
      var rest := LexString(s, j).items;
      assert ([c] + rest)[1..] == rest;
      HasAtConcat(s, i, ItemText(c), ItemsText(rest));
    }
  }

  lemma {:induction false} LexStringComplete(s: bytes, i: nat, cs: Items)
    requires ItemsOk(cs, Relaxed) && HasAt(s, i, ItemsText(cs))
    ensures LexString(s, i) == StringEnd(cs, i + |ItemsText(cs)|)
    decreases |cs|
  {
    hide LexItem, ItemOk, ItemText, HasAt;
    if |cs| == 0 {
      FirstOf(s, i, [QUOTE]);
    } else {
      HasAtConcat(s, i, ItemText(cs[0]), ItemsText(cs[1..]));
      assert ItemOk(cs[0], Relaxed);
      LexItemComplete(s, i, cs[0]);
      LexStringComplete(s, i + |ItemText(cs[0])|, cs[1..]);
      assert cs == [cs[0]] + cs[1..];
    }
  }

  // ----- numbers -----

  predicate HasAtIgnoringCase(s: bytes, i: nat, t: bytes) {
    i + |t| <= |s| && forall k :: 0 <= k < |t| ==> Lower(s[i + k]) == t[k]
  }

  /** "Numbers" that strtod might take but strict JSON does not allow. Bytes above 127 are negative chars. */
  predicate IsInvalidNumber(s: bytes, i: nat) {
    if At(s, i) == PLUS then true
    else
      var p := if At(s, i) == MINUS then i + 1 else i;
      if At(s, p) == ZERO then Lower(At(s, p + 1)) == 120 || IsDigit(At(s, p + 1))
      else if At(s, p) <= 57 || At(s, p) >= 128 then false
      else HasAtIgnoringCase(s, p, [105, 110, 102]) || HasAtIgnoringCase(s, p, [110, 97, 110])
  }

  function LexNumber(s: bytes, k: nat): Lexed
    requires k <= |s|
  {
    if IsInvalidNumber(s, k) then Lexed(ErrorToken(InvalidNumber), k, k)
    else match ScanNumber(s, k, DOT)
      case NoNumber => Lexed(ErrorToken(InvalidNumber), k, k)
      case Scanned(plus, n) => Lexed(NumberToken(n), k, k + ScanLength(Scanned(plus, n)))
  }

  predicate NumberStart(b: byte) {
    b == MINUS || IsDigit(b)
  }

  lemma LexNumberSound(s: bytes, k: nat)
    requires k < |s| && NumberStart(s[k]) && LexNumber(s, k).tok.NumberToken?
    ensures var n := LexNumber(s, k).tok.n;
            && NumeralOk(n, false)
            && HasAt(s, k, NumeralText(n))
            && LexNumber(s, k).next == k + |NumeralText(n)|
  {
    hide ScanNumber, NumeralText;
    ScanSound(s, k);
    var n := LexNumber(s, k).tok.n;
    var j0 := k + |SignText(n.neg)|;
    NumeralAtParts(s, k, n);
    if |n.ip| > 1 {
      FirstOf(s, j0, n.ip);
      assert s[j0 + 1] == n.ip[1];
      assert n.ip[0] != ZERO;
    } else if |n.ip| == 0 && !n.neg {
      FirstOf(s, k, FractionText(n));
    }
  }

  predicate Delimiter(b: byte) {
    IsWhitespace(b) || b == COMMA || b == RBRACKET || b == RBRACE || b == 0
  }

  lemma LexNumberComplete(s: bytes, k: nat, n: Numeral)
    requires NumeralOk(n, false) && HasAt(s, k, NumeralText(n))
    requires Delimiter(At(s, k + |NumeralText(n)|))
    ensures k < |s| && NumberStart(s[k])
    ensures LexNumber(s, k) == Lexed(NumberToken(n), k, k + |NumeralText(n)|)
  {
    hide ScanNumber, NumeralText;
    ScanComplete(s, k, n);
    NumeralAtParts(s, k, n);
    ScanSign(s, k, n);
    NumberIsValid(s, k, n);
  }

  lemma NumberIsValid(s: bytes, k: nat, n: Numeral)
    requires NumeralOk(n, false) && PartsAt(s, k, n)
    requires Delimiter(At(s, k + |SignText(n.neg)| + |n.ip| + |FractionText(n)| + |ExponentText(n.ex)|))
    ensures k < |s| && NumberStart(s[k]) && !IsInvalidNumber(s, k)
  {
    var j0 := k + |SignText(n.neg)|;
    var j1 := j0 + |n.ip|;
    ScanSign(s, k, n);
    if |n.ip| > 0 {
      FirstOf(s, j0, n.ip);
      if n.ip == [ZERO] {
        AfterInteger(s, j1, n);
      }
    } else {
      FirstOf(s, j1, FractionText(n));
    }
  }

  lemma AfterInteger(s: bytes, j1: nat, n: Numeral)
    requires Scannable(n)
    requires HasAt(s, j1, FractionText(n)) && HasAt(s, j1 + |FractionText(n)|, ExponentText(n.ex))
    requires Delimiter(At(s, j1 + |FractionText(n)| + |ExponentText(n.ex)|))
    ensures var b := At(s, j1); b == DOT || b == 101 || b == 69 || Delimiter(b)
  {
    if n.point {
      FirstOf(s, j1, FractionText(n));
    } else if n.ex.Exponent? {
      FirstOf(s, j1, ExponentText(n.ex));
    }
  }

  // ----- all tokens -----

  function SkipWhitespace(s: bytes, i: nat): (k: nat)
    requires i <= |s|
    ensures i <= k <= |s|
    ensures AllWhitespace(s[i..k])
    ensures !IsWhitespace(At(s, k))
    decreases |s| - i
  {
    if i < |s| && IsWhitespace(s[i]) then
      var k := SkipWhitespace(s, i + 1);
      assert s[i..k] == [s[i]] + s[i + 1..k];
      k
    else i
  }

  function LexUnknown(s: bytes, k: nat): Lexed
    requires k < |s|
  {
    if s[k] == QUOTE then
      match LexString(s, k + 1)
      case StringEnd(items, next) => Lexed(StringToken(items), k, next)
      case StringError(e, at) => Lexed(ErrorToken(e), at, at)
    else if NumberStart(s[k]) then LexNumber(s, k)
    else if HasAt(s, k, TRUE_TEXT) then Lexed(BooleanToken(true), k, k + 4)
    else if HasAt(s, k, FALSE_TEXT) then Lexed(BooleanToken(false), k, k + 5)
    else if HasAt(s, k, NULL_TEXT) then Lexed(NullToken, k, k + 4)
    else Lexed(ErrorToken(InvalidToken), k, k)
  }

  /** The next token of the C string `s` at or after `i`. */
  function NextToken(s: bytes, i: nat): (r: Lexed)
    requires i <= |s|
  {
    var k := SkipWhitespace(s, i);
    match Ch2Token(At(s, k))
    case ObjBeginKind => Lexed(ObjBegin, k, k + 1)
    case ObjEndKind => Lexed(ObjEnd, k, k + 1)
    case ArrBeginKind => Lexed(ArrBegin, k, k + 1)
    case ArrEndKind => Lexed(ArrEnd, k, k + 1)
    case CommaKind => Lexed(Comma, k, k + 1)
    case ColonKind => Lexed(Colon, k, k + 1)
    case UnknownKind => LexUnknown(s, k)
    case EndKind => Lexed(End, k, k)
    case _ => Lexed(ErrorToken(InvalidToken), k, k)
  }

  function TokenText(t: Token): bytes
    requires !t.ErrorToken?
  {
    match t
    case ObjBegin => [LBRACE]
    case ObjEnd => [RBRACE]
    case ArrBegin => [LBRACKET]
    case ArrEnd => [RBRACKET]
    case Comma => [COMMA]
    case Colon => [COLON]
    case End => []
    case StringToken(items) => StringText(items)
    case NumberToken(n) => NumeralText(n)
    case BooleanToken(b) => if b then TRUE_TEXT else FALSE_TEXT
    case NullToken => NULL_TEXT
  }

  ghost predicate TokenOk(t: Token) {
    match t
    case StringToken(items) => ItemsOk(items, Relaxed)
    case NumberToken(n) => NumeralOk(n, false)
    case ErrorToken(_) => false
    case _ => true
  }

  /** A token really stands where the lexer says, after white space only. */
  ghost predicate TokenAt(s: bytes, i: nat, r: Lexed) {
    && i <= r.index <= r.next <= |s|
    && (!r.tok.ErrorToken? ==>
          && AllWhitespace(s[i..r.index])
          && TokenOk(r.tok)
          && HasAt(s, r.index, TokenText(r.tok))
          && r.next == r.index + |TokenText(r.tok)|)
    && (r.tok.End? ==> r.index == |s|)
    && (!r.tok.ErrorToken? && !r.tok.End? ==> r.index < r.next)
  }

  lemma LexUnknownSound(s: bytes, k: nat)
    requires NulFree(s) && k < |s| && Ch2Token(s[k]) == UnknownKind
    ensures var r := LexUnknown(s, k); TokenAt(s, k, r) && !r.tok.End?
  {
    hide NumeralText, LexNumber;
    if s[k] == QUOTE {
      if LexString(s, k + 1).StringEnd? {
        var items := LexString(s, k + 1).items;
        LexStringSound(s, k + 1);
        HasAtConcat(s, k, [QUOTE], ItemsText(items));
      }
    } else if NumberStart(s[k]) {
      LexNumberTotal(s, k);
    }
  }

  lemma LexNumberTotal(s: bytes, k: nat)
    requires k < |s| && NumberStart(s[k])
    ensures var r := LexNumber(s, k);
            && r.index == k && k <= r.next <= |s|
            && (r.tok.NumberToken? || r.tok.ErrorToken?)
            && (r.tok.NumberToken? ==>
                  && NumeralOk(r.tok.n, false) && HasAt(s, k, NumeralText(r.tok.n))
                  && r.next == k + |NumeralText(r.tok.n)| && r.next > k)
  {
    if LexNumber(s, k).tok.NumberToken? {
      LexNumberSound(s, k);
    }
  }

  lemma NextTokenSound(s: bytes, i: nat)
    requires NulFree(s) && i <= |s|
    ensures TokenAt(s, i, NextToken(s, i))
  {
    hide LexUnknown, ItemsOk, NumeralOk, NumeralText;
    var k := SkipWhitespace(s, i);
    if k < |s| && Ch2Token(s[k]) == UnknownKind {
      LexUnknownSound(s, k);
    }
  }

  lemma {:induction false} SkipWhitespaceOver(s: bytes, i: nat, w: bytes)
    requires AllWhitespace(w) && HasAt(s, i, w) && !IsWhitespace(At(s, i + |w|))
    ensures SkipWhitespace(s, i) == i + |w|
    decreases |w|
  {
    if |w| == 0 {
    } else {
      FirstOf(s, i, w);
      assert w == [w[0]] + w[1..];
      HasAtConcat(s, i, [w[0]], w[1..]);
      SkipWhitespaceOver(s, i + 1, w[1..]);
    }
  }

  lemma LexUnknownComplete(s: bytes, k: nat, t: Token)
    requires TokenOk(t) && HasAt(s, k, TokenText(t))
    requires t.StringToken? || t.NumberToken? || t.BooleanToken? || t.NullToken?
    requires t.NumberToken? ==> Delimiter(At(s, k + |TokenText(t)|))
    ensures k < |s| && Ch2Token(s[k]) == UnknownKind
    ensures LexUnknown(s, k) == Lexed(t, k, k + |TokenText(t)|)
  {
    hide LexNumber, NumeralText;
    match t
    case StringToken(items) =>
      HasAtConcat(s, k, [QUOTE], ItemsText(items));
      FirstOf(s, k, [QUOTE]);
      LexStringComplete(s, k + 1, items);
    case NumberToken(n) => LexNumberComplete(s, k, n);
    case BooleanToken(b) =>
      FirstOf(s, k, TokenText(t));
      assert TRUE_TEXT[0] == 116;
    case NullToken =>
      FirstOf(s, k, NULL_TEXT);
      assert TRUE_TEXT[0] == 116 && FALSE_TEXT[0] == 102;
  }

  /** Every token that stands in the text after white space is found. */
  lemma NextTokenComplete(s: bytes, i: nat, w: bytes, t: Token)
    requires AllWhitespace(w) && HasAt(s, i, w)
    requires TokenOk(t) && HasAt(s, i + |w|, TokenText(t))
    requires t.NumberToken? ==> Delimiter(At(s, i + |w| + |TokenText(t)|))
    requires t.End? ==> i + |w| == |s|
    ensures NextToken(s, i) == Lexed(t, i + |w|, i + |w| + |TokenText(t)|)
  {
    hide LexUnknown, NumeralText, StringText, ItemsOk, NumeralOk;
    var k := i + |w|;
    if t.StringToken? || t.NumberToken? || t.BooleanToken? || t.NullToken? {
      LexUnknownComplete(s, k, t);
    } else if !t.End? {
      FirstOf(s, k, TokenText(t));
    }
    SkipWhitespaceOver(s, i, w);
  }
}
