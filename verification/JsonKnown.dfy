/**
 * The tables and the words of lua_cjson.c written out, and what it makes of some short texts: what the
 * theorems, which speak of named bytes and errors, leave to be checked by eye.
 */
module JsonKnown {
  import opened Bytes
  import opened Decimals
  import opened JsonEncoder
  import opened JsonGrammar
  import opened JsonLexer
  import opened JsonParser
  import opened JsonSyntax
  import opened Utf8

  /** The bytes of a text of characters below 256. */
  function Latin(t: string): (s: bytes)
    ensures |s| == |t|
  {
    seq(|t|, i requires 0 <= i < |t| => if t[i] as int < 256 then t[i] as int else 0)
  }

  // ----- tables -----

  /** The escapes of the bytes below 32. */
  const CONTROLS: seq<string> :=
    ["\\u0000", "\\u0001", "\\u0002", "\\u0003", "\\u0004", "\\u0005", "\\u0006", "\\u0007",
     "\\b", "\\t", "\\n", "\\u000b", "\\f", "\\r", "\\u000e", "\\u000f",
     "\\u0010", "\\u0011", "\\u0012", "\\u0013", "\\u0014", "\\u0015", "\\u0016", "\\u0017",
     "\\u0018", "\\u0019", "\\u001a", "\\u001b", "\\u001c", "\\u001d", "\\u001e", "\\u001f"]

  lemma ShortControls()
    ensures Char2Escape(8) == Latin(CONTROLS[8]) && Char2Escape(9) == Latin(CONTROLS[9])
    ensures Char2Escape(10) == Latin(CONTROLS[10]) && Char2Escape(12) == Latin(CONTROLS[12])
    ensures Char2Escape(13) == Latin(CONTROLS[13])
  {
  }

  /** Two hexadecimal digits, the letters in lower case. */
  const HEX: string := "0123456789abcdef"

  lemma HexDigitIs(d: nat)
    requires d < 16
    ensures HexDigit(d) == HEX[d] as int
  {
  }

  lemma LongControls(b: byte)
    requires b < 32 && b != 8 && b != 9 && b != 10 && b != 12 && b != 13
    ensures CONTROLS[b] == "\\u00" + [HEX[b / 16], HEX[b % 16]]
  {
  }

  lemma ControlsWritten(b: byte)
    requires b < 32
    ensures Char2Escape(b) == Latin(CONTROLS[b])
  {
    if b == 8 || b == 9 || b == 10 || b == 12 || b == 13 {
      ShortControls();
    } else {
      LongControls(b);
      HexDigitIs(b / 16);
      HexDigitIs(b % 16);
      hide HexDigit;
      assert Latin("\\u00") == [BACKSLASH, LETTER_U, 48, 48];
    }
  }

  /** The table char2escape: only these bytes are escaped, and in this way. */
  lemma EscapesWritten(b: byte)
    ensures b < 32 ==> Char2Escape(b) == Latin(CONTROLS[b])
    ensures b == '"' as int ==> Char2Escape(b) == Latin("\\\"")
    ensures b == '/' as int ==> Char2Escape(b) == Latin("\\/")
    ensures b == '\\' as int ==> Char2Escape(b) == Latin("\\\\")
    ensures b == 127 ==> Char2Escape(b) == Latin("\\u007f")
    ensures b >= 32 && b as char !in "\"/\\\U{7F}" ==> Char2Escape(b) == []
  {
    if b < 32 {
      ControlsWritten(b);
    } else if b == 127 {
      assert Latin("\\u007f") == [BACKSLASH, LETTER_U, 48, 48, 55, 102];
    }
  }

  lemma Characters()
    ensures [QUOTE, BACKSLASH, LETTER_U, COMMA, COLON] == Latin("\"\\u,:")
    ensures [LBRACKET, RBRACKET, LBRACE, RBRACE] == Latin("[]{}")
    ensures [DOT, MINUS, PLUS, ZERO] == Latin(".-+0")
    ensures NULL_TEXT == Latin("null") && TRUE_TEXT == Latin("true") && FALSE_TEXT == Latin("false")
  {
  }

  /** The table ch2token. */
  lemma TokenTable(b: byte)
    ensures Ch2Token(b) == UnknownKind <==> b as char in "fiInNt\"+-0123456789"
    ensures Ch2Token(b) == WhitespaceKind <==> b as char in " \t\n\r"
    ensures Ch2Token(b) == EndKind <==> b == 0
    ensures Ch2Token(b) == ObjBeginKind <==> b == '{' as int
    ensures Ch2Token(b) == ObjEndKind <==> b == '}' as int
    ensures Ch2Token(b) == ArrBeginKind <==> b == '[' as int
    ensures Ch2Token(b) == ArrEndKind <==> b == ']' as int
    ensures Ch2Token(b) == CommaKind <==> b == ',' as int
    ensures Ch2Token(b) == ColonKind <==> b == ':' as int
  {
    UnknownBytes(b);
    WhitespaceOfJson(b);
  }

  lemma UnknownBytes(b: byte)
    ensures b as char in "fiInNt\"+-0123456789" <==>
            || b == 102 || b == 105 || b == 73 || b == 110 || b == 78 || b == 116
            || b == 34 || b == 43 || b == 45 || 48 <= b <= 57
  {
  }

  lemma WhitespaceOfJson(b: byte)
    ensures IsWhitespace(b) <==> b as char in " \t\n\r"
  {
  }

  /** The table escape2char, but for 'u'; all other bytes are no escapes. */
  lemma EscapesRead(c: byte)
    ensures c == 'b' as int ==> Escape2Char(c) == '\U{8}' as int
    ensures c == 't' as int ==> Escape2Char(c) == '\t' as int
    ensures c == 'n' as int ==> Escape2Char(c) == '\n' as int
    ensures c == 'f' as int ==> Escape2Char(c) == '\U{C}' as int
    ensures c == 'r' as int ==> Escape2Char(c) == '\r' as int
    ensures c as char in "\"\\/u" ==> Escape2Char(c) == c
    ensures c as char !in "btnfr\"\\/u" ==> Escape2Char(c) == 0
  {
  }

  // ----- numbers that are none -----

  /** `t` stands at `i`, its letters in either case; `upper` is `t` in capitals. */
  ghost predicate StandsInAnyCase(s: bytes, i: nat, t: string, upper: string)
    requires |t| == |upper|
  {
    i + |t| <= |s| && forall k :: 0 <= k < |t| ==> s[i + k] == t[k] as int || s[i + k] == upper[k] as int
  }

  /**
   * json_is_invalid_number finds a plus sign, or behind an optional minus sign a leading zero, a
   * hexadecimal prefix, or the beginning of an infinity or a NaN; and nothing else.
   */
  lemma InvalidNumbers(s: bytes, i: nat)
    ensures IsInvalidNumber(s, i) <==>
            var p := if At(s, i) == '-' as int then i + 1 else i;
            || At(s, i) == '+' as int
            || (At(s, p) == '0' as int && '0' as int <= At(s, p + 1) <= '9' as int)
            || StandsInAnyCase(s, p, "0x", "0X")
            || StandsInAnyCase(s, p, "inf", "INF")
            || StandsInAnyCase(s, p, "nan", "NAN")
  {
    var p := if At(s, i) == MINUS then i + 1 else i;
    HexPrefix(s, p);
    WordInAnyCase(s, p, "inf", "INF", [105, 110, 102]);
    WordInAnyCase(s, p, "nan", "NAN", [110, 97, 110]);
  }

  lemma HexPrefix(s: bytes, i: nat)
    ensures StandsInAnyCase(s, i, "0x", "0X") <==> At(s, i) == 48 && (At(s, i + 1) == 120 || At(s, i + 1) == 88)
  {
    var t, upper := "0x", "0X";
    if StandsInAnyCase(s, i, t, upper) {
      LetterAt(s, i, t, upper, 0);
      LetterAt(s, i, t, upper, 1);
    }
  }

  lemma LetterAt(s: bytes, i: nat, t: string, upper: string, k: nat)
    requires |t| == |upper| && StandsInAnyCase(s, i, t, upper) && k < |t|
    ensures i + k < |s| && (s[i + k] == t[k] as int || s[i + k] == upper[k] as int)
  {
  }

  lemma WordInAnyCase(s: bytes, i: nat, t: string, upper: string, lower: bytes)
    requires |t| == |upper| == |lower| == 3
    requires forall k :: 0 <= k < 3 ==>
               97 <= lower[k] <= 122 && t[k] as int == lower[k] && upper[k] as int == lower[k] - 32
    ensures StandsInAnyCase(s, i, t, upper) <==> HasAtIgnoringCase(s, i, lower)
    ensures StandsInAnyCase(s, i, t, upper) ==> At(s, i) == lower[0] || At(s, i) == lower[0] - 32
  {
    forall k | 0 <= k < 3 && i + 3 <= |s|
      ensures Lower(s[i + k]) == lower[k] <==> s[i + k] == t[k] as int || s[i + k] == upper[k] as int
    {
    }
    if StandsInAnyCase(s, i, t, upper) {
      assert s[i + 0] == lower[0] || s[i + 0] == lower[0] - 32;
    }
  }

  // ----- texts with one mistake -----

  /** The number 1, without ornament. */
  const ONE: Numeral := Numeral(false, [49], false, [], NoExponent)

  lemma Punctuation(s: bytes, i: nat)
    requires i < |s|
    ensures s[i] == LBRACKET ==> NextToken(s, i) == Lexed(ArrBegin, i, i + 1)
    ensures s[i] == RBRACKET ==> NextToken(s, i) == Lexed(ArrEnd, i, i + 1)
    ensures s[i] == LBRACE ==> NextToken(s, i) == Lexed(ObjBegin, i, i + 1)
    ensures s[i] == COMMA ==> NextToken(s, i) == Lexed(Comma, i, i + 1)
    ensures s[i] == COLON ==> NextToken(s, i) == Lexed(Colon, i, i + 1)
  {
  }

  lemma One(s: bytes, i: nat)
    requires i < |s| && s[i] == 49 && Delimiter(At(s, i + 1))
    ensures NextToken(s, i) == Lexed(NumberToken(ONE), i, i + 1)
  {
    assert NumeralText(ONE) == [49];
    hide NextToken;
    NextTokenComplete(s, i, [], NumberToken(ONE));
  }

  lemma SpaceThenOne(s: bytes, i: nat)
    requires i + 1 < |s| && s[i] == 32 && s[i + 1] == 49 && Delimiter(At(s, i + 2))
    ensures NextToken(s, i) == Lexed(NumberToken(ONE), i + 1, i + 2)
  {
    assert NumeralText(ONE) == [49];
    hide NextToken;
    NextTokenComplete(s, i, [32], NumberToken(ONE));
  }

  lemma EmptyString(s: bytes, i: nat)
    requires i + 1 < |s| && s[i] == QUOTE && s[i + 1] == QUOTE
    ensures NextToken(s, i) == Lexed(StringToken([]), i, i + 2)
  {
    assert LexString(s, i + 1) == StringEnd([], i + 2);
  }

  /** A text that is read as it stands. */
  ghost predicate Plain(s: bytes) {
    NulFree(s) && CString(s) == s && !LooksWide(s)
  }

  lemma NoNulIsPlain(s: bytes)
    requires NulFree(s)
    ensures Plain(s)
  {
    CStringOfNulFree(s);
  }

  lemma NoValueTokens(s: bytes)
    requires s == [91, 49, 44, 93]
    ensures Plain(s)
    ensures NextToken(s, 0) == Lexed(ArrBegin, 0, 1)
    ensures NextToken(s, 1) == Lexed(NumberToken(ONE), 1, 2)
    ensures NextToken(s, 2) == Lexed(Comma, 2, 3)
    ensures NextToken(s, 3) == Lexed(ArrEnd, 3, 4)
  {
    hide NextToken, Plain;
    NoNulIsPlain(s);
    Punctuation(s, 0);
    One(s, 1);
    Punctuation(s, 2);
    Punctuation(s, 3);
  }

  lemma NoValueParsed(s: bytes, max: nat)
    requires Plain(s) && |s| == 4 && max >= 1
    requires NextToken(s, 0) == Lexed(ArrBegin, 0, 1)
    requires NextToken(s, 1) == Lexed(NumberToken(ONE), 1, 2)
    requires NextToken(s, 2) == Lexed(Comma, 2, 3)
    requires NextToken(s, 3) == Lexed(ArrEnd, 3, 4)
    ensures Decode(s, max) == Rejected(Unexpected(AValue, TArrEnd, 3))
  {
    hide NextToken, LooksWide, CString, NulFree, TokenAt, ParseObject, ParseMembers;
    NextTokenSound(s, 1);
    NextTokenSound(s, 3);
    assert ParseValue(s, NextToken(s, 3), 1, max) == Failed(Unexpected(AValue, TArrEnd, 3));
    assert ParseElements(s, 3, NextToken(s, 3), 1, max) == Failed(Unexpected(AValue, TArrEnd, 3));
    assert ParseValue(s, NextToken(s, 1), 1, max) == Parsed(JNumber(ONE), 2);
    assert ParseElements(s, 1, NextToken(s, 1), 1, max) == Failed(Unexpected(AValue, TArrEnd, 3));
    hide ParseElements;
    assert ParseArray(s, 1, 0, max) == Failed(Unexpected(AValue, TArrEnd, 3));
  }

  /** [1,]: no value behind the comma. */
  lemma NoValue(max: nat)
    requires max >= 1
    ensures Decode(Latin("[1,]"), max) == Rejected(Unexpected(AValue, TArrEnd, 3))
  {
    var s := Latin("[1,]");
    assert s == [91, 49, 44, 93];
    hide *;
    NoValueTokens(s);
    NoValueParsed(s, max);
  }

  lemma NoCommaTokens(s: bytes)
    requires s == [91, 49, 32, 49, 93]
    ensures Plain(s)
    ensures NextToken(s, 0) == Lexed(ArrBegin, 0, 1)
    ensures NextToken(s, 1) == Lexed(NumberToken(ONE), 1, 2)
    ensures NextToken(s, 2) == Lexed(NumberToken(ONE), 3, 4)
  {
    hide NextToken, Plain;
    NoNulIsPlain(s);
    Punctuation(s, 0);
    One(s, 1);
    SpaceThenOne(s, 2);
  }

  lemma NoCommaParsed(s: bytes, max: nat)
    requires Plain(s) && |s| == 5 && max >= 1
    requires NextToken(s, 0) == Lexed(ArrBegin, 0, 1)
    requires NextToken(s, 1) == Lexed(NumberToken(ONE), 1, 2)
    requires NextToken(s, 2) == Lexed(NumberToken(ONE), 3, 4)
    ensures Decode(s, max) == Rejected(Unexpected(CommaOrArrayEnd, TNumber, 3))
  {
    hide NextToken, LooksWide, CString, NulFree, TokenAt, ParseObject, ParseMembers;
    NextTokenSound(s, 1);
    assert ParseValue(s, NextToken(s, 1), 1, max) == Parsed(JNumber(ONE), 2);
    assert ParseElements(s, 1, NextToken(s, 1), 1, max) == Failed(Unexpected(CommaOrArrayEnd, TNumber, 3));
    hide ParseElements;
    assert ParseArray(s, 1, 0, max) == Failed(Unexpected(CommaOrArrayEnd, TNumber, 3));
  }

  /** [1 1]: no comma between the values. */
  lemma NoComma(max: nat)
    requires max >= 1
    ensures Decode(Latin("[1 1]"), max) == Rejected(Unexpected(CommaOrArrayEnd, TNumber, 3))
  {
    var s := Latin("[1 1]");
    assert s == [91, 49, 32, 49, 93];
    hide *;
    NoCommaTokens(s);
    NoCommaParsed(s, max);
  }

  lemma NoKeyTokens(s: bytes)
    requires s == [123, 49, 32, 125]
    ensures Plain(s)
    ensures NextToken(s, 0) == Lexed(ObjBegin, 0, 1)
    ensures NextToken(s, 1) == Lexed(NumberToken(ONE), 1, 2)
  {
    hide NextToken, Plain;
    NoNulIsPlain(s);
    Punctuation(s, 0);
    One(s, 1);
  }

  lemma NoKeyParsed(s: bytes, max: nat)
    requires Plain(s) && |s| == 4 && max >= 1
    requires NextToken(s, 0) == Lexed(ObjBegin, 0, 1)
    requires NextToken(s, 1) == Lexed(NumberToken(ONE), 1, 2)
    ensures Decode(s, max) == Rejected(Unexpected(AKey, TNumber, 1))
  {
    hide NextToken, LooksWide, CString, NulFree, TokenAt, ParseArray, ParseElements;
    NextTokenSound(s, 1);
    assert ParseMembers(s, 1, NextToken(s, 1), 1, max) == Failed(Unexpected(AKey, TNumber, 1));
    hide ParseMembers;
    assert ParseObject(s, 1, 0, max) == Failed(Unexpected(AKey, TNumber, 1));
  }

  /** {1 }: a key that is no string. */
  lemma NoKey(max: nat)
    requires max >= 1
    ensures Decode(Latin("{1 }"), max) == Rejected(Unexpected(AKey, TNumber, 1))
  {
    var s := Latin("{1 }");
    assert s == [123, 49, 32, 125];
    hide *;
    NoKeyTokens(s);
    NoKeyParsed(s, max);
  }

  lemma NoColonTokens(s: bytes)
    requires s == [123, 34, 34, 32, 49, 125]
    ensures Plain(s)
    ensures NextToken(s, 0) == Lexed(ObjBegin, 0, 1)
    ensures NextToken(s, 1) == Lexed(StringToken([]), 1, 3)
    ensures NextToken(s, 3) == Lexed(NumberToken(ONE), 4, 5)
  {
    hide NextToken, Plain;
    NoNulIsPlain(s);
    Punctuation(s, 0);
    EmptyString(s, 1);
    SpaceThenOne(s, 3);
  }

  lemma NoColonParsed(s: bytes, max: nat)
    requires Plain(s) && |s| == 6 && max >= 1
    requires NextToken(s, 0) == Lexed(ObjBegin, 0, 1)
    requires NextToken(s, 1) == Lexed(StringToken([]), 1, 3)
    requires NextToken(s, 3) == Lexed(NumberToken(ONE), 4, 5)
    ensures Decode(s, max) == Rejected(Unexpected(AColon, TNumber, 4))
  {
    hide NextToken, LooksWide, CString, NulFree, TokenAt, ParseArray, ParseElements;
    NextTokenSound(s, 1);
    assert ParseMembers(s, 1, NextToken(s, 1), 1, max) == Failed(Unexpected(AColon, TNumber, 4));
    hide ParseMembers;
    assert ParseObject(s, 1, 0, max) == Failed(Unexpected(AColon, TNumber, 4));
  }

  /** {"" 1}: no colon behind the key. */
  lemma NoColon(max: nat)
    requires max >= 1
    ensures Decode(Latin("{\"\" 1}"), max) == Rejected(Unexpected(AColon, TNumber, 4))
  {
    var s := Latin("{\"\" 1}");
    assert s == [123, 34, 34, 32, 49, 125];
    hide *;
    NoColonTokens(s);
    NoColonParsed(s, max);
  }

  lemma NoMemberCommaTokens(s: bytes)
    requires s == [123, 34, 34, 58, 49, 32, 49]
    ensures Plain(s)
    ensures NextToken(s, 0) == Lexed(ObjBegin, 0, 1)
    ensures NextToken(s, 1) == Lexed(StringToken([]), 1, 3)
    ensures NextToken(s, 3) == Lexed(Colon, 3, 4)
    ensures NextToken(s, 4) == Lexed(NumberToken(ONE), 4, 5)
    ensures NextToken(s, 5) == Lexed(NumberToken(ONE), 6, 7)
  {
    hide NextToken, Plain;
    NoNulIsPlain(s);
    Punctuation(s, 0);
    EmptyString(s, 1);
    Punctuation(s, 3);
    One(s, 4);
    SpaceThenOne(s, 5);
  }

  /** An object at the start of a text fails where its members do. */
  lemma MembersFailed(s: bytes, max: nat, e: DecodeError)
    requires Plain(s) && |s| >= 1 && max >= 1 && NextToken(s, 0) == Lexed(ObjBegin, 0, 1)
    requires NextToken(s, 1).tok != ObjEnd && TokenAt(s, 1, NextToken(s, 1))
    requires ParseMembers(s, 1, NextToken(s, 1), 1, max) == Failed(e)
    ensures Decode(s, max) == Rejected(e)
  {
    hide NextToken, LooksWide, CString, NulFree, TokenAt, ParseArray, ParseMembers;
    assert ParseObject(s, 1, 0, max) == Failed(e);
  }

  lemma NoMemberCommaParsed(s: bytes, max: nat)
    requires Plain(s) && |s| == 7 && max >= 1
    requires NextToken(s, 0) == Lexed(ObjBegin, 0, 1)
    requires NextToken(s, 1) == Lexed(StringToken([]), 1, 3)
    requires NextToken(s, 3) == Lexed(Colon, 3, 4)
    requires NextToken(s, 4) == Lexed(NumberToken(ONE), 4, 5)
    requires NextToken(s, 5) == Lexed(NumberToken(ONE), 6, 7)
    ensures Decode(s, max) == Rejected(Unexpected(CommaOrObjectEnd, TNumber, 6))
  {
    hide NextToken, LooksWide, CString, NulFree, TokenAt, ParseArray, ParseElements;
    NextTokenSound(s, 1);
    assert ParseValue(s, NextToken(s, 4), 1, max) == Parsed(JNumber(ONE), 5);
    hide ParseObject, ParseValue;
    assert ParseMembers(s, 1, NextToken(s, 1), 1, max) == Failed(Unexpected(CommaOrObjectEnd, TNumber, 6));
    MembersFailed(s, max, Unexpected(CommaOrObjectEnd, TNumber, 6));
  }

  /** {"":1 1: no comma between the members. */
  lemma NoMemberComma(max: nat)
    requires max >= 1
    ensures Decode(Latin("{\"\":1 1"), max) == Rejected(Unexpected(CommaOrObjectEnd, TNumber, 6))
  {
    var s := Latin("{\"\":1 1");
    assert s == [123, 34, 34, 58, 49, 32, 49];
    hide *;
    NoMemberCommaTokens(s);
    NoMemberCommaParsed(s, max);
  }

  lemma NoEndTokens(s: bytes)
    requires s == [49, 32, 49]
    ensures Plain(s)
    ensures NextToken(s, 0) == Lexed(NumberToken(ONE), 0, 1)
    ensures NextToken(s, 1) == Lexed(NumberToken(ONE), 2, 3)
  {
    hide NextToken, Plain;
    NoNulIsPlain(s);
    One(s, 0);
    SpaceThenOne(s, 1);
  }

  lemma NoEndParsed(s: bytes, max: nat)
    requires Plain(s) && |s| == 3 && max >= 0
    requires NextToken(s, 0) == Lexed(NumberToken(ONE), 0, 1)
    requires NextToken(s, 1) == Lexed(NumberToken(ONE), 2, 3)
    ensures Decode(s, max) == Rejected(Unexpected(TheEnd, TNumber, 2))
  {
    hide NextToken, LooksWide, CString, NulFree, TokenAt, ParseArray, ParseElements;
  }

  /** 1 1: something behind the value. */
  lemma NoEnd(max: nat)
    ensures Decode(Latin("1 1"), max) == Rejected(Unexpected(TheEnd, TNumber, 2))
  {
    var s := Latin("1 1");
    assert s == [49, 32, 49];
    hide *;
    NoEndTokens(s);
    NoEndParsed(s, max);
  }

  lemma NestedTokens(s: bytes)
    requires s == [91, 91, 93, 93]
    ensures Plain(s) && NextToken(s, 0) == Lexed(ArrBegin, 0, 1) && NextToken(s, 1) == Lexed(ArrBegin, 1, 2)
  {
    hide NextToken, Plain;
    NoNulIsPlain(s);
    Punctuation(s, 0);
    Punctuation(s, 1);
  }

  lemma NestedParsed(s: bytes)
    requires Plain(s) && |s| == 4
    requires NextToken(s, 0) == Lexed(ArrBegin, 0, 1) && NextToken(s, 1) == Lexed(ArrBegin, 1, 2)
    ensures Decode(s, 1) == Rejected(TooDeep(2, 2))
  {
    hide NextToken, LooksWide, CString, NulFree, TokenAt, ParseObject, ParseMembers;
    NextTokenSound(s, 1);
    assert ParseArray(s, 2, 1, 1) == Failed(TooDeep(2, 2));
    assert ParseValue(s, NextToken(s, 1), 1, 1) == Failed(TooDeep(2, 2));
    assert ParseElements(s, 1, NextToken(s, 1), 1, 1) == Failed(TooDeep(2, 2));
    assert ParseArray(s, 1, 0, 1) == Failed(TooDeep(2, 2));
  }

  /** [[]] nests two deep, which a limit of one does not allow. */
  lemma OneTooDeep()
    ensures Decode(Latin("[[]]"), 1) == Rejected(TooDeep(2, 2))
  {
    var s := Latin("[[]]");
    assert s == [91, 91, 93, 93];
    hide *;
    NestedTokens(s);
    NestedParsed(s);
  }

  lemma ErrorAtStart(s: bytes, max: nat, e: LexError, index: nat)
    requires NulFree(s) && NextToken(s, 0) == Lexed(ErrorToken(e), index, index)
    ensures Decode(s, max) == Rejected(Unexpected(AValue, TError(e), index))
  {
    CStringOfNulFree(s);
    hide NextToken;
  }

  lemma BadTokens()
    ensures var s := [110, 117, 108]; NulFree(s) && NextToken(s, 0) == Lexed(ErrorToken(InvalidToken), 0, 0)
    ensures var s := [43, 49]; NulFree(s) && NextToken(s, 0) == Lexed(ErrorToken(InvalidToken), 0, 0)
    ensures var s := [48, 49]; NulFree(s) && NextToken(s, 0) == Lexed(ErrorToken(InvalidNumber), 0, 0)
    ensures var s := [45]; NulFree(s) && NextToken(s, 0) == Lexed(ErrorToken(InvalidNumber), 0, 0)
    ensures var s := [34]; NulFree(s) && NextToken(s, 0) == Lexed(ErrorToken(UnexpectedEnd), 1, 1)
  {
  }

  /** Words, numbers and strings that are not finished or not allowed. */
  lemma BadScalars(max: nat)
    ensures Decode(Latin("nul"), max) == Rejected(Unexpected(AValue, TError(InvalidToken), 0))
    ensures Decode(Latin("+1"), max) == Rejected(Unexpected(AValue, TError(InvalidToken), 0))
    ensures Decode(Latin("01"), max) == Rejected(Unexpected(AValue, TError(InvalidNumber), 0))
    ensures Decode(Latin("-"), max) == Rejected(Unexpected(AValue, TError(InvalidNumber), 0))
    ensures Decode(Latin("\""), max) == Rejected(Unexpected(AValue, TError(UnexpectedEnd), 1))
  {
    assert Latin("nul") == [110, 117, 108] && Latin("+1") == [43, 49] && Latin("01") == [48, 49];
    assert Latin("-") == [45] && Latin("\"") == [34];
    hide *;
    BadTokens();
    ErrorAtStart([110, 117, 108], max, InvalidToken, 0);
    ErrorAtStart([43, 49], max, InvalidToken, 0);
    ErrorAtStart([48, 49], max, InvalidNumber, 0);
    ErrorAtStart([45], max, InvalidNumber, 0);
    ErrorAtStart([34], max, UnexpectedEnd, 1);
  }
}
