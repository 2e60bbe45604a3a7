/**
 * The decoder as it runs, for both settings of decode_invalid_numbers: a cursor, a depth counter and
 * a scratch buffer written without checks.
 */
module JsonDecoder {
  import opened Bytes
  import opened Decimals
  import opened Fpconv
  import opened JsonLexer
  import opened JsonParser
  import opened JsonReader
  import opened JsonSyntax
  import opened StrBufs
  import opened Utf8

  /** The lookup tables and settings of one cjson instance (decoding side). */
  class JsonConfig {
    const ch2token: array<Kind>
    const escape2char: array<byte>
    const decodeMaxDepth: nat
    const setting: Setting
    const localePoint: byte

    ghost predicate Valid()
      reads ch2token, escape2char
    {
      && ch2token.Length == 256 && escape2char.Length == 256
      && (forall b: byte :: ch2token[b] == Ch2Token(b))
      && (forall b: byte :: escape2char[b] == Escape2Char(b))
      && SettingOk(setting) && LocalePoint(localePoint)
    }

    constructor (decodeMaxDepth: nat, setting: Setting, localePoint: byte)
      requires SettingOk(setting) && LocalePoint(localePoint)
      ensures Valid() && fresh(ch2token) && fresh(escape2char)
      ensures this.decodeMaxDepth == decodeMaxDepth && this.setting == setting && this.localePoint == localePoint
    {
      this.decodeMaxDepth := decodeMaxDepth;
      this.setting := setting;
      this.localePoint := localePoint;
      ch2token := new Kind[256];
      escape2char := new byte[256];
      new;
      FillTokens();
      FillEscapes();
    }

    /** Tags all bytes as errors, then the tokens that need no further processing. */
    method FillTokens()
      requires ch2token.Length == 256
      modifies ch2token
      ensures forall b: byte :: ch2token[b] == Ch2Token(b)
    {
      for i := 0 to 256
        invariant forall k :: 0 <= k < i ==> ch2token[k] == ErrorKind
      {
        ch2token[i] := ErrorKind;
      }
      ch2token[LBRACE] := ObjBeginKind;
      ch2token[RBRACE] := ObjEndKind;
      ch2token[LBRACKET] := ArrBeginKind;
      ch2token[RBRACKET] := ArrEndKind;
      ch2token[COMMA] := CommaKind;
      ch2token[COLON] := ColonKind;
      FillWhitespace();
      FillUnknown();
    }

    method FillWhitespace()
      requires ch2token.Length == 256
      modifies ch2token
      ensures forall b: byte :: ch2token[b] ==
                if b == 0 then EndKind else if IsWhitespace(b) then WhitespaceKind else old(ch2token[b])
    {
      ch2token[0] := EndKind;
      ch2token[32] := WhitespaceKind;
      ch2token[9] := WhitespaceKind;
      ch2token[10] := WhitespaceKind;
      ch2token[13] := WhitespaceKind;
    }

    predicate IsUnknownLetter(b: byte) {
      b == 102 || b == 105 || b == 73 || b == 110 || b == 78 || b == 116
    }

    /** The bytes that need further processing. */
    method FillUnknown()
      requires ch2token.Length == 256
      modifies ch2token
      ensures forall b: byte :: ch2token[b] ==
                if IsUnknownLetter(b) || b == QUOTE || b == PLUS || b == MINUS || IsDigit(b)
                then UnknownKind else old(ch2token[b])
    {
      ch2token[102] := UnknownKind;
      ch2token[105] := UnknownKind;
      ch2token[73] := UnknownKind;
      ch2token[110] := UnknownKind;
      ch2token[78] := UnknownKind;
      ch2token[116] := UnknownKind;
      FillNumberStarts();
    }

    method FillNumberStarts()
      requires ch2token.Length == 256
      modifies ch2token
      ensures forall b: byte :: ch2token[b] ==
                if b == QUOTE || b == PLUS || b == MINUS || IsDigit(b) then UnknownKind else old(ch2token[b])
    {
      ch2token[QUOTE] := UnknownKind;
      ch2token[PLUS] := UnknownKind;
      ch2token[MINUS] := UnknownKind;
      ghost var before := ch2token[..];
      for i := 0 to 10
        invariant forall b: byte ::
          ch2token[b] == if ZERO <= b < ZERO + i then UnknownKind else before[b]
      {
        ch2token[ZERO + i] := UnknownKind;
      }
    }

    method FillEscapes()
      requires escape2char.Length == 256
      modifies escape2char
      ensures forall b: byte :: escape2char[b] == Escape2Char(b)
    {
      for i := 0 to 256
        invariant forall k :: 0 <= k < i ==> escape2char[k] == 0
      {
        escape2char[i] := 0;
      }
      escape2char[QUOTE] := QUOTE;
      escape2char[BACKSLASH] := BACKSLASH;
      escape2char[47] := 47;
      escape2char[98] := 8;
      escape2char[116] := 9;
      escape2char[110] := 10;
      escape2char[102] := 12;
      escape2char[114] := 13;
      escape2char[LETTER_U] := LETTER_U;
    }
  }

  datatype Payload =
    | NoPayload
    | StringPayload(s: bytes)
    | NumberPayload(d: Decimal)
    | OddPayload(text: bytes)
    | BooleanPayload(b: bool)

  /** json_token_t. */
  datatype RunToken = RunToken(ty: TokenType, index: nat, payload: Payload)

  /** The token record the lexer fills in for a token of the specification. */
  function Run(r: Lexed): RunToken {
    RunToken(TypeOf(r.tok), r.index,
             match r.tok
             case StringToken(items) => StringPayload(ItemsMeaning(items))
             case NumberToken(n) => NumberPayload(NumeralValue(n))
             case BooleanToken(b) => BooleanPayload(b)
             case _ => NoPayload)
  }

  /** The same where the token may be an odd number. */
  function RunAny(a: AnyLexed): RunToken {
    match a.tok
    case Odd(t) => RunToken(TNumber, a.index, OddPayload(t))
    case Usual(tok) => Run(Lexed(tok, a.index, a.next))
  }

  datatype Result = Ok(value: Value) | Error(error: DecodeError)

  /** The C code of codepoint_to_utf8, which fills a buffer of four bytes. */
  method WriteUtf8(utf8: array<byte>, codepoint: nat) returns (len: nat)
    requires utf8.Length == 4
    modifies utf8
    ensures len <= 4 && utf8[..len] == CodepointToUtf8(codepoint)
  {
    if codepoint <= 0x7F {
      utf8[0] := codepoint;
      return 1;
    }
    if codepoint <= 0x7FF {
      utf8[0] := codepoint / 64 + 0xC0;
      utf8[1] := codepoint % 64 + 0x80;
      return 2;
    }
    if codepoint <= 0xFFFF {
      utf8[0] := codepoint / 4096 + 0xE0;
      utf8[1] := codepoint / 64 % 64 + 0x80;
      utf8[2] := codepoint % 64 + 0x80;
      return 3;
    }
    if codepoint <= 0x1FFFFF {
      utf8[0] := codepoint / 262144 + 0xF0;
      utf8[1] := codepoint / 4096 % 64 + 0x80;
      utf8[2] := codepoint / 64 % 64 + 0x80;
      utf8[3] := codepoint % 64 + 0x80;
      return 4;
    }
    return 0;
  }

  /** An item never decodes to more bytes than it is written with, and usually to fewer. */
  lemma ItemShrinks(c: StringItem)
    requires ItemOk(c, Relaxed)
    ensures |ItemMeaning(c)| <= |ItemText(c)|
  {
  }

  /** With `done` decoded and `rest` still to be read, the whole string token is `full`. */
  ghost predicate StringSoFar(full: StringLex, rest: StringLex, done: bytes) {
    match rest
    case StringError(_, _) => full == rest
    case StringEnd(items, next) =>
      full.StringEnd? && full.next == next && ItemsMeaning(full.items) == done + ItemsMeaning(items)
  }

  lemma StringStep(full: StringLex, s: bytes, i: nat, done: bytes)
    requires i < |s| && s[i] != QUOTE && StringSoFar(full, LexString(s, i), done)
    ensures LexItem(s, i).BadItem? ==> LexString(s, i) == StringError(LexItem(s, i).e, i)
    ensures LexItem(s, i).GoodItem? ==>
              var c := LexItem(s, i).c;
              StringSoFar(full, LexString(s, i + |ItemText(c)|), done + ItemMeaning(c))
  {
    hide LexItem, ItemMeaning, ItemText;
    if LexItem(s, i).GoodItem? {
      var c := LexItem(s, i).c;
      var r := LexString(s, i + |ItemText(c)|);
      if r.StringEnd? {
        assert ([c] + r.items)[1..] == r.items;
        assert done + (ItemMeaning(c) + ItemsMeaning(r.items)) == done + ItemMeaning(c) + ItemsMeaning(r.items);
      }
    }
  }

  lemma StringBegins(s: bytes, i: nat)
    requires i <= |s|
    ensures StringSoFar(LexString(s, i), LexString(s, i), [])
  {
    if LexString(s, i).StringEnd? {
      assert [] + ItemsMeaning(LexString(s, i).items) == ItemsMeaning(LexString(s, i).items);
    }
  }

  lemma StringEnds(s: bytes, k: nat, i: nat, done: bytes)
    requires k < i < |s| && s[k] == QUOTE && s[i] == QUOTE
    requires StringSoFar(LexString(s, k + 1), LexString(s, i), done)
    ensures Run(LexUnknown(s, k)) == RunToken(TString, k, StringPayload(done)) && LexUnknown(s, k).next == i + 1
  {
    assert done + [] == done;
  }

  lemma StringFails(s: bytes, k: nat, i: nat, e: LexError, done: bytes)
    requires k < i <= |s| && s[k] == QUOTE && LexString(s, i) == StringError(e, i)
    requires StringSoFar(LexString(s, k + 1), LexString(s, i), done)
    ensures Run(LexUnknown(s, k)) == RunToken(TError(e), i, NoPayload) && LexUnknown(s, k).next == i
  {
  }

  type Entries = map<Key, Value>

  /** With `entries` stored and `rest` still to be read, the whole array or object is `full`. */
  ghost predicate SoFar(full: Read<Entries>, rest: Read<Entries>, entries: Entries) {
    match rest
    case ReadFailed(_) => full == rest
    case Read(m, next) => full == Read(entries + m, next)
  }

  lemma NothingStored(full: Read<Entries>)
    ensures SoFar(full, full, map[])
  {
    if full.Read? {
      assert map[] + full.value == full.value;
    }
  }

  lemma StoreThen(entries: Entries, k: Key, v: Value, rest: Entries)
    ensures entries + map[k := v] == entries[k := v]
    ensures entries + (map[k := v] + rest) == entries[k := v] + rest
  {
  }

  /** A token read moves on within the text, unless it is an error or the end. */
  lemma AnyInside(s: bytes, i: nat, g: Setting)
    requires SettingOk(g) && NulFree(s) && i <= |s|
    ensures var a := NextAny(s, i, g);
            && i <= a.index <= a.next <= |s|
            && (a.tok == Usual(Comma) || a.tok == Usual(Colon) ==> i < a.next)
  {
    hide NextAny, NextToken, TokenAt;
    TokensAgree(s, i, g);
  }

  lemma RunFields(a: AnyLexed)
    ensures RunAny(a).ty == AnyTypeOf(a.tok) && RunAny(a).index == a.index
    ensures a.tok.Usual? && a.tok.tok.StringToken? ==> RunAny(a).payload == StringPayload(ItemsMeaning(a.tok.tok.items))
    ensures RunAny(a).ty == TArrEnd <==> a.tok == Usual(ArrEnd)
    ensures RunAny(a).ty == TObjEnd <==> a.tok == Usual(ObjEnd)
    ensures RunAny(a).ty == TComma <==> a.tok == Usual(Comma)
    ensures RunAny(a).ty == TColon <==> a.tok == Usual(Colon)
    ensures RunAny(a).ty == TEnd <==> a.tok == Usual(End)
    ensures RunAny(a).ty == TString <==> a.tok.Usual? && a.tok.tok.StringToken?
  {
  }

  /** One turn of the loop over the elements. */
  lemma ElementsStep(full: Read<Entries>, s: bytes, a: AnyLexed, i: nat, depth: nat, max: nat, g: Setting,
                     entries: Entries)
    requires SettingOk(g) && NulFree(s) && depth <= max && a.next <= |s|
    requires SoFar(full, ReadElements(s, a, i, depth, max, g), entries)
    ensures match ReadValue(s, a, depth, max, g)
            case ReadFailed(e) => full == ReadFailed(e)
            case Read(v, j) =>
              var sep := NextAny(s, j, g);
              var stored := entries[NumberKey(FromInt(i)) := v];
              && j <= sep.next <= |s|
              && (sep.tok == Usual(ArrEnd) ==> full == Read(stored, sep.next))
              && (sep.tok != Usual(ArrEnd) && sep.tok != Usual(Comma) ==>
                    full == ReadFailed(Unexpected(CommaOrArrayEnd, AnyTypeOf(sep.tok), sep.index)))
              && (sep.tok == Usual(Comma) ==>
                    && j < sep.next <= NextAny(s, sep.next, g).next <= |s|
                    && SoFar(full, ReadElements(s, NextAny(s, sep.next, g), i + 1, depth, max, g), stored))
  {
    hide NextAny, ReadValue, FromInt;
    var p := ReadValue(s, a, depth, max, g);
    if p.Read? {
      AnyInside(s, p.next, g);
      var k, sep := NumberKey(FromInt(i)), NextAny(s, p.next, g);
      StoreThen(entries, k, p.value, map[]);
      if sep.tok == Usual(Comma) {
        AnyInside(s, sep.next, g);
        var rest := ReadElements(s, NextAny(s, sep.next, g), i + 1, depth, max, g);
        if rest.Read? {
          StoreThen(entries, k, p.value, rest.value);
        }
      }
    }
  }

  /** One turn of the loop over the members. The last member with a key wins. */
  lemma MembersStep(full: Read<Entries>, s: bytes, a: AnyLexed, depth: nat, max: nat, g: Setting, entries: Entries)
    requires SettingOk(g) && NulFree(s) && depth <= max && a.next <= |s|
    requires SoFar(full, ReadMembers(s, a, depth, max, g), entries)
    ensures ReadKey(s, a, g).ReadFailed? ==> full == ReadFailed(ReadKey(s, a, g).error)
    ensures ReadKey(s, a, g).Read? ==>
              var key, i := ReadKey(s, a, g).value, ReadKey(s, a, g).next;
              && i <= NextAny(s, i, g).next <= |s|
              && MemberStep(full, s, key, NextAny(s, i, g), depth, max, g, entries)
  {
    hide NextAny, ReadValue, ReadKey;
    var key := ReadKey(s, a, g);
    if key.Read? {
      AnyInside(s, key.next, g);
      var p := ReadValue(s, NextAny(s, key.next, g), depth, max, g);
      if p.Read? {
        AnyInside(s, p.next, g);
        StoreThen(entries, key.value, p.value, map[]);
        var sep := NextAny(s, p.next, g);
        if sep.tok == Usual(Comma) {
          AnyInside(s, sep.next, g);
          var rest := ReadMembers(s, NextAny(s, sep.next, g), depth, max, g);
          if rest.Read? {
            StoreThen(entries, key.value, p.value, rest.value);
          }
        }
      }
    }
  }

  /** The part of that turn after the colon. */
  ghost predicate MemberStep(full: Read<Entries>, s: bytes, key: Key, first: AnyLexed, depth: nat, max: nat,
                             g: Setting, entries: Entries)
    requires SettingOk(g) && NulFree(s) && depth <= max && first.next <= |s|
  {
    match ReadValue(s, first, depth, max, g)
    case ReadFailed(e) => full == ReadFailed(e)
    case Read(v, j) =>
      var sep := NextAny(s, j, g);
      var stored := entries[key := v];
      && j <= sep.next <= |s|
      && (sep.tok == Usual(ObjEnd) ==> full == Read(stored, sep.next))
      && (sep.tok != Usual(ObjEnd) && sep.tok != Usual(Comma) ==>
            full == ReadFailed(Unexpected(CommaOrObjectEnd, AnyTypeOf(sep.tok), sep.index)))
      && (sep.tok == Usual(Comma) ==>
            && j < sep.next <= NextAny(s, sep.next, g).next <= |s|
            && SoFar(full, ReadMembers(s, NextAny(s, sep.next, g), depth, max, g), stored))
  }

  datatype KeyResult = KeyName(name: bytes) | KeyError(error: DecodeError)

  class Parser {
    const text: bytes
    const data: bytes       // the text with its terminating NUL
    const tmp: StrBuf
    const cfg: JsonConfig
    var ptr: nat
    var currentDepth: nat

    /** The text as a C string. */
    function S(): bytes {
      CString(text)
    }

    /** The cursor never passes the first NUL, and the scratch buffer could hold the whole text. */
    ghost predicate Valid()
      reads this, tmp, cfg.ch2token, cfg.escape2char
    {
      && data == text + [0]
      && ptr <= |S()|
      && tmp.Valid() && tmp.size > |text|
      && cfg.Valid()
      && currentDepth <= cfg.decodeMaxDepth
      && tmp.buf as object !in {cfg.ch2token, cfg.escape2char}
    }

    constructor (text: bytes, cfg: JsonConfig)
      requires cfg.Valid()
      ensures Valid() && fresh(tmp) && fresh(tmp.buf)
      ensures this.text == text && this.cfg == cfg && ptr == 0 && currentDepth == 0
    {
      this.text := text;
      this.cfg := cfg;
      data := text + [0];
      ptr := 0;
      currentDepth := 0;
      tmp := new StrBuf(|text|);
    }

    /** Reading at or before the first NUL stays inside the data. */
    lemma DataAt(p: nat)
      requires data == text + [0] && p <= |S()|
      ensures p < |data| && data[p] == At(S(), p)
    {
    }

    method DecodeHexAt(p: nat) returns (v: int)
      requires Valid() && p <= |S()|
      ensures v == DecodeHex4(S(), p)
    {
      var digit := new int[4];
      var i := 0;
      while i < 4
        invariant 0 <= i <= 4 && p + i <= |S()|
        invariant forall k :: 0 <= k < i ==> digit[k] == HexDigitToInt(At(S(), p + k)) >= 0
      {
        DataAt(p + i);
        digit[i] := HexDigitToInt(data[p + i]);
        if digit[i] < 0 {
          return -1;
        }
        i := i + 1;
      }
      v := digit[0] * 4096 + digit[1] * 256 + digit[2] * 16 + digit[3];
    }

    /** The code point of the \u escape at the cursor, and the length of the escape. */
    method FetchCodepoint() returns (ok: bool, codepoint: nat, escapeLen: nat)
      requires Valid() && ptr + 2 <= |S()|
      ensures ok == LexUnicode(S(), ptr).GoodItem?
      ensures ok ==>
                var c := LexUnicode(S(), ptr).c;
                && codepoint <= 0x10FFFF
                && ItemMeaning(c) == CodepointToUtf8(codepoint)
                && |ItemText(c)| == escapeLen == (if codepoint <= 0xFFFF then 6 else 12)
    {
      hide CodepointToUtf8, DecodeHex4, HexDigitToInt, CString, HasAt;
      ok, escapeLen := false, 6;
      var unit := DecodeHexAt(ptr + 2);
      codepoint := 0;
      if unit < 0 {
        return;
      }
      HexSlice(S(), ptr + 2);
      codepoint := unit;
      if IsSurrogate(codepoint) {
        if !IsHigh(codepoint) {
          return;
        }
        DataAt(ptr + escapeLen);
        if data[ptr + escapeLen] != BACKSLASH {
          return;
        }
        DataAt(ptr + escapeLen + 1);
        if data[ptr + escapeLen + 1] != LETTER_U {
          return;
        }
        var surrogateLow := DecodeHexAt(ptr + 2 + escapeLen);
        if surrogateLow < 0 || !IsLow(surrogateLow) {
          return;
        }
        HexSlice(S(), ptr + 2 + escapeLen);
        codepoint := codepoint % 0x400 * 0x400 + surrogateLow % 0x400 + 0x10000;
        escapeLen := 12;
      }
      ok := true;
    }

    /** json_append_unicode_escape: at a backslash and 'u'. */
    method AppendUnicodeEscape() returns (ok: bool)
      requires Valid() && ptr + 2 <= |S()| && tmp.length + (|S()| - ptr) < tmp.size
      modifies `ptr, tmp`length, tmp.buf
      ensures Valid()
      ensures ok == LexUnicode(S(), old(ptr)).GoodItem?
      ensures ok ==>
                var c := LexUnicode(S(), old(ptr)).c;
                && ptr == old(ptr) + |ItemText(c)|
                && tmp.Contents() == old(tmp.Contents()) + ItemMeaning(c)
      ensures !ok ==> ptr == old(ptr)
    {
      hide LexUnicode, ItemMeaning, ItemText, CString;
      var codepoint, escapeLen;
      ok, codepoint, escapeLen := FetchCodepoint();
      if ok {
        var utf8 := new byte[4];
        var len := WriteUtf8(utf8, codepoint);
        if len == 0 {
          assert false; // the code point is in range
          return false;
        }
        tmp.AppendMemUnsafe(utf8[..len]);
        ptr := ptr + escapeLen;
      }
    }

    function ErrorAt(e: LexError): RunToken
      reads this
    {
      RunToken(TError(e), ptr, NoPayload)
    }

    /** The body of the loop of json_next_string_token: one character of the string. */
    method AppendStringItem() returns (ok: bool, error: LexError)
      requires Valid() && ptr < |S()| && S()[ptr] != QUOTE && tmp.length + (|S()| - ptr) < tmp.size
      modifies `ptr, tmp`length, tmp.buf
      ensures Valid()
      ensures match LexItem(S(), old(ptr))
              case BadItem(e) => !ok && error == e && ptr == old(ptr)
              case GoodItem(c) =>
                && ok && ptr == old(ptr) + |ItemText(c)|
                && tmp.Contents() == old(tmp.Contents()) + ItemMeaning(c)
                && |ItemMeaning(c)| <= |ItemText(c)|
    {
      hide LexItem, LexUnicode, ItemMeaning, ItemText, CString, Escape2Char, Ch2Token, LocalePoint, NulFree, HasAt;
      ok, error := true, InvalidEscape;
      DataAt(ptr);
      var ch := data[ptr];
      if ch == BACKSLASH {
        DataAt(ptr + 1);
        ch := cfg.escape2char[data[ptr + 1]];
        EscapeItem(S(), ptr);
        if ch == LETTER_U {
          ok := AppendUnicodeEscape();
          return ok, InvalidUnicode;
        }
        if ch == 0 {
          return false, InvalidEscape;
        }
        ptr := ptr + 1;
      } else {
        RawItem(S(), ptr);
      }
      tmp.AppendCharUnsafe(ch);
      ptr := ptr + 1;
    }

    /**
     * json_next_string_token. The scratch buffer never holds more than the bytes of the token read
     * so far, so that the unchecked appends and the final NUL always fit.
     */
    method NextStringToken(index: nat) returns (token: RunToken)
      requires index == ptr
      requires Valid() && ptr < |S()| && S()[ptr] == QUOTE
      modifies `ptr, tmp`length, tmp.buf
      ensures Valid()
      ensures var r := LexUnknown(S(), old(ptr)); token == Run(r) && ptr == r.next
    {
      hide LexItem, ItemMeaning, ItemText, CString, LocalePoint, NulFree, Ch2Token, Escape2Char,
           LexString, LexUnknown, StringSoFar, Run;
      ghost var s, start := S(), ptr;
      ptr := ptr + 1;
      tmp.Reset();
      StringBegins(s, ptr);
      DataAt(ptr);
      while data[ptr] != QUOTE
        invariant Valid() && ptr < |data| && data[ptr] == At(s, ptr)
        invariant start < ptr && tmp.length < ptr - start
        invariant StringSoFar(LexString(s, start + 1), LexString(s, ptr), tmp.Contents())
        decreases |s| - ptr
      {
        if data[ptr] == 0 {
          TextEnds(s, ptr);
          StringFails(s, start, ptr, UnexpectedEnd, tmp.Contents());
          return ErrorAt(UnexpectedEnd);
        }
        StringStep(LexString(s, start + 1), s, ptr, tmp.Contents());
        ghost var done := tmp.Contents();
        var ok, error := AppendStringItem();
        if !ok {
          StringFails(s, start, ptr, error, done);
          return ErrorAt(error);
        }
        DataAt(ptr);
      }
      StringEnds(s, start, ptr, tmp.Contents());
      ptr := ptr + 1;
      tmp.EnsureNull();
      var str := tmp.ToBytes();
      token := RunToken(TString, index, StringPayload(str));
    }

    lemma TextEnds(s: bytes, i: nat)
      requires NulFree(s) && i <= |s| && At(s, i) == 0
      ensures i == |s| && LexString(s, i) == StringError(UnexpectedEnd, i)
    {
    }

    lemma RawItem(s: bytes, i: nat)
      requires i < |s| && s[i] != BACKSLASH
      ensures LexItem(s, i).GoodItem? && var c := LexItem(s, i).c; |ItemText(c)| == 1 && ItemMeaning(c) == [s[i]]
    {
    }

    lemma EscapeItem(s: bytes, i: nat)
      requires NulFree(s) && i < |s| && s[i] == BACKSLASH
      ensures var ch := Escape2Char(At(s, i + 1));
              && (ch == 0 ==> LexItem(s, i) == BadItem(InvalidEscape))
              && (ch == LETTER_U ==>
                    && i + 2 <= |s| && LexItem(s, i) == LexUnicode(s, i)
                    && (LexItem(s, i).BadItem? ==> LexItem(s, i).e == InvalidUnicode)
                    && (LexItem(s, i).GoodItem? ==>
                          |ItemMeaning(LexItem(s, i).c)| <= |ItemText(LexItem(s, i).c)|))
              && (ch != 0 && ch != LETTER_U ==>
                    && i + 2 <= |s| && LexItem(s, i).GoodItem?
                    && var c := LexItem(s, i).c; |ItemText(c)| == 2 && ItemMeaning(c) == [ch])
    {
      if Escape2Char(At(s, i + 1)) == LETTER_U && LexItem(s, i).GoodItem? {
        LexItemSound(s, i);
        ItemShrinks(LexItem(s, i).c);
      }
    }

    lemma NumberLexed(s: bytes, k: nat)
      requires k < |s| && NumberStart(s[k]) && !IsInvalidNumber(s, k)
      ensures !IsSpace(At(s, k)) && At(s, k) != DOT
      ensures var (d, end) := Strtod(s, k, DOT);
              var r := LexNumber(s, k);
              if end == k then r == Lexed(ErrorToken(InvalidNumber), k, k)
              else r.tok.NumberToken? && NumeralValue(r.tok.n) == d && r.index == k && r.next == end
    {
    }

    /**
     * fpconv_strtod at the cursor. Where a number stands that JSON does not allow, the setting says
     * how far it reads, and the number is kept as text.
     */
    method ReadNumber() returns (value: Payload, end: nat)
      requires Valid() && ptr < |S()|
      requires if IsInvalidNumber(S(), ptr) then cfg.setting.On? else NumberStart(S()[ptr])
      ensures ptr <= end <= |S()|
      ensures IsInvalidNumber(S(), ptr) ==>
                end == cfg.setting.reach(S(), ptr) && value == OddPayload(S()[ptr..end])
      ensures !IsInvalidNumber(S(), ptr) ==>
                var r := LexNumber(S(), ptr);
                if end == ptr then r == Lexed(ErrorToken(InvalidNumber), ptr, ptr)
                else r.tok.NumberToken? && r.index == ptr && r.next == end
                     && value == NumberPayload(NumeralValue(r.tok.n))
    {
      hide LexNumber, Strtod, CString, IsInvalidNumber, NumberStart, LocalePoint, Ch2Token, Escape2Char, Shim;
      if IsInvalidNumber(S(), ptr) {
        end := cfg.setting.reach(S(), ptr);
        value := OddPayload(S()[ptr..end]);
      } else {
        NumberLexed(S(), ptr);
        LexNumberTotal(S(), ptr);
        LocaleAgreement(S(), ptr, cfg.localePoint);
        var d;
        d, end := FpconvStrtod(S(), ptr, cfg.localePoint);
        value := NumberPayload(d);
      }
    }

    /** json_next_number_token. */
    method NextNumberToken(index: nat) returns (token: RunToken)
      requires index == ptr
      requires Valid() && ptr < |S()|
      requires if IsInvalidNumber(S(), ptr) then cfg.setting.On? else NumberStart(S()[ptr])
      modifies `ptr
      ensures Valid()
      ensures var a := if cfg.setting.On? then LexAnyNumber(S(), old(ptr), cfg.setting)
                       else Any(LexNumber(S(), old(ptr)));
              token == RunAny(a) && ptr == a.next
    {
      hide LexNumber, CString, IsInvalidNumber, NumberStart, LocalePoint, Ch2Token, Escape2Char;
      var value, end := ReadNumber();
      if ptr == end {
        return ErrorAt(InvalidNumber);
      }
      ptr := end;
      token := RunToken(TNumber, index, value);
    }

    /** The tail of json_next_token: bytes that need further processing. */
    method NextUnknownToken(index: nat) returns (token: RunToken)
      requires index == ptr
      requires Valid() && ptr < |S()|
      modifies `ptr, tmp`length, tmp.buf
      ensures Valid()
      ensures var a := LexAny(S(), old(ptr), cfg.setting); token == RunAny(a) && ptr == a.next
    {
      hide CString, LexString, LocalePoint, ScanNumber, IsInvalidNumber, Ch2Token, Escape2Char, NumeralValue,
           LexAnyNumber;
      DataAt(ptr);
      var ch := data[ptr];
      if ch == QUOTE {
        token := NextStringToken(index);
        return;
      } else if ch == MINUS || (48 <= ch <= 57) {
        if cfg.setting.Off? && IsInvalidNumber(S(), ptr) {
          return ErrorAt(InvalidNumber);
        }
        token := NextNumberToken(index);
        return;
      } else if HasAt(S(), ptr, TRUE_TEXT) {
        token := RunToken(TBoolean, index, BooleanPayload(true));
        ptr := ptr + 4;
        return;
      } else if HasAt(S(), ptr, FALSE_TEXT) {
        token := RunToken(TBoolean, index, BooleanPayload(false));
        ptr := ptr + 5;
        return;
      } else if HasAt(S(), ptr, NULL_TEXT) {
        token := RunToken(TNull, index, NoPayload);
        ptr := ptr + 4;
        return;
      } else if cfg.setting.On? && IsInvalidNumber(S(), ptr) {
        token := NextNumberToken(index);
        return;
      }
      token := ErrorAt(InvalidToken);
    }

    /** What the token table says at the first byte that is no white space. */
    lemma KindDecides(s: bytes, i: nat, g: Setting)
      requires SettingOk(g) && i <= |s|
      ensures var k, a := SkipWhitespace(s, i), NextAny(s, i, g);
              var kind := Ch2Token(At(s, k));
              && kind != WhitespaceKind
              && (kind == UnknownKind ==> k < |s| && a == LexAny(s, k, g))
              && (kind == ErrorKind ==> RunAny(a) == RunToken(TError(InvalidToken), k, NoPayload) && a.next == k)
              && (kind == EndKind ==> RunAny(a) == RunToken(TEnd, k, NoPayload) && a.next == k)
              && (kind !in {UnknownKind, ErrorKind, EndKind} ==>
                    RunAny(a) == RunToken(SingleType(kind), k, NoPayload) && a.next == k + 1)
    {
      hide LexAny, SettingOk;
    }

    lemma WhitespaceIsSkipped(s: bytes, i: nat)
      requires i <= |s|
      ensures if Ch2Token(At(s, i)) == WhitespaceKind
              then i < |s| && SkipWhitespace(s, i) == SkipWhitespace(s, i + 1) else SkipWhitespace(s, i) == i
    {
    }

    /** json_next_token. */
    method NextToken() returns (token: RunToken)
      requires Valid()
      modifies `ptr, tmp`length, tmp.buf
      ensures Valid()
      ensures var a := NextAny(S(), old(ptr), cfg.setting); token == RunAny(a) && old(ptr) <= ptr == a.next
    {
      hide CString, LexAny, LocalePoint, Escape2Char, NulFree, AllWhitespace, NextAny, RunAny, Ch2Token,
           SkipWhitespace, SingleType;
      ghost var s := S();
      AnyInside(s, ptr, cfg.setting);
      KindDecides(s, ptr, cfg.setting);
      WhitespaceIsSkipped(s, ptr);
      DataAt(ptr);
      var kind := cfg.ch2token[data[ptr]];
      while kind == WhitespaceKind
        invariant Valid() && ptr < |data| && data[ptr] == At(s, ptr) && kind == Ch2Token(At(s, ptr))
        invariant SkipWhitespace(s, ptr) == SkipWhitespace(s, old(ptr))
        invariant kind != WhitespaceKind ==> SkipWhitespace(s, ptr) == ptr
        decreases |s| - ptr
      {
        WhitespaceIsSkipped(s, ptr);
        ptr := ptr + 1;
        WhitespaceIsSkipped(s, ptr);
        DataAt(ptr);
        kind := cfg.ch2token[data[ptr]];
      }
      var index := ptr;
      if kind == ErrorKind {
        return ErrorAt(InvalidToken);
      }
      if kind == EndKind {
        return RunToken(TEnd, index, NoPayload);
      }
      if kind != UnknownKind {
        ptr := ptr + 1;
        return RunToken(SingleType(kind), index, NoPayload);
      }
      token := NextUnknownToken(index);
    }

    // ----- recursive descent -----

    /** The outcome of a run is what the specification reads, with the cursor where it says. */
    twostate predicate Yields(p: Read<Value>, res: Result)
      reads this
    {
      match p
      case ReadFailed(e) => res == Error(e)
      case Read(v, next) => res == Ok(v) && ptr == next && currentDepth == old(currentDepth)
    }

    /** json_process_value. The token read is that of `a`. */
    method ProcessValue(token: RunToken, ghost a: AnyLexed) returns (res: Result)
      requires Valid() && token == RunAny(a) && ptr == a.next
      modifies `ptr, `currentDepth, tmp`length, tmp.buf
      ensures res.Ok? ==> Valid()
      ensures Yields(ReadValue(S(), a, old(currentDepth), cfg.decodeMaxDepth, cfg.setting), res)
      decreases cfg.decodeMaxDepth - currentDepth, |S()| - ptr, 2
    {
      hide CString, ItemsMeaning, NumeralValue, ReadArray, ReadObject, Ch2Token, Escape2Char, LocalePoint;
      match token.ty {
        case TString => res := Ok(String(token.payload.s));
        case TNumber =>
          match token.payload {
            case NumberPayload(d) => res := Ok(Number(d));
            case OddPayload(t) => res := Ok(OddNumber(t));
          }
        case TBoolean => res := Ok(Boolean(token.payload.b));
        case TObjBegin => res := ParseObjectContext();
        case TArrBegin => res := ParseArrayContext();
        case TNull => res := Ok(Null);
        case _ => res := Error(Unexpected(AValue, token.ty, token.index));
      }
    }

    /** json_decode_descend. */
    method Descend() returns (ok: bool)
      requires Valid()
      modifies `currentDepth
      ensures currentDepth == old(currentDepth) + 1
      ensures ok == (currentDepth <= cfg.decodeMaxDepth)
    {
      currentDepth := currentDepth + 1;
      ok := currentDepth <= cfg.decodeMaxDepth;
    }

    method Ascend()
      requires currentDepth > 0
      modifies `currentDepth
      ensures currentDepth == old(currentDepth) - 1
    {
      currentDepth := currentDepth - 1;
    }

    /** json_parse_array_context. */
    method ParseArrayContext() returns (res: Result)
      requires Valid()
      modifies `ptr, `currentDepth, tmp`length, tmp.buf
      ensures res.Ok? ==> Valid()
      ensures Yields(ReadArray(S(), old(ptr), old(currentDepth), cfg.decodeMaxDepth, cfg.setting), res)
      decreases cfg.decodeMaxDepth - currentDepth, |S()| - ptr, 1
    {
      hide CString, NextAny, ReadValue, ReadElements, SoFar, Ch2Token, Escape2Char, LocalePoint, RunAny, NulFree,
           SettingOk;
      ghost var s, depth, max, g := S(), currentDepth + 1, cfg.decodeMaxDepth, cfg.setting;
      var ok := Descend();
      if !ok {
        return Error(TooDeep(currentDepth, ptr));
      }
      ghost var a := NextAny(s, ptr, g);
      AnyInside(s, ptr, g);
      var token := NextToken();
      RunFields(a);
      if token.ty == TArrEnd {
        Ascend();
        return Ok(Table(map[]));
      }
      ghost var full := ReadElements(s, a, 1, depth, max, g);
      var i := 1;
      var entries: map<Key, Value> := map[];
      NothingStored(full);
      while true
        invariant Valid() && currentDepth == depth <= max
        invariant token == RunAny(a) && old(ptr) <= ptr == a.next <= |s|
        invariant SoFar(full, ReadElements(s, a, i, depth, max, g), entries)
        decreases |s| - ptr
      {
        ElementsStep(full, s, a, i, depth, max, g, entries);
        var v := ProcessValue(token, a);
        if v.Error? {
          return v;
        }
        entries := entries[NumberKey(FromInt(i)) := v.value];
        RunFields(NextAny(s, ptr, g));
        token := NextToken();
        if token.ty == TArrEnd {
          Ascend();
          return Ok(Table(entries));
        }
        if token.ty != TComma {
          return Error(Unexpected(CommaOrArrayEnd, token.ty, token.index));
        }
        a := NextAny(s, ptr, g);
        token := NextToken();
        i := i + 1;
      }
    }

    /** The head of the loop of json_parse_object_context: a key and a colon. */
    method ParseKey(token: RunToken, ghost a: AnyLexed) returns (res: KeyResult)
      requires Valid() && token == RunAny(a) && ptr == a.next
      modifies `ptr, tmp`length, tmp.buf
      ensures Valid()
      ensures match ReadKey(S(), a, cfg.setting)
              case ReadFailed(e) => res == KeyError(e)
              case Read(key, next) => key.StringKey? && res == KeyName(key.name) && old(ptr) <= ptr == next
    {
      hide CString, NextAny, Ch2Token, Escape2Char, LocalePoint, RunAny, NulFree, ItemsMeaning, SettingOk;
      RunFields(a);
      if token.ty != TString {
        return KeyError(Unexpected(AKey, token.ty, token.index));
      }
      RunFields(NextAny(S(), ptr, cfg.setting));
      var colonToken := NextToken();
      if colonToken.ty != TColon {
        return KeyError(Unexpected(AColon, colonToken.ty, colonToken.index));
      }
      return KeyName(token.payload.s);
    }

    /** json_parse_object_context. */
    method ParseObjectContext() returns (res: Result)
      requires Valid()
      modifies `ptr, `currentDepth, tmp`length, tmp.buf
      ensures res.Ok? ==> Valid()
      ensures Yields(ReadObject(S(), old(ptr), old(currentDepth), cfg.decodeMaxDepth, cfg.setting), res)
      decreases cfg.decodeMaxDepth - currentDepth, |S()| - ptr, 1
    {
      hide CString, NextAny, ReadMembers, Ch2Token, Escape2Char, LocalePoint, RunAny, NulFree, SettingOk;
      ghost var s, g := S(), cfg.setting;
      var ok := Descend();
      if !ok {
        return Error(TooDeep(currentDepth, ptr));
      }
      ghost var a := NextAny(s, ptr, g);
      AnyInside(s, ptr, g);
      var token := NextToken();
      RunFields(a);
      if token.ty == TObjEnd {
        Ascend();
        return Ok(Table(map[]));
      }
      res := ParseMemberLoop(token, a);
    }

    /** The loop of json_parse_object_context. The last member with a key wins, as in lua_rawset. */
    method ParseMemberLoop(firstToken: RunToken, ghost first: AnyLexed) returns (res: Result)
      requires Valid() && firstToken == RunAny(first) && ptr == first.next
      requires currentDepth > 0
      modifies `ptr, `currentDepth, tmp`length, tmp.buf
      ensures res.Ok? ==> Valid()
      ensures match ReadMembers(S(), first, old(currentDepth), cfg.decodeMaxDepth, cfg.setting)
              case ReadFailed(e) => res == Error(e)
              case Read(m, next) => res == Ok(Table(m)) && ptr == next && currentDepth == old(currentDepth) - 1
      decreases cfg.decodeMaxDepth - currentDepth, |S()| - ptr, 3
    {
      hide CString, NextAny, ReadValue, ReadMembers, ReadKey, SoFar, Ch2Token, Escape2Char, LocalePoint, RunAny,
           NulFree, SettingOk;
      ghost var s, depth, max, g := S(), currentDepth, cfg.decodeMaxDepth, cfg.setting;
      var token := firstToken;
      ghost var a := first;
      ghost var full := ReadMembers(s, a, depth, max, g);
      var entries: map<Key, Value> := map[];
      NothingStored(full);
      while true
        invariant Valid() && currentDepth == depth <= max
        invariant token == RunAny(a) && old(ptr) <= ptr == a.next <= |s|
        invariant SoFar(full, ReadMembers(s, a, depth, max, g), entries)
        decreases |s| - ptr
      {
        MembersStep(full, s, a, depth, max, g, entries);
        var key := ParseKey(token, a);
        if key.KeyError? {
          return Error(key.error);
        }
        ghost var head := NextAny(s, ptr, g);
        token := NextToken();
        var v := ProcessValue(token, head);
        if v.Error? {
          return v;
        }
        entries := entries[StringKey(key.name) := v.value];
        RunFields(NextAny(s, ptr, g));
        token := NextToken();
        if token.ty == TObjEnd {
          Ascend();
          return Ok(Table(entries));
        }
        if token.ty != TComma {
          return Error(Unexpected(CommaOrObjectEnd, token.ty, token.index));
        }
        a := NextAny(s, ptr, g);
        token := NextToken();
      }
    }
  }

  /** The type of a token of one character. */
  function SingleType(kind: Kind): TokenType {
    match kind
    case ObjBeginKind => TObjBegin
    case ObjEndKind => TObjEnd
    case ArrBeginKind => TArrBegin
    case ArrEndKind => TArrEnd
    case CommaKind => TComma
    case ColonKind => TColon
    case _ => TEnd
  }

  /** json_decode, on a counted string, for every setting. */
  method DecodeText(cfg: JsonConfig, text: bytes) returns (res: Result)
    requires cfg.Valid()
    ensures match DecodeAny(text, cfg.decodeMaxDepth, cfg.setting)
            case DecodedAny(v) => res == Ok(v)
            case RejectedAny(e) => res == Error(e)
  {
    hide CString, NextAny, ReadValue, RunAny, Ch2Token, Escape2Char, LocalePoint, SettingOk;
    if |text| >= 2 && (text[0] == 0 || text[1] == 0) {
      return Error(WideEncoding);
    }
    var json := new Parser(text, cfg);
    ghost var s, g := CString(text), cfg.setting;
    AnyInside(s, 0, g);
    var token := json.NextToken();
    res := json.ProcessValue(token, NextAny(s, 0, g));
    if res.Ok? {
      RunFields(NextAny(s, json.ptr, g));
      token := json.NextToken();
      if token.ty != TEnd {
        return Error(Unexpected(TheEnd, token.ty, token.index));
      }
    }
  }

  /**
   * Decoding with the setting off, tied to the grammar: what is returned is the meaning of the tree
   * that the text is, or the error.
   */
  method DecodeStrictly(cfg: JsonConfig, text: bytes) returns (res: Result)
    requires cfg.Valid() && cfg.setting == Off
    ensures match JsonParser.Decode(text, cfg.decodeMaxDepth)
            case Decoded(d) => res == Ok(Meaning(d.value))
            case Rejected(e) => res == Error(e)
  {
    hide DecodeAny, JsonParser.Decode, Meaning;
    OffIsDecode(text, cfg.decodeMaxDepth);
    res := DecodeText(cfg, text);
  }
}
