/**
 * The decoder as a function from texts to values, for both settings of decode_invalid_numbers. With
 * the setting off it does what JsonParser does. With it on, which is the default, it does the same
 * unless a number in no JSON form stands ahead in the text.
 */
module JsonReader {
  import opened Bytes
  import opened Decimals
  import opened JsonGrammar
  import opened JsonLexer
  import opened JsonParser
  import opened JsonSyntax
  import opened Utf8

  // ----- tokens -----

  /** A token, or a number that json_is_invalid_number detects, by its text. */
  datatype AnyToken = Usual(tok: Token) | Odd(text: bytes)

  datatype AnyLexed = AnyLexed(tok: AnyToken, index: nat, next: nat)

  /**
   * How far strtod reads where such a number stands: up to the position given, if it reads nothing.
   * Nothing else is known of it.
   */
  type Reach = (bytes, nat) -> nat

  /** decode_invalid_numbers and, with it on, what strtod does. */
  datatype Setting = Off | On(reach: Reach)

  ghost predicate SettingOk(g: Setting) {
    g.On? ==> forall s: bytes, i: nat :: i <= |s| ==> i <= g.reach(s, i) <= |s|
  }

  function Any(r: Lexed): AnyLexed {
    AnyLexed(Usual(r.tok), r.index, r.next)
  }

  function AnyTypeOf(t: AnyToken): TokenType {
    match t
    case Usual(tok) => TypeOf(tok)
    case Odd(_) => TNumber
  }

  /** json_next_number_token with the setting on. */
  function LexAnyNumber(s: bytes, k: nat, g: Setting): AnyLexed
    requires SettingOk(g) && g.On? && k <= |s|
  {
    if !IsInvalidNumber(s, k) then Any(LexNumber(s, k))
    else if g.reach(s, k) == k then AnyLexed(Usual(ErrorToken(InvalidNumber)), k, k)
    else AnyLexed(Odd(s[k..g.reach(s, k)]), k, g.reach(s, k))
  }

  function LexAny(s: bytes, k: nat, g: Setting): AnyLexed
    requires SettingOk(g) && k < |s|
  {
    if s[k] == QUOTE then Any(LexUnknown(s, k))
    else if NumberStart(s[k]) then if g.Off? then Any(LexNumber(s, k)) else LexAnyNumber(s, k, g)
    else if HasAt(s, k, TRUE_TEXT) then AnyLexed(Usual(BooleanToken(true)), k, k + 4)
    else if HasAt(s, k, FALSE_TEXT) then AnyLexed(Usual(BooleanToken(false)), k, k + 5)
    else if HasAt(s, k, NULL_TEXT) then AnyLexed(Usual(NullToken), k, k + 4)
    else if g.On? && IsInvalidNumber(s, k) then LexAnyNumber(s, k, g)
    else AnyLexed(Usual(ErrorToken(InvalidToken)), k, k)
  }

  /** json_next_token. */
  function NextAny(s: bytes, i: nat, g: Setting): AnyLexed
    requires SettingOk(g) && i <= |s|
  {
    var k := SkipWhitespace(s, i);
    if k < |s| && Ch2Token(s[k]) == UnknownKind then LexAny(s, k, g) else Any(NextToken(s, i))
  }

  /** A number that json_is_invalid_number detects, where a token may start. */
  predicate OddAt(s: bytes, k: nat) {
    k < |s| && Ch2Token(s[k]) == UnknownKind && s[k] != QUOTE && IsInvalidNumber(s, k)
  }

  /** The setting makes a difference only where an odd number stands, and there is no token without it. */
  lemma TokensAgree(s: bytes, i: nat, g: Setting)
    requires SettingOk(g) && NulFree(s) && i <= |s|
    ensures var r, a := NextToken(s, i), NextAny(s, i, g);
            && i <= a.index <= a.next <= |s| && i <= r.index <= r.next <= |s| && TokenAt(s, i, r)
            && (g.Off? || !OddAt(s, SkipWhitespace(s, i)) ==> a == Any(r))
            && (OddAt(s, SkipWhitespace(s, i)) ==> r.tok.ErrorToken? && (a.tok.Odd? || a.tok.tok.ErrorToken?))
            && (a.tok.Odd? || !(a.tok.tok.ErrorToken? || a.tok.tok.End?) ==> a.index < a.next)
            && (!(r.tok.ErrorToken? || r.tok.End?) ==> r.index < r.next)
  {
    hide LexString, ScanNumber, IsInvalidNumber, NumeralText;
    NextTokenSound(s, i);
    WordsAreUsual(s, SkipWhitespace(s, i));
    hide HasAt;
  }

  lemma FirstTwo(s: bytes, i: nat, t: bytes)
    requires HasAtIgnoringCase(s, i, t) && |t| >= 2
    ensures i + 2 <= |s| && Lower(s[i]) == t[0] && Lower(s[i + 1]) == t[1]
  {
    assert Lower(s[i + 0]) == t[0];
  }

  lemma WordsAreUsual(s: bytes, k: nat)
    ensures HasAt(s, k, TRUE_TEXT) || HasAt(s, k, FALSE_TEXT) || HasAt(s, k, NULL_TEXT) ==> !IsInvalidNumber(s, k)
  {
    if HasAt(s, k, TRUE_TEXT) || HasAt(s, k, FALSE_TEXT) || HasAt(s, k, NULL_TEXT) {
      WordsStart(s, k);
      hide HasAt, HasAtIgnoringCase;
      if HasAtIgnoringCase(s, k, [105, 110, 102]) {
        FirstTwo(s, k, [105, 110, 102]);
      }
      if HasAtIgnoringCase(s, k, [110, 97, 110]) {
        FirstTwo(s, k, [110, 97, 110]);
      }
    }
  }

  lemma WordsStart(s: bytes, k: nat)
    requires HasAt(s, k, TRUE_TEXT) || HasAt(s, k, FALSE_TEXT) || HasAt(s, k, NULL_TEXT)
    ensures k + 2 <= |s| && (s[k] == 116 || s[k] == 102 || (s[k] == 110 && s[k + 1] == 117))
  {
    assert TRUE_TEXT[0] == 116 && FALSE_TEXT[0] == 102 && NULL_TEXT[0] == 110 && NULL_TEXT[1] == 117;
    if HasAt(s, k, TRUE_TEXT) {
      FirstOf(s, k, TRUE_TEXT);
    } else if HasAt(s, k, FALSE_TEXT) {
      FirstOf(s, k, FALSE_TEXT);
    } else {
      FirstOf(s, k, NULL_TEXT);
    }
  }

  /** Reading tokens from `i` on, with the setting off, an odd number is met before any error. */
  predicate OddAhead(s: bytes, i: nat)
    requires NulFree(s) && i <= |s|
    decreases |s| - i
  {
    NextTokenSound(s, i);
    var r := NextToken(s, i);
    OddAt(s, SkipWhitespace(s, i)) || (!r.tok.ErrorToken? && !r.tok.End? && OddAhead(s, r.next))
  }

  // ----- the parser, to values -----

  /** What was read, and where reading goes on. */
  datatype Read<+T> = Read(value: T, next: nat) | ReadFailed(error: DecodeError)

  /** json_process_value. */
  function ReadValue(s: bytes, a: AnyLexed, depth: nat, max: nat, g: Setting): (p: Read<Value>)
    requires SettingOk(g) && NulFree(s) && depth <= max && a.next <= |s|
    ensures p.Read? ==> a.next <= p.next <= |s|
    decreases max - depth, |s| - a.next, 2
  {
    match a.tok
    case Odd(t) => Read(OddNumber(t), a.next)
    case Usual(StringToken(items)) => Read(String(ItemsMeaning(items)), a.next)
    case Usual(NumberToken(n)) => Read(Number(NumeralValue(n)), a.next)
    case Usual(BooleanToken(b)) => Read(Boolean(b), a.next)
    case Usual(NullToken) => Read(Null, a.next)
    case Usual(ObjBegin) => ReadObject(s, a.next, depth, max, g)
    case Usual(ArrBegin) => ReadArray(s, a.next, depth, max, g)
    case _ => ReadFailed(Unexpected(AValue, AnyTypeOf(a.tok), a.index))
  }

  /** json_parse_array_context, after the opening bracket. */
  function ReadArray(s: bytes, i: nat, depth: nat, max: nat, g: Setting): (p: Read<Value>)
    requires SettingOk(g) && NulFree(s) && depth <= max && i <= |s|
    ensures p.Read? ==> i <= p.next <= |s|
    decreases max - depth, |s| - i, 1
  {
    if depth + 1 > max then ReadFailed(TooDeep(depth + 1, i))
    else
      TokensAgree(s, i, g);
      var a := NextAny(s, i, g);
      if a.tok == Usual(ArrEnd) then Read(Table(map[]), a.next)
      else match ReadElements(s, a, 1, depth + 1, max, g)
        case ReadFailed(e) => ReadFailed(e)
        case Read(m, next) => Read(Table(m), next)
  }

  /** Its loop, from element `n` on: `a` is the token read. */
  function ReadElements(s: bytes, a: AnyLexed, n: nat, depth: nat, max: nat, g: Setting): (p: Read<map<Key, Value>>)
    requires SettingOk(g) && NulFree(s) && depth <= max && a.next <= |s|
    ensures p.Read? ==> a.next <= p.next <= |s|
    decreases max - depth, |s| - a.next, 3
  {
    match ReadValue(s, a, depth, max, g)
    case ReadFailed(e) => ReadFailed(e)
    case Read(v, j) =>
      TokensAgree(s, j, g);
      var sep := NextAny(s, j, g);
      var first := map[NumberKey(FromInt(n)) := v];
      if sep.tok == Usual(ArrEnd) then Read(first, sep.next)
      else if sep.tok != Usual(Comma) then ReadFailed(Unexpected(CommaOrArrayEnd, AnyTypeOf(sep.tok), sep.index))
      else
        TokensAgree(s, sep.next, g);
        match ReadElements(s, NextAny(s, sep.next, g), n + 1, depth, max, g)
        case ReadFailed(e) => ReadFailed(e)
        case Read(rest, next) => Read(first + rest, next)
  }

  /** json_parse_object_context, after the opening brace. */
  function ReadObject(s: bytes, i: nat, depth: nat, max: nat, g: Setting): (p: Read<Value>)
    requires SettingOk(g) && NulFree(s) && depth <= max && i <= |s|
    ensures p.Read? ==> i <= p.next <= |s|
    decreases max - depth, |s| - i, 1
  {
    if depth + 1 > max then ReadFailed(TooDeep(depth + 1, i))
    else
      TokensAgree(s, i, g);
      var a := NextAny(s, i, g);
      if a.tok == Usual(ObjEnd) then Read(Table(map[]), a.next)
      else match ReadMembers(s, a, depth + 1, max, g)
        case ReadFailed(e) => ReadFailed(e)
        case Read(m, next) => Read(Table(m), next)
  }

  /** A key, of which `a` is the token, and the colon behind it. */
  function ReadKey(s: bytes, a: AnyLexed, g: Setting): (p: Read<Key>)
    requires SettingOk(g) && NulFree(s) && a.next <= |s|
    ensures p.Read? ==> a.next < p.next <= |s|
  {
    if !(a.tok.Usual? && a.tok.tok.StringToken?) then ReadFailed(Unexpected(AKey, AnyTypeOf(a.tok), a.index))
    else
      TokensAgree(s, a.next, g);
      var colon := NextAny(s, a.next, g);
      if colon.tok != Usual(Colon) then ReadFailed(Unexpected(AColon, AnyTypeOf(colon.tok), colon.index))
      else Read(StringKey(ItemsMeaning(a.tok.tok.items)), colon.next)
  }

  /** The loop over the members: `a` is the token read. A later member with the same key wins. */
  function ReadMembers(s: bytes, a: AnyLexed, depth: nat, max: nat, g: Setting): (p: Read<map<Key, Value>>)
    requires SettingOk(g) && NulFree(s) && depth <= max && a.next <= |s|
    ensures p.Read? ==> a.next <= p.next <= |s|
    decreases max - depth, |s| - a.next, 3
  {
    match ReadKey(s, a, g)
    case ReadFailed(e) => ReadFailed(e)
    case Read(key, i) =>
      TokensAgree(s, i, g);
      match ReadValue(s, NextAny(s, i, g), depth, max, g)
      case ReadFailed(e) => ReadFailed(e)
      case Read(v, j) =>
        TokensAgree(s, j, g);
        var sep := NextAny(s, j, g);
        var first := map[key := v];
        if sep.tok == Usual(ObjEnd) then Read(first, sep.next)
        else if sep.tok != Usual(Comma) then ReadFailed(Unexpected(CommaOrObjectEnd, AnyTypeOf(sep.tok), sep.index))
        else
          TokensAgree(s, sep.next, g);
          match ReadMembers(s, NextAny(s, sep.next, g), depth, max, g)
          case ReadFailed(e) => ReadFailed(e)
          case Read(rest, next) => Read(first + rest, next)
  }

  datatype AnyOutcome = DecodedAny(value: Value) | RejectedAny(error: DecodeError)

  /** json_decode. */
  function DecodeAny(text: bytes, max: nat, g: Setting): AnyOutcome
    requires SettingOk(g)
  {
    if LooksWide(text) then RejectedAny(WideEncoding)
    else
      var s := CString(text);
      TokensAgree(s, 0, g);
      match ReadValue(s, NextAny(s, 0, g), 0, max, g)
      case ReadFailed(e) => RejectedAny(e)
      case Read(v, j) =>
        TokensAgree(s, j, g);
        var last := NextAny(s, j, g);
        if last.tok != Usual(End) then RejectedAny(Unexpected(TheEnd, AnyTypeOf(last.tok), last.index))
        else DecodedAny(v)
  }

  // ----- with the setting off it is the parser -----

  function ValueOf(p: Parsed<Json>): Read<Value> {
    match p
    case Failed(e) => ReadFailed(e)
    case Parsed(v, next) => Read(Meaning(v), next)
  }

  function ElementsOf(p: Parsed<Elements>, n: nat): Read<map<Key, Value>> {
    match p
    case Failed(e) => ReadFailed(e)
    case Parsed(es, next) => Read(ElementsMeaning(es, n), next)
  }

  function MembersOf(p: Parsed<Members>): Read<map<Key, Value>> {
    match p
    case Failed(e) => ReadFailed(e)
    case Parsed(ms, next) => Read(MembersMeaning(ms), next)
  }

  lemma {:induction false} OffValue(s: bytes, i: nat, r: Lexed, depth: nat, max: nat)
    requires NulFree(s) && depth <= max && TokenAt(s, i, r) && r.next <= |s|
    ensures ReadValue(s, Any(r), depth, max, Off) == ValueOf(ParseValue(s, r, depth, max))
    decreases max - depth, |s| - r.next, 2
  {
    hide NextToken, NextAny, TokenAt, ItemsMeaning, NumeralValue;
    match r.tok
    case ObjBegin => OffObject(s, r.next, depth, max);
    case ArrBegin => OffArray(s, r.next, depth, max);
    case _ =>
  }

  lemma {:induction false} OffArray(s: bytes, i: nat, depth: nat, max: nat)
    requires NulFree(s) && depth <= max && i <= |s|
    ensures ReadArray(s, i, depth, max, Off) == ValueOf(ParseArray(s, i, depth, max))
    decreases max - depth, |s| - i, 1
  {
    hide NextToken, NextAny, TokenAt, ReadElements, ReadMembers, ParseElements, ParseMembers;
    if depth + 1 <= max {
      TokensAgree(s, i, Off);
      OffElements(s, i, NextToken(s, i), 1, depth + 1, max);
    }
  }

  lemma {:induction false} OffElements(s: bytes, i: nat, r: Lexed, n: nat, depth: nat, max: nat)
    requires NulFree(s) && depth <= max && TokenAt(s, i, r) && r.next <= |s|
    ensures ReadElements(s, Any(r), n, depth, max, Off) == ElementsOf(ParseElements(s, i, r, depth, max), n)
    decreases max - depth, |s| - r.next, 3
  {
    hide NextToken, NextAny, TokenAt, ParseValue, ReadValue, Meaning;
    OffValue(s, i, r, depth, max);
    var p := ParseValue(s, r, depth, max);
    if p.Parsed? {
      TokensAgree(s, p.next, Off);
      var sep := NextToken(s, p.next);
      if sep.tok == Comma {
        TokensAgree(s, sep.next, Off);
        OffElements(s, sep.next, NextToken(s, sep.next), n + 1, depth, max);
      }
    }
  }

  lemma {:induction false} OffObject(s: bytes, i: nat, depth: nat, max: nat)
    requires NulFree(s) && depth <= max && i <= |s|
    ensures ReadObject(s, i, depth, max, Off) == ValueOf(ParseObject(s, i, depth, max))
    decreases max - depth, |s| - i, 1
  {
    hide NextToken, NextAny, TokenAt, ReadElements, ReadMembers, ParseElements, ParseMembers;
    if depth + 1 <= max {
      TokensAgree(s, i, Off);
      OffMembers(s, i, NextToken(s, i), depth + 1, max);
    }
  }

  lemma {:induction false} OffMembers(s: bytes, i: nat, r: Lexed, depth: nat, max: nat)
    requires NulFree(s) && depth <= max && TokenAt(s, i, r) && r.next <= |s|
    ensures ReadMembers(s, Any(r), depth, max, Off) == MembersOf(ParseMembers(s, i, r, depth, max))
    decreases max - depth, |s| - r.next, 3
  {
    hide NextToken, NextAny, TokenAt, ParseValue, ReadValue, Meaning, ItemsMeaning;
    if r.tok.StringToken? {
      TokensAgree(s, r.next, Off);
      var colon := NextToken(s, r.next);
      if colon.tok == Colon {
        TokensAgree(s, colon.next, Off);
        var first := NextToken(s, colon.next);
        OffValue(s, colon.next, first, depth, max);
        var p := ParseValue(s, first, depth, max);
        if p.Parsed? {
          TokensAgree(s, p.next, Off);
          var sep := NextToken(s, p.next);
          if sep.tok == Comma {
            TokensAgree(s, sep.next, Off);
            OffMembers(s, sep.next, NextToken(s, sep.next), depth, max);
          }
        }
      }
    }
  }

  /** With the setting off, what is decoded is the meaning of the tree, and the errors are the same. */
  lemma OffIsDecode(text: bytes, max: nat)
    ensures Decode(text, max).Decoded? ==>
              DecodeAny(text, max, Off) == DecodedAny(Meaning(Decode(text, max).document.value))
    ensures Decode(text, max).Rejected? ==> DecodeAny(text, max, Off) == RejectedAny(Decode(text, max).error)
  {
    hide NextToken, NextAny, TokenAt, ParseValue, ReadValue, Meaning;
    if !LooksWide(text) {
      var s := CString(text);
      TokensAgree(s, 0, Off);
      OffValue(s, 0, NextToken(s, 0), 0, max);
      var p := ParseValue(s, NextToken(s, 0), 0, max);
      if p.Parsed? {
        TokensAgree(s, p.next, Off);
      }
    }
  }

  // ----- the two settings compared -----

  /**
   * From `i` on: what is read without the setting is read with it, and no odd number stands in
   * between; where an error is met without the setting, the same is met with it, or an odd number is
   * ahead.
   */
  ghost predicate Agree<T>(s: bytes, i: nat, off: Read<T>, on: Read<T>)
    requires NulFree(s) && i <= |s| && (off.Read? ==> off.next <= |s|)
  {
    && (off.Read? ==> on == off && (OddAhead(s, i) <==> OddAhead(s, off.next)))
    && (off.ReadFailed? ==> on == off || OddAhead(s, i))
  }

  /** One token. */
  lemma TokenAgrees(s: bytes, i: nat, g: Setting)
    requires SettingOk(g) && NulFree(s) && i <= |s|
    ensures var a, b := NextAny(s, i, Off), NextAny(s, i, g);
            && i <= a.index <= a.next <= |s| && i <= b.index <= b.next <= |s| && a.tok.Usual?
            && (b == a || (OddAhead(s, i) && a.tok.tok.ErrorToken? && (b.tok.Odd? || b.tok.tok.ErrorToken?)))
            && (!a.tok.tok.ErrorToken? && !a.tok.tok.End? ==>
                  b == a && a.index < a.next && (OddAhead(s, i) <==> OddAhead(s, a.next)))
            && (a.tok.tok.End? ==> !OddAhead(s, i))
  {
    hide NextToken, NextAny, TokenAt, OddAt, SkipWhitespace;
    TokensAgree(s, i, Off);
    TokensAgree(s, i, g);
  }

  /** A value, of which the first token is read from `i`. */
  lemma {:induction false} ValueAgrees(s: bytes, i: nat, depth: nat, max: nat, g: Setting)
    requires SettingOk(g) && NulFree(s) && depth <= max && i <= |s|
    requires NextAny(s, i, Off).next <= |s| && NextAny(s, i, g).next <= |s|
    ensures Agree(s, i, ReadValue(s, NextAny(s, i, Off), depth, max, Off),
                  ReadValue(s, NextAny(s, i, g), depth, max, g))
    decreases max - depth, |s| - i, 2
  {
    hide NextToken, NextAny, ItemsMeaning, NumeralValue, OddAhead;
    TokenAgrees(s, i, g);
    var a := NextAny(s, i, Off);
    match a.tok.tok
    case ObjBegin => ObjectAgrees(s, a.next, depth, max, g);
    case ArrBegin => ArrayAgrees(s, a.next, depth, max, g);
    case _ =>
  }

  lemma {:induction false} ArrayAgrees(s: bytes, i: nat, depth: nat, max: nat, g: Setting)
    requires SettingOk(g) && NulFree(s) && depth <= max && i <= |s|
    ensures Agree(s, i, ReadArray(s, i, depth, max, Off), ReadArray(s, i, depth, max, g))
    decreases max - depth, |s| - i, 1
  {
    hide NextToken, NextAny, OddAhead, ReadElements;
    if depth + 1 <= max {
      TokenAgrees(s, i, g);
      ElementsAgree(s, i, 1, depth + 1, max, g);
    }
  }

  lemma {:induction false} ElementsAgree(s: bytes, i: nat, n: nat, depth: nat, max: nat, g: Setting)
    requires SettingOk(g) && NulFree(s) && depth <= max && i <= |s|
    requires NextAny(s, i, Off).next <= |s| && NextAny(s, i, g).next <= |s|
    ensures Agree(s, i, ReadElements(s, NextAny(s, i, Off), n, depth, max, Off),
                  ReadElements(s, NextAny(s, i, g), n, depth, max, g))
    decreases max - depth, |s| - i, 3
  {
    hide NextToken, NextAny, ReadValue, OddAhead;
    ValueAgrees(s, i, depth, max, g);
    TokenAgrees(s, i, g);
    var off := ReadValue(s, NextAny(s, i, Off), depth, max, Off);
    if off.Read? {
      TokenAgrees(s, off.next, g);
      var sep := NextAny(s, off.next, Off);
      if sep.tok == Usual(Comma) {
        TokenAgrees(s, sep.next, g);
        ElementsAgree(s, sep.next, n + 1, depth, max, g);
      }
    }
  }

  lemma {:induction false} ObjectAgrees(s: bytes, i: nat, depth: nat, max: nat, g: Setting)
    requires SettingOk(g) && NulFree(s) && depth <= max && i <= |s|
    ensures Agree(s, i, ReadObject(s, i, depth, max, Off), ReadObject(s, i, depth, max, g))
    decreases max - depth, |s| - i, 1
  {
    hide NextToken, NextAny, OddAhead, ReadMembers;
    if depth + 1 <= max {
      TokenAgrees(s, i, g);
      MembersAgree(s, i, depth + 1, max, g);
    }
  }

  lemma KeyAgrees(s: bytes, i: nat, g: Setting)
    requires SettingOk(g) && NulFree(s) && i <= |s|
    requires NextAny(s, i, Off).next <= |s| && NextAny(s, i, g).next <= |s|
    ensures Agree(s, i, ReadKey(s, NextAny(s, i, Off), Off), ReadKey(s, NextAny(s, i, g), g))
    ensures ReadKey(s, NextAny(s, i, Off), Off).Read? ==> i < ReadKey(s, NextAny(s, i, Off), Off).next
  {
    hide NextToken, NextAny, ItemsMeaning, OddAhead;
    TokenAgrees(s, i, g);
    var a := NextAny(s, i, Off);
    TokenAgrees(s, a.next, g);
  }

  lemma {:induction false} MembersAgree(s: bytes, i: nat, depth: nat, max: nat, g: Setting)
    requires SettingOk(g) && NulFree(s) && depth <= max && i <= |s|
    requires NextAny(s, i, Off).next <= |s| && NextAny(s, i, g).next <= |s|
    ensures Agree(s, i, ReadMembers(s, NextAny(s, i, Off), depth, max, Off),
                  ReadMembers(s, NextAny(s, i, g), depth, max, g))
    decreases max - depth, |s| - i, 3
  {
    hide NextToken, NextAny, ReadValue, ReadKey, OddAhead;
    KeyAgrees(s, i, g);
    var key := ReadKey(s, NextAny(s, i, Off), Off);
    if key.Read? {
      TokenAgrees(s, key.next, g);
      ValueAgrees(s, key.next, depth, max, g);
      var off := ReadValue(s, NextAny(s, key.next, Off), depth, max, Off);
      if off.Read? {
        TokenAgrees(s, off.next, g);
        var sep := NextAny(s, off.next, Off);
        if sep.tok == Usual(Comma) {
          TokenAgrees(s, sep.next, g);
          MembersAgree(s, sep.next, depth, max, g);
        }
      }
    }
  }

  /**
   * For every text and every setting: if no odd number is ahead, the outcome is that with the setting
   * off, also the error; and with the setting off a text with an odd number ahead is rejected.
   */
  lemma OutcomesAgree(text: bytes, max: nat, g: Setting)
    requires SettingOk(g)
    ensures !OddAhead(CString(text), 0) ==> DecodeAny(text, max, g) == DecodeAny(text, max, Off)
    ensures OddAhead(CString(text), 0) ==> DecodeAny(text, max, Off).RejectedAny?
    ensures DecodeAny(text, max, Off).DecodedAny? ==> DecodeAny(text, max, g) == DecodeAny(text, max, Off)
  {
    hide NextToken, NextAny, ReadValue, OddAhead;
    if !LooksWide(text) {
      var s := CString(text);
      TokenAgrees(s, 0, g);
      ValueAgrees(s, 0, 0, max, g);
      var off := ReadValue(s, NextAny(s, 0, Off), 0, max, Off);
      if off.Read? {
        TokenAgrees(s, off.next, g);
      }
    } else {
    }
  }
}
