/**
 * The decoder's recursive descent as a function from texts to syntax trees. It follows the code
 * token by token, and it is the exact inverse of writing a well formed tree out as text.
 */
module JsonParser {
  import opened Bytes
  import opened Decimals
  import opened JsonSyntax
  import opened JsonLexer

  datatype Expectation = AValue | AKey | AColon | CommaOrArrayEnd | CommaOrObjectEnd | TheEnd

  datatype DecodeError =
    | Unexpected(expected: Expectation, found: TokenType, index: nat)
    | TooDeep(depth: nat, index: nat)
    | WideEncoding

  datatype Parsed<+T> = Parsed(tree: T, next: nat) | Failed(error: DecodeError)

  /** json_process_value, for a token already read. */
  function ParseValue(s: bytes, r: Lexed, depth: nat, max: nat): (p: Parsed<Json>)
    requires NulFree(s) && depth <= max && r.next <= |s|
    ensures p.Parsed? ==> r.next <= p.next <= |s|
    decreases max - depth, |s| - r.next, 2
  {
    match r.tok
    case StringToken(items) => Parsed(JString(items), r.next)
    case NumberToken(n) => Parsed(JNumber(n), r.next)
    case BooleanToken(b) => Parsed(JBool(b), r.next)
    case NullToken => Parsed(JNull, r.next)
    case ObjBegin => ParseObject(s, r.next, depth, max)
    case ArrBegin => ParseArray(s, r.next, depth, max)
    case _ => Failed(Unexpected(AValue, TypeOf(r.tok), r.index))
  }

  /** json_parse_array_context, after the opening bracket. */
  function ParseArray(s: bytes, i: nat, depth: nat, max: nat): (p: Parsed<Json>)
    requires NulFree(s) && depth <= max && i <= |s|
    ensures p.Parsed? ==> i <= p.next <= |s|
    decreases max - depth, |s| - i, 1
  {
    if depth + 1 > max then Failed(TooDeep(depth + 1, i))
    else
      NextTokenSound(s, i);
      var r := NextToken(s, i);
      if r.tok == ArrEnd then Parsed(JEmptyArray(s[i..r.index]), r.next)
      else match ParseElements(s, i, r, depth + 1, max)
        case Failed(e) => Failed(e)
        case Parsed(es, next) => Parsed(JArray(es), next)
  }

  /** The loop of json_parse_array_context: `r` is the token read from `i` on. */
  function ParseElements(s: bytes, i: nat, r: Lexed, depth: nat, max: nat): (p: Parsed<Elements>)
    requires NulFree(s) && depth <= max && TokenAt(s, i, r)
    ensures p.Parsed? ==> i <= p.next <= |s|
    decreases max - depth, |s| - r.next, 3
  {
    match ParseValue(s, r, depth, max)
    case Failed(e) => Failed(e)
    case Parsed(v, j) =>
      NextTokenSound(s, j);
      var sep := NextToken(s, j);
      var w1, w2 := s[i..r.index], s[j..sep.index];
      if sep.tok == ArrEnd then Parsed(LastElement(w1, v, w2), sep.next)
      else if sep.tok != Comma then Failed(Unexpected(CommaOrArrayEnd, TypeOf(sep.tok), sep.index))
      else
        NextTokenSound(s, sep.next);
        match ParseElements(s, sep.next, NextToken(s, sep.next), depth, max)
        case Failed(e) => Failed(e)
        case Parsed(rest, next) => Parsed(MoreElements(w1, v, w2, rest), next)
  }

  /** json_parse_object_context, after the opening brace. */
  function ParseObject(s: bytes, i: nat, depth: nat, max: nat): (p: Parsed<Json>)
    requires NulFree(s) && depth <= max && i <= |s|
    ensures p.Parsed? ==> i <= p.next <= |s|
    decreases max - depth, |s| - i, 1
  {
    if depth + 1 > max then Failed(TooDeep(depth + 1, i))
    else
      NextTokenSound(s, i);
      var r := NextToken(s, i);
      if r.tok == ObjEnd then Parsed(JEmptyObject(s[i..r.index]), r.next)
      else match ParseMembers(s, i, r, depth + 1, max)
        case Failed(e) => Failed(e)
        case Parsed(ms, next) => Parsed(JObject(ms), next)
  }

  /** The loop of json_parse_object_context: `r` is the token read from `i` on. */
  function ParseMembers(s: bytes, i: nat, r: Lexed, depth: nat, max: nat): (p: Parsed<Members>)
    requires NulFree(s) && depth <= max && TokenAt(s, i, r)
    ensures p.Parsed? ==> i <= p.next <= |s|
    decreases max - depth, |s| - r.next, 3
  {
    if !r.tok.StringToken? then Failed(Unexpected(AKey, TypeOf(r.tok), r.index))
    else
      NextTokenSound(s, r.next);
      var colon := NextToken(s, r.next);
      if colon.tok != Colon then Failed(Unexpected(AColon, TypeOf(colon.tok), colon.index))
      else
        NextTokenSound(s, colon.next);
        var first := NextToken(s, colon.next);
        match ParseValue(s, first, depth, max)
        case Failed(e) => Failed(e)
        case Parsed(v, j) =>
          NextTokenSound(s, j);
          var sep := NextToken(s, j);
          var w1, w2, w3 := s[i..r.index], s[r.next..colon.index], s[colon.next..first.index];
          var w4 := s[j..sep.index];
          if sep.tok == ObjEnd then Parsed(LastMember(w1, r.tok.items, w2, w3, v, w4), sep.next)
          else if sep.tok != Comma then Failed(Unexpected(CommaOrObjectEnd, TypeOf(sep.tok), sep.index))
          else
            NextTokenSound(s, sep.next);
            match ParseMembers(s, sep.next, NextToken(s, sep.next), depth, max)
            case Failed(e) => Failed(e)
            case Parsed(rest, next) => Parsed(MoreMembers(w1, r.tok.items, w2, w3, v, w4, rest), next)
  }

  datatype Outcome = Decoded(document: Document) | Rejected(error: DecodeError)

  predicate LooksWide(text: bytes) {
    |text| >= 2 && (text[0] == 0 || text[1] == 0)
  }

  /** json_decode: the text is a counted string, but the parser stops at its first NUL. */
  function Decode(text: bytes, max: nat): Outcome {
    if LooksWide(text) then Rejected(WideEncoding)
    else
      var s := CString(text);
      NextTokenSound(s, 0);
      var first := NextToken(s, 0);
      match ParseValue(s, first, 0, max)
      case Failed(e) => Rejected(e)
      case Parsed(v, j) =>
        NextTokenSound(s, j);
        var last := NextToken(s, j);
        if last.tok != End then Rejected(Unexpected(TheEnd, TypeOf(last.tok), last.index))
        else Decoded(Document(s[..first.index], v, s[j..last.index]))
  }
}
