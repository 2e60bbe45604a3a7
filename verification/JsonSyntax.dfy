/**
 * Concrete syntax of JSON texts: trees that keep every byte of the text, the text of a tree,
 * which trees are well formed, how deep they nest, and the Lua value they mean.
 */
module JsonSyntax {
  import opened Bytes
  import opened Decimals
  import opened Utf8

  const QUOTE: byte := 34
  const BACKSLASH: byte := 92
  const LETTER_U: byte := 117
  const COMMA: byte := 44
  const COLON: byte := 58
  const LBRACKET: byte := 91
  const RBRACKET: byte := 93
  const LBRACE: byte := 123
  const RBRACE: byte := 125
  const NULL_TEXT: bytes := [110, 117, 108, 108]
  const TRUE_TEXT: bytes := [116, 114, 117, 101]
  const FALSE_TEXT: bytes := [102, 97, 108, 115, 101]

  // ----- decoded values -----

  /** A key of a decoded Lua table: an array index or an object key. */
  datatype Key = NumberKey(number: Decimal) | StringKey(name: bytes)

  /**
   * A decoded Lua value; Null is the light userdata NULL, and OddNumber is what strtod makes of a
   * text that is no JSON number.
   */
  datatype Value =
    | Null
    | Boolean(b: bool)
    | Number(d: Decimal)
    | OddNumber(text: bytes)
    | String(s: bytes)
    | Table(entries: map<Key, Value>)

  // ----- syntax trees -----

  /** One character of a string: raw, a two-byte escape, one \u escape, or a surrogate pair. */
  datatype StringItem = Raw(b: byte) | Short(c: byte) | Unit(h: bytes) | Pair(high: bytes, low: bytes)

  type Items = seq<StringItem>

  datatype Json =
    | JNull
    | JBool(b: bool)
    | JNumber(n: Numeral)
    | JString(items: Items)
    | JEmptyArray(w: bytes)
    | JArray(elements: Elements)
    | JEmptyObject(w: bytes)
    | JObject(members: Members)
  datatype Elements =
    | LastElement(w1: bytes, value: Json, w2: bytes)
    | MoreElements(w1: bytes, value: Json, w2: bytes, rest: Elements)
  datatype Members =
    | LastMember(w1: bytes, key: Items, w2: bytes, w3: bytes, value: Json, w4: bytes)
    | MoreMembers(w1: bytes, key: Items, w2: bytes, w3: bytes, value: Json, w4: bytes, rest: Members)
  datatype Document = Document(w1: bytes, value: Json, w2: bytes)

  // ----- the text of a tree -----

  function ItemText(c: StringItem): (t: bytes)
    ensures |t| >= 1
  {
    match c
    case Raw(b) => [b]
    case Short(e) => [BACKSLASH, e]
    case Unit(h) => [BACKSLASH, LETTER_U] + h
    case Pair(high, low) => [BACKSLASH, LETTER_U] + (high + ([BACKSLASH, LETTER_U] + low))
  }

  /** The rest of a string, up to and including the closing quote. */
  function ItemsText(cs: Items): (t: bytes)
    ensures |t| >= 1
  {
    if |cs| == 0 then [QUOTE] else ItemText(cs[0]) + ItemsText(cs[1..])
  }

  function StringText(cs: Items): bytes {
    [QUOTE] + ItemsText(cs)
  }

  function JsonText(j: Json): (t: bytes)
    decreases j
  {
    match j
    case JNull => NULL_TEXT
    case JBool(b) => if b then TRUE_TEXT else FALSE_TEXT
    case JNumber(n) => NumeralText(n)
    case JString(items) => StringText(items)
    case JEmptyArray(w) => [LBRACKET] + (w + [RBRACKET])
    case JArray(es) => [LBRACKET] + ElementsText(es)
    case JEmptyObject(w) => [LBRACE] + (w + [RBRACE])
    case JObject(ms) => [LBRACE] + MembersText(ms)
  }

  /** The elements of an array, up to and including the closing bracket. */
  function ElementsText(es: Elements): bytes
    decreases es, 1
  {
    es.w1 + (JsonText(es.value) + (es.w2 + ElementsTail(es)))
  }

  function ElementsTail(es: Elements): bytes
    decreases es, 0
  {
    match es
    case LastElement(_, _, _) => [RBRACKET]
    case MoreElements(_, _, _, rest) => [COMMA] + ElementsText(rest)
  }

  /** The members of an object, up to and including the closing brace. */
  function MembersText(ms: Members): bytes
    decreases ms, 1
  {
    ms.w1 + (StringText(ms.key) + (ms.w2 + ([COLON]
      + (ms.w3 + (JsonText(ms.value) + (ms.w4 + MembersTail(ms)))))))
  }

  function MembersTail(ms: Members): bytes
    decreases ms, 0
  {
    match ms
    case LastMember(_, _, _, _, _, _) => [RBRACE]
    case MoreMembers(_, _, _, _, _, _, rest) => [COMMA] + MembersText(rest)
  }

  function DocumentText(d: Document): bytes {
    d.w1 + (JsonText(d.value) + d.w2)
  }

  // ----- which trees are well formed -----

  predicate IsWhitespace(b: byte) {
    b == 32 || b == 9 || b == 10 || b == 13
  }

  ghost predicate AllWhitespace(w: bytes) {
    forall k :: 0 <= k < |w| ==> IsWhitespace(w[k])
  }

  /** What a two-byte escape stands for; 'u' announces a \u escape and 0 is no escape at all. */
  function Escape2Char(c: byte): byte {
    if c == QUOTE || c == BACKSLASH || c == 47 then c
    else if c == 98 then 8
    else if c == 116 then 9
    else if c == 110 then 10
    else if c == 102 then 12
    else if c == 114 then 13
    else if c == LETTER_U then LETTER_U
    else 0
  }

  /**
   * The grammars of JSON texts. Rfc is that of sections 2 to 7 of RFC 8259, byte by byte: any four
   * hexadecimal digits may follow \u. Relaxed is what the decoder accepts: surrogates must be
   * escaped in pairs, but raw control bytes and bare dots are let through. Strict keeps to both,
   * and Loose to neither.
   */
  datatype Grammar = Rfc | Relaxed | Strict | Loose

  /** No raw control bytes, and digits on both sides of a '.'. */
  predicate Tight(g: Grammar) {
    g == Rfc || g == Strict
  }

  /** Surrogates are escaped in pairs, and a pair is one character. */
  predicate PairsUp(g: Grammar) {
    g == Relaxed || g == Strict
  }

  ghost predicate IsHex4(h: bytes) {
    |h| == 4 && forall k :: 0 <= k < 4 ==> IsHexDigit(h[k])
  }

  ghost predicate ItemOk(c: StringItem, g: Grammar) {
    match c
    case Raw(b) => b != QUOTE && b != BACKSLASH && b != 0 && (Tight(g) ==> b >= 0x20)
    case Short(e) => Escape2Char(e) != 0 && e != LETTER_U
    case Unit(h) => IsHex4(h) && (PairsUp(g) ==> !IsSurrogate(DecodeHex4(h, 0)))
    case Pair(high, low) =>
      PairsUp(g) && |high| == 4 && |low| == 4 && IsHigh(DecodeHex4(high, 0)) && IsLow(DecodeHex4(low, 0))
  }

  ghost predicate ItemsOk(cs: Items, g: Grammar) {
    forall k :: 0 <= k < |cs| ==> ItemOk(cs[k], g)
  }

  /**
   * The numerals of the grammar: with `strict`, section 6 of RFC 8259; without, also a '.' with no
   * digit behind it, and after '-' a '.' with no digit before it.
   */
  ghost predicate NumeralOk(n: Numeral, strict: bool) {
    && Scannable(n)
    && (|n.ip| > 1 ==> n.ip[0] != ZERO)
    && (|n.ip| >= 1 || n.neg)
    && (strict ==> RfcNumber(n))
  }

  ghost predicate JsonOk(j: Json, g: Grammar)
    decreases j
  {
    match j
    case JNull => true
    case JBool(_) => true
    case JNumber(n) => NumeralOk(n, Tight(g))
    case JString(items) => ItemsOk(items, g)
    case JEmptyArray(w) => AllWhitespace(w)
    case JArray(es) => ElementsOk(es, g)
    case JEmptyObject(w) => AllWhitespace(w)
    case JObject(ms) => MembersOk(ms, g)
  }

  ghost predicate ElementsOk(es: Elements, g: Grammar)
    decreases es
  {
    && AllWhitespace(es.w1) && AllWhitespace(es.w2)
    && JsonOk(es.value, g)
    && (es.MoreElements? ==> ElementsOk(es.rest, g))
  }

  ghost predicate MembersOk(ms: Members, g: Grammar)
    decreases ms
  {
    && AllWhitespace(ms.w1) && AllWhitespace(ms.w2) && AllWhitespace(ms.w3) && AllWhitespace(ms.w4)
    && ItemsOk(ms.key, g)
    && JsonOk(ms.value, g)
    && (ms.MoreMembers? ==> MembersOk(ms.rest, g))
  }

  ghost predicate DocumentOk(d: Document, g: Grammar) {
    AllWhitespace(d.w1) && JsonOk(d.value, g) && AllWhitespace(d.w2)
  }

  // ----- nesting depth -----

  function Max(a: nat, b: nat): nat {
    if a < b then b else a
  }

  function Depth(j: Json): nat
    decreases j
  {
    match j
    case JEmptyArray(_) => 1
    case JEmptyObject(_) => 1
    case JArray(es) => 1 + ElementsDepth(es)
    case JObject(ms) => 1 + MembersDepth(ms)
    case _ => 0
  }

  function ElementsDepth(es: Elements): nat
    decreases es
  {
    match es
    case LastElement(_, v, _) => Depth(v)
    case MoreElements(_, v, _, rest) => Max(Depth(v), ElementsDepth(rest))
  }

  function MembersDepth(ms: Members): nat
    decreases ms
  {
    match ms
    case LastMember(_, _, _, _, v, _) => Depth(v)
    case MoreMembers(_, _, _, _, v, _, rest) => Max(Depth(v), MembersDepth(rest))
  }

  // ----- meaning -----

  function ItemMeaning(c: StringItem): bytes {
    match c
    case Raw(b) => [b]
    case Short(e) => [Escape2Char(e)]
    case Unit(h) => if DecodeHex4(h, 0) >= 0 then CodepointToUtf8(DecodeHex4(h, 0)) else []
    case Pair(high, low) =>
      if IsHigh(DecodeHex4(high, 0)) && IsLow(DecodeHex4(low, 0))
      then CodepointToUtf8(PairValue(DecodeHex4(high, 0), DecodeHex4(low, 0))) else []
  }

  function ItemsMeaning(cs: Items): bytes {
    if |cs| == 0 then [] else ItemMeaning(cs[0]) + ItemsMeaning(cs[1..])
  }

  function Meaning(j: Json): Value
    decreases j
  {
    match j
    case JNull => Null
    case JBool(b) => Boolean(b)
    case JNumber(n) => Number(NumeralValue(n))
    case JString(items) => String(ItemsMeaning(items))
    case JEmptyArray(_) => Table(map[])
    case JArray(es) => Table(ElementsMeaning(es, 1))
    case JEmptyObject(_) => Table(map[])
    case JObject(ms) => Table(MembersMeaning(ms))
  }

  /** The elements of an array are numbered from `i` on. */
  function ElementsMeaning(es: Elements, i: nat): map<Key, Value>
    decreases es
  {
    var first := map[NumberKey(FromInt(i)) := Meaning(es.value)];
    match es
    case LastElement(_, _, _) => first
    case MoreElements(_, _, _, rest) => first + ElementsMeaning(rest, i + 1)
  }

  /** The last of several members with one key wins. */
  function MembersMeaning(ms: Members): map<Key, Value>
    decreases ms
  {
    var first := map[StringKey(ItemsMeaning(ms.key)) := Meaning(ms.value)];
    match ms
    case LastMember(_, _, _, _, _, _) => first
    case MoreMembers(_, _, _, _, _, _, rest) => first + MembersMeaning(rest)
  }

  // ----- first facts -----

  /** No NUL byte occurs in the text of a well formed tree. */
  lemma {:induction false} ItemsTextNulFree(cs: Items, g: Grammar)
    requires ItemsOk(cs, g)
    ensures NulFree(ItemsText(cs))
  {
    if |cs| == 0 {
    } else {
      assert ItemOk(cs[0], g);
      ItemNulFree(cs[0], g);
      ItemsTextNulFree(cs[1..], g);
    }
  }

  lemma HexNulFree(h: bytes)
    requires |h| == 4 && DecodeHex4(h, 0) >= 0
    ensures NulFree(h)
  {
    assert forall k :: 0 <= k < 4 ==> IsHexDigit(h[k]);
  }

  lemma ItemNulFree(c: StringItem, g: Grammar)
    requires ItemOk(c, g)
    ensures NulFree(ItemText(c))
  {
    match c
    case Unit(h) => HexNulFree(h);
    case Pair(high, low) =>
      HexNulFree(high);
      HexNulFree(low);
    case _ =>
  }

  lemma NulFreeConcat(a: bytes, b: bytes)
    requires NulFree(a) && NulFree(b)
    ensures NulFree(a + b)
  {
  }

  lemma NumeralNulFree(n: Numeral)
    requires Scannable(n)
    ensures NulFree(NumeralText(n))
  {
    assert NulFree(n.ip) && NulFree(n.fp) && NulFree(SignText(n.neg));
    assert NulFree(FractionText(n)) && NulFree(ExponentText(n.ex));
    NulFreeConcat(FractionText(n), ExponentText(n.ex));
    NulFreeConcat(n.ip, FractionText(n) + ExponentText(n.ex));
  }

  lemma {:induction false} JsonTextNulFree(j: Json, g: Grammar)
    requires JsonOk(j, g)
    ensures NulFree(JsonText(j))
    decreases j
  {
    match j
    case JNumber(n) => NumeralNulFree(n);
    case JString(items) => ItemsTextNulFree(items, g);
    case JArray(es) => ElementsTextNulFree(es, g);
    case JObject(ms) => MembersTextNulFree(ms, g);
    case _ =>
  }

  lemma {:induction false} ElementsTextNulFree(es: Elements, g: Grammar)
    requires ElementsOk(es, g)
    ensures NulFree(ElementsText(es))
    decreases es
  {
    JsonTextNulFree(es.value, g);
    if es.MoreElements? {
      ElementsTextNulFree(es.rest, g);
    } else {
    }
    NulFreeConcat(es.w2, ElementsTail(es));
    NulFreeConcat(JsonText(es.value), es.w2 + ElementsTail(es));
  }

  lemma {:induction false} MembersTextNulFree(ms: Members, g: Grammar)
    requires MembersOk(ms, g)
    ensures NulFree(MembersText(ms))
    decreases ms
  {
    JsonTextNulFree(ms.value, g);
    ItemsTextNulFree(ms.key, g);
    if ms.MoreMembers? {
      MembersTextNulFree(ms.rest, g);
    } else {
    }
    var tail := MembersTail(ms);
    NulFreeConcat(ms.w4, tail);
    NulFreeConcat(JsonText(ms.value), ms.w4 + tail);
    NulFreeConcat(ms.w3, JsonText(ms.value) + (ms.w4 + tail));
    var rest := [COLON] + (ms.w3 + (JsonText(ms.value) + (ms.w4 + tail)));
    NulFreeConcat(ms.w2, rest);
    NulFreeConcat(StringText(ms.key), ms.w2 + rest);
  }

  /** The same grammar without the demands of Tight. */
  function Loosened(g: Grammar): Grammar {
    if PairsUp(g) then Relaxed else Loose
  }

  lemma ItemsLoosened(cs: Items, g: Grammar)
    requires ItemsOk(cs, g)
    ensures ItemsOk(cs, Loosened(g))
  {
    forall k | 0 <= k < |cs|
      ensures ItemOk(cs[k], Loosened(g))
    {
      assert ItemOk(cs[k], g);
    }
  }

  lemma {:induction false} JsonLoosened(j: Json, g: Grammar)
    requires JsonOk(j, g)
    ensures JsonOk(j, Loosened(g))
    decreases j
  {
    hide ItemsOk;
    match j
    case JString(items) => ItemsLoosened(items, g);
    case JArray(es) => ElementsLoosened(es, g);
    case JObject(ms) => MembersLoosened(ms, g);
    case _ =>
  }

  lemma {:induction false} ElementsLoosened(es: Elements, g: Grammar)
    requires ElementsOk(es, g)
    ensures ElementsOk(es, Loosened(g))
    decreases es
  {
    hide JsonOk;
    JsonLoosened(es.value, g);
    match es
    case LastElement(_, _, _) =>
    case MoreElements(_, _, _, rest) => ElementsLoosened(rest, g);
  }

  lemma {:induction false} MembersLoosened(ms: Members, g: Grammar)
    requires MembersOk(ms, g)
    ensures MembersOk(ms, Loosened(g))
    decreases ms
  {
    hide JsonOk, ItemsOk;
    ItemsLoosened(ms.key, g);
    JsonLoosened(ms.value, g);
    match ms
    case LastMember(_, _, _, _, _, _) =>
    case MoreMembers(_, _, _, _, _, _, rest) => MembersLoosened(rest, g);
  }
}
