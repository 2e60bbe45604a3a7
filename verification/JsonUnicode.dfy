/**
 * JSON texts as UTF-8: a text is UTF-8 exactly if all its strings and keys mean UTF-8, so that what
 * the encoder writes is JSON exactly if all strings and keys it was given are UTF-8.
 */
module JsonUnicode {
  import opened Bytes
  import opened Decimals
  import opened JsonEncoder
  import opened JsonGrammar
  import opened JsonLexer
  import opened JsonNesting
  import opened JsonParser
  import opened JsonRoundTrip
  import opened JsonSyntax
  import opened JsonTidy
  import opened LuaHeap
  import opened Utf8

  // ----- one string -----

  predicate RawHigh(c: StringItem) {
    c.Raw? && c.b > 0x7F
  }

  lemma HexAscii(h: bytes)
    requires IsHex4(h)
    ensures Ascii(h)
  {
    assert forall k :: 0 <= k < 4 ==> IsHexDigit(h[k]);
  }

  /** A character that is not raw is written in ASCII, and means a character of UTF-8. */
  lemma ItemIsUtf8(c: StringItem)
    requires ItemOk(c, Relaxed) && !RawHigh(c)
    ensures Ascii(ItemText(c)) && WellFormed(ItemMeaning(c)) && AtBoundary(ItemMeaning(c)) && |ItemMeaning(c)| > 0
  {
    hide DecodeHex4, CodepointToUtf8, DecodeUtf8;
    match c
    case Raw(b) => AsciiWellFormed([b]);
    case Short(e) => AsciiWellFormed([Escape2Char(e)]);
    case Unit(h) =>
      HexAscii(h);
      ScalarIsUtf8(DecodeHex4(h, 0));
    case Pair(high, low) =>
      HexAscii(high);
      HexAscii(low);
      ScalarIsUtf8(PairValue(DecodeHex4(high, 0), DecodeHex4(low, 0)));
  }

  lemma ScalarIsUtf8(v: nat)
    requires IsScalar(v)
    ensures var u := CodepointToUtf8(v); |u| > 0 && WellFormed(u) && AtBoundary(u)
  {
    var u := CodepointToUtf8(v);
    Utf8RoundTrip(v, []);
    assert u + [] == u;
    assert u[|u|..] == [];
  }

  /** A character that is not raw ends whatever was begun before it, in the text and in its meaning. */
  lemma ItemApart(p: bytes, c: StringItem, text: bytes, meaning: bytes)
    requires ItemOk(c, Relaxed) && !RawHigh(c)
    ensures WellFormed(p + (ItemText(c) + text)) <==> WellFormed(p) && WellFormed(text)
    ensures WellFormed(p + (ItemMeaning(c) + meaning)) <==> WellFormed(p) && WellFormed(meaning)
  {
    hide ItemOk, ItemText, ItemMeaning, WellFormed;
    ItemIsUtf8(c);
    WellFormedConcat(p, ItemText(c) + text);
    WellFormedConcat(p, ItemMeaning(c) + meaning);
    AsciiWellFormed(ItemText(c));
    WellFormedBefore(ItemText(c), text);
    WellFormedBefore(ItemMeaning(c), meaning);
  }

  lemma RawCopied(p: bytes, c: StringItem, text: bytes, meaning: bytes)
    requires RawHigh(c)
    ensures p + (ItemText(c) + text) == (p + [c.b]) + text
    ensures p + (ItemMeaning(c) + meaning) == (p + [c.b]) + meaning
  {
  }

  lemma {:induction false} BehindUtf8(p: bytes, cs: Items)
    requires ItemsOk(cs, Relaxed)
    ensures WellFormed(p + ItemsText(cs)) <==> WellFormed(p + ItemsMeaning(cs))
    decreases |cs|
  {
    hide ItemOk, ItemText, ItemMeaning, WellFormed;
    if |cs| == 0 {
      AsciiWellFormed([QUOTE]);
      WellFormedConcat(p, [QUOTE]);
      assert p + [] == p;
    } else {
      var c, text, meaning := cs[0], ItemsText(cs[1..]), ItemsMeaning(cs[1..]);
      assert ItemOk(c, Relaxed);
      if RawHigh(c) {
        RawCopied(p, c, text, meaning);
        BehindUtf8(p + [c.b], cs[1..]);
      } else {
        ItemApart(p, c, text, meaning);
        BehindUtf8([], cs[1..]);
        assert [] + text == text && [] + meaning == meaning;
      }
    }
  }

  /** A string is written in UTF-8 exactly if it means UTF-8. */
  lemma StringUtf8(cs: Items)
    requires ItemsOk(cs, Relaxed)
    ensures WellFormed(ItemsText(cs)) <==> WellFormed(ItemsMeaning(cs))
  {
    hide ItemsText, ItemsMeaning, WellFormed;
    BehindUtf8([], cs);
    assert [] + ItemsText(cs) == ItemsText(cs) && [] + ItemsMeaning(cs) == ItemsMeaning(cs);
  }

  // ----- whole texts -----

  /** All strings and keys of the tree mean UTF-8. */
  predicate AllUtf8(j: Json)
    decreases j
  {
    match j
    case JString(items) => WellFormed(ItemsMeaning(items))
    case JArray(es) => ElementsUtf8(es)
    case JObject(ms) => MembersUtf8(ms)
    case _ => true
  }

  predicate ElementsUtf8(es: Elements)
    decreases es
  {
    AllUtf8(es.value) && (es.MoreElements? ==> ElementsUtf8(es.rest))
  }

  predicate MembersUtf8(ms: Members)
    decreases ms
  {
    WellFormed(ItemsMeaning(ms.key)) && AllUtf8(ms.value) && (ms.MoreMembers? ==> MembersUtf8(ms.rest))
  }

  lemma AsciiBefore(a: bytes, t: bytes)
    requires Ascii(a)
    ensures WellFormed(a + t) <==> WellFormed(t)
  {
    AsciiWellFormed(a);
    WellFormedBefore(a, t);
  }

  lemma AsciiConcat(a: bytes, b: bytes)
    requires Ascii(a) && Ascii(b)
    ensures Ascii(a + b)
  {
  }

  lemma WhitespaceAscii(w: bytes)
    requires AllWhitespace(w)
    ensures Ascii(w)
  {
  }

  lemma WordsAscii()
    ensures Ascii(NULL_TEXT) && Ascii(TRUE_TEXT) && Ascii(FALSE_TEXT)
  {
  }

  lemma NumeralAscii(n: Numeral)
    requires Scannable(n)
    ensures Ascii(NumeralText(n))
  {
    NumeralPartsAscii(n);
    hide Ascii, SignText, FractionText, ExponentText;
    AsciiConcat(FractionText(n), ExponentText(n.ex));
    AsciiConcat(n.ip, FractionText(n) + ExponentText(n.ex));
    AsciiConcat(SignText(n.neg), n.ip + (FractionText(n) + ExponentText(n.ex)));
  }

  lemma NumeralPartsAscii(n: Numeral)
    requires Scannable(n)
    ensures Ascii(n.ip) && Ascii(SignText(n.neg)) && Ascii(FractionText(n)) && Ascii(ExponentText(n.ex))
  {
  }

  lemma BracketsAscii(open: byte, w: bytes, close: byte)
    requires AllWhitespace(w) && open <= 0x7F && close <= 0x7F
    ensures WellFormed([open] + (w + [close]))
  {
    hide WellFormed;
    WhitespaceAscii(w);
    AsciiWellFormed([open] + (w + [close]));
  }

  /** White space, a value, white space, and a tail that starts with ASCII. */
  lemma SpacedUtf8(w1: bytes, t: bytes, w2: bytes, tail: bytes)
    requires AllWhitespace(w1) && AllWhitespace(w2) && |tail| > 0 && tail[0] <= 0x7F
    ensures WellFormed(w1 + (t + (w2 + tail))) <==> WellFormed(t) && WellFormed(tail)
  {
    hide WellFormed;
    WhitespaceAscii(w1);
    WhitespaceAscii(w2);
    AsciiBefore(w1, t + (w2 + tail));
    WellFormedConcat(t, w2 + tail);
    AsciiBefore(w2, tail);
  }

  lemma StringTextUtf8(items: Items)
    requires ItemsOk(items, Relaxed)
    ensures WellFormed(StringText(items)) <==> WellFormed(ItemsMeaning(items))
  {
    hide WellFormed, ItemsText;
    AsciiBefore([QUOTE], ItemsText(items));
    StringUtf8(items);
  }

  lemma {:induction false} ValueUtf8(j: Json)
    requires JsonOk(j, Relaxed)
    ensures WellFormed(JsonText(j)) <==> AllUtf8(j)
    decreases j, 1
  {
    hide WellFormed, NumeralText, StringText, ItemsOk, ElementsText, MembersText;
    WordsAscii();
    match j
    case JNull => AsciiWellFormed(NULL_TEXT);
    case JBool(b) => AsciiWellFormed(if b then TRUE_TEXT else FALSE_TEXT);
    case JNumber(n) =>
      NumeralAscii(n);
      AsciiWellFormed(NumeralText(n));
    case JString(items) => StringTextUtf8(items);
    case JEmptyArray(w) => BracketsAscii(LBRACKET, w, RBRACKET);
    case JEmptyObject(w) => BracketsAscii(LBRACE, w, RBRACE);
    case JArray(es) =>
      AsciiBefore([LBRACKET], ElementsText(es));
      ElementsTextUtf8(es);
    case JObject(ms) =>
      AsciiBefore([LBRACE], MembersText(ms));
      MembersTextUtf8(ms);
  }

  lemma {:induction false} ElementsTextUtf8(es: Elements)
    requires ElementsOk(es, Relaxed)
    ensures WellFormed(ElementsText(es)) <==> ElementsUtf8(es)
    decreases es, 2
  {
    hide WellFormed, JsonText, JsonOk, AllUtf8, AllWhitespace;
    SpacedUtf8(es.w1, JsonText(es.value), es.w2, ElementsTail(es));
    ValueUtf8(es.value);
    match es
    case LastElement(_, _, _) => AsciiWellFormed([RBRACKET]);
    case MoreElements(_, _, _, rest) =>
      AsciiBefore([COMMA], ElementsText(rest));
      ElementsTextUtf8(rest);
  }

  lemma {:induction false} MembersTextUtf8(ms: Members)
    requires MembersOk(ms, Relaxed)
    ensures WellFormed(MembersText(ms)) <==> MembersUtf8(ms)
    decreases ms, 2
  {
    hide WellFormed, JsonText, JsonOk, AllUtf8, AllWhitespace, StringText, ItemsOk, ItemsMeaning;
    var value := ms.w3 + (JsonText(ms.value) + (ms.w4 + MembersTail(ms)));
    SpacedUtf8(ms.w1, StringText(ms.key), ms.w2, [COLON] + value);
    StringTextUtf8(ms.key);
    AsciiBefore([COLON], value);
    SpacedUtf8(ms.w3, JsonText(ms.value), ms.w4, MembersTail(ms));
    ValueUtf8(ms.value);
    match ms
    case LastMember(_, _, _, _, _, _) => AsciiWellFormed([RBRACE]);
    case MoreMembers(_, _, _, _, _, _, rest) =>
      AsciiBefore([COMMA], MembersText(rest));
      MembersTextUtf8(rest);
  }

  /** What is decoded was UTF-8, up to its first NUL, exactly if all strings and keys in it are. */
  lemma DecodedUtf8(text: bytes, max: nat)
    requires Decode(text, max).Decoded?
    ensures WellFormed(CString(text)) <==> AllUtf8(Decode(text, max).document.value)
  {
    hide WellFormed, JsonText, JsonOk, AllUtf8, NextToken, ParseValue;
    var d := Decode(text, max).document;
    DocumentSound(text, max);
    WhitespaceAscii(d.w1);
    WhitespaceAscii(d.w2);
    AsciiBefore(d.w1, JsonText(d.value) + d.w2);
    WellFormedConcat(JsonText(d.value), d.w2);
    AsciiWellFormed(d.w2);
    ValueUtf8(d.value);
  }

  // ----- the encoder -----

  /** All strings in `v` are UTF-8, and all string keys, down to `room` tables deep. */
  ghost predicate StringsUtf8(h: Heap, v: LuaValue, room: nat)
    decreases room, 0
  {
    match v
    case LString(s) => WellFormed(s)
    case LTable(id) =>
      room > 0 && id in h ==> forall k :: k in h[id] ==> EntryUtf8(h, k, h[id][k], room - 1)
    case _ => true
  }

  ghost predicate EntryUtf8(h: Heap, k: LuaValue, v: LuaValue, room: nat)
    decreases room, 1
  {
    (k.LString? ==> WellFormed(k.s)) && StringsUtf8(h, v, room)
  }

  lemma KeyUtf8(cfg: EncodeConfig, k: LuaValue)
    requires ConfigOk(cfg) && EncodeKey(cfg, k).Encoded?
    ensures WellFormed(ItemsMeaning(EncodeKey(cfg, k).tree)) <==> (k.LString? ==> WellFormed(k.s))
  {
    hide WellFormed, FormatG;
    match k
    case LNumber(d) =>
      PrintExactIsRfc(RoundTo(d, cfg.precision), cfg.precision);
      FormatGIs(d, cfg.precision);
      var text := NumeralText(FormatG(d, cfg.precision));
      RawItemsMeaning(text);
      NumeralAscii(FormatG(d, cfg.precision));
      AsciiWellFormed(text);
    case LString(s) => EscapeItemsMeaning(s);
  }

  ghost predicate EntriesUtf8(h: Heap, id: TableId, room: nat)
    requires id in h
  {
    forall k :: k in h[id] ==> EntryUtf8(h, k, h[id][k], room)
  }

  lemma StringsOfTable(h: Heap, id: TableId, room: nat)
    requires id in h && room > 0
    ensures StringsUtf8(h, LTable(id), room) <==> EntriesUtf8(h, id, room - 1)
  {
    hide EntryUtf8;
  }

  lemma {:induction false} EncodedUtf8(h: Heap, order: Order, cfg: EncodeConfig, depth: nat, v: LuaValue)
    requires HeapOk(h, order) && ConfigOk(cfg) && ValueOk(h, v) && depth <= cfg.maxDepth
    requires EncodeData(h, order, cfg, depth, v).Encoded?
    ensures AllUtf8(EncodeData(h, order, cfg, depth, v).tree) <==> StringsUtf8(h, v, cfg.maxDepth - depth)
    decreases cfg.maxDepth - depth, 0, 1
  {
    hide FormatG, WellFormed, HeapOk, LuaArrayLength, EntryUtf8, EncodeElements, EncodeMembers;
    match v
    case LString(s) => EscapeItemsMeaning(s);
    case LTable(id) =>
      hide EncodeData, AllUtf8, StringsUtf8;
      TableUtf8(h, order, cfg, depth, id);
    case _ =>
  }

  lemma {:induction false} TableUtf8(h: Heap, order: Order, cfg: EncodeConfig, depth: nat, id: TableId)
    requires HeapOk(h, order) && ConfigOk(cfg) && id in h && depth <= cfg.maxDepth
    requires EncodeData(h, order, cfg, depth, LTable(id)).Encoded?
    ensures AllUtf8(EncodeData(h, order, cfg, depth, LTable(id)).tree)
            <==> StringsUtf8(h, LTable(id), cfg.maxDepth - depth)
    decreases cfg.maxDepth - depth, 0, 0
  {
    hide HeapOk, LuaArrayLength, EncodeElements, EncodeMembers, ElementsUtf8, MembersUtf8, StringsUtf8, EntriesUtf8;
    ValuesAreOk(h, order, id);
    StringsOfTable(h, id, cfg.maxDepth - depth);
    var r := LuaArrayLength(cfg.sparse, order[id]);
    if r.n > 0 {
      ArrayUtf8(h, order, cfg, depth + 1, id, r.n);
    } else {
      ObjectUtf8(h, order, cfg, depth + 1, id);
    }
  }

  lemma {:induction false} ArrayUtf8(h: Heap, order: Order, cfg: EncodeConfig, depth: nat, id: TableId, n: nat)
    requires HeapOk(h, order) && ConfigOk(cfg) && id in h && depth <= cfg.maxDepth
    requires LuaArrayLength(cfg.sparse, order[id]) == Length(n) && n > 0
    requires EncodeElements(h, order, cfg, depth, id, 1, n).Encoded?
    ensures ElementsUtf8(EncodeElements(h, order, cfg, depth, id, 1, n).tree)
            <==> EntriesUtf8(h, id, cfg.maxDepth - depth)
    decreases cfg.maxDepth - depth, n + 2
  {
    hide HeapOk, LuaArrayLength, EncodeElements, ElementsUtf8, StringsUtf8, RawGet;
    var room := cfg.maxDepth - depth;
    EncodedElementsUtf8(h, order, cfg, depth, id, 1, n);
    if ElementsUtf8(EncodeElements(h, order, cfg, depth, id, 1, n).tree) {
      forall k | k in h[id]
        ensures EntryUtf8(h, k, h[id][k], room)
      {
        ArrayKey(h, order, cfg.sparse, id, k);
      }
    }
    if EntriesUtf8(h, id, room) {
      forall j | 1 <= j <= n
        ensures StringsUtf8(h, RawGet(h[id], j), room)
      {
        RawGetUtf8(h, id, j, room);
      }
    }
  }

  lemma RawGetUtf8(h: Heap, id: TableId, j: nat, room: nat)
    requires id in h && EntriesUtf8(h, id, room)
    ensures StringsUtf8(h, RawGet(h[id], j), room)
  {
    if LNumber(FromInt(j)) in h[id] {
      assert EntryUtf8(h, LNumber(FromInt(j)), h[id][LNumber(FromInt(j))], room);
    }
  }

  lemma {:induction false} EncodedElementsUtf8(h: Heap, order: Order, cfg: EncodeConfig, depth: nat,
                                               id: TableId, i: nat, n: nat)
    requires HeapOk(h, order) && ConfigOk(cfg) && id in h && depth <= cfg.maxDepth && 1 <= i <= n
    requires EncodeElements(h, order, cfg, depth, id, i, n).Encoded?
    ensures ElementsUtf8(EncodeElements(h, order, cfg, depth, id, i, n).tree) <==>
            forall j :: i <= j <= n ==> StringsUtf8(h, RawGet(h[id], j), cfg.maxDepth - depth)
    decreases cfg.maxDepth - depth, n - i + 1
  {
    hide StringsUtf8, EncodeData, AllUtf8;
    EncodedUtf8(h, order, cfg, depth, RawGet(h[id], i));
    if i < n {
      EncodedElementsUtf8(h, order, cfg, depth, id, i + 1, n);
    } else {
      assert n == i;
    }
  }

  lemma {:induction false} ObjectUtf8(h: Heap, order: Order, cfg: EncodeConfig, depth: nat, id: TableId)
    requires HeapOk(h, order) && ConfigOk(cfg) && id in h && depth <= cfg.maxDepth
    requires |order[id]| > 0 ==> EncodeMembers(h, order, cfg, depth, id, 0).Encoded?
    ensures |order[id]| > 0 ==>
              (MembersUtf8(EncodeMembers(h, order, cfg, depth, id, 0).tree)
               <==> EntriesUtf8(h, id, cfg.maxDepth - depth))
    ensures |order[id]| == 0 ==> EntriesUtf8(h, id, cfg.maxDepth - depth)
    decreases cfg.maxDepth - depth, |order[id]| + 2
  {
    hide HeapOk, EncodeMembers, MembersUtf8, EntryUtf8;
    ValuesAreOk(h, order, id);
    var keys := order[id];
    var room := cfg.maxDepth - depth;
    if |keys| > 0 {
      EncodedMembersUtf8(h, order, cfg, depth, id, 0);
      assert EntriesUtf8(h, id, room) ==> forall j :: 0 <= j < |keys| ==> EntryUtf8(h, keys[j], h[id][keys[j]], room);
      if forall j :: 0 <= j < |keys| ==> EntryUtf8(h, keys[j], h[id][keys[j]], room) {
        forall k | k in h[id]
          ensures EntryUtf8(h, k, h[id][k], room)
        {
          var j :| 0 <= j < |keys| && keys[j] == k;
        }
      }
    }
  }

  lemma {:induction false} EncodedMembersUtf8(h: Heap, order: Order, cfg: EncodeConfig, depth: nat,
                                              id: TableId, i: nat)
    requires HeapOk(h, order) && ConfigOk(cfg) && id in h && depth <= cfg.maxDepth && i < |order[id]|
    requires forall j :: 0 <= j < |order[id]| ==> order[id][j] in h[id]
    requires EncodeMembers(h, order, cfg, depth, id, i).Encoded?
    ensures MembersUtf8(EncodeMembers(h, order, cfg, depth, id, i).tree) <==>
            forall j :: i <= j < |order[id]| ==>
              EntryUtf8(h, order[id][j], h[id][order[id][j]], cfg.maxDepth - depth)
    decreases cfg.maxDepth - depth, |order[id]| - i
  {
    hide StringsUtf8, EncodeData, AllUtf8, EncodeKey, WellFormed, ItemsMeaning, ValueOk;
    ValuesAreOk(h, order, id);
    hide HeapOk;
    var k := order[id][i];
    KeyUtf8(cfg, k);
    EncodedUtf8(h, order, cfg, depth, h[id][k]);
    if i + 1 < |order[id]| {
      EncodedMembersUtf8(h, order, cfg, depth, id, i + 1);
    } else {
      assert |order[id]| == i + 1;
    }
  }

  /**
   * What the encoder writes is a JSON text of RFC 8259 exactly if all strings and keys it was given
   * are UTF-8. Bytes that are not are copied.
   */
  lemma EncodedIsRfcIffUtf8(h: Heap, order: Order, cfg: EncodeConfig, v: LuaValue)
    requires HeapOk(h, order) && ConfigOk(cfg) && ValueOk(h, v)
    requires EncodeText(h, order, cfg, v).Encoded?
    ensures RfcText(EncodeText(h, order, cfg, v).tree, cfg.maxDepth) <==> StringsUtf8(h, v, cfg.maxDepth)
  {
    hide WellFormed, JsonText, JsonOk, AllUtf8, EncodeData, Decode, StringsUtf8, RfcText;
    var j := EncodeData(h, order, cfg, 0, v).tree;
    EncodedIsDecoded(h, order, cfg, v, cfg.maxDepth);
    StrictIsRfc(Document([], j, []), cfg.maxDepth);
    JsonLoosened(j, Strict);
    ValueUtf8(j);
    EncodedUtf8(h, order, cfg, 0, v);
  }

  /** A string of one byte 0x80 is encoded, to a text that is not JSON. */
  lemma RawByteIsWritten(cfg: EncodeConfig)
    requires ConfigOk(cfg)
    ensures var e := EncodeText(map[], map[], cfg, LString([0x80]));
            e == Encoded([QUOTE, 0x80, QUOTE]) && !RfcText(e.tree, cfg.maxDepth)
  {
    hide RfcText, ItemsText;
    var s := [0x80];
    var items := [Raw(0x80)];
    assert EscapeItems(s) == items;
    OneItem(Raw(0x80));
    assert JsonText(JString(items)) == [QUOTE, 0x80, QUOTE];
    assert !WellFormed(s);
    EncodedIsRfcIffUtf8(map[], map[], cfg, LString(s));
  }

  lemma OneItem(c: StringItem)
    ensures ItemsText([c]) == ItemText(c) + [QUOTE]
  {
    assert [c][1..] == [];
  }
}
