/**
 * The encoder as a function from Lua values to syntax trees. What is appended to the buffer is the
 * text of the tree.
 */
module JsonEncoder {
  import opened Bytes
  import opened Decimals
  import opened JsonSyntax
  import opened LuaHeap
  import opened Utf8

  datatype EncodeConfig = EncodeConfig(sparse: SparseConfig, maxDepth: nat, precision: nat)

  datatype EncodeError = SparseArray | BadKey | BadType | NestedTooDeep(depth: nat)

  datatype Encoded<+T> = Encoded(tree: T) | EncodeFailed(error: EncodeError)

  ghost predicate ConfigOk(cfg: EncodeConfig) {
    1 <= cfg.precision <= 14
  }

  // ----- strings -----

  /** The table char2escape: the escape of a byte, empty where the table holds NULL. */
  function Char2Escape(b: byte): (t: bytes)
    ensures |t| <= 6 && NulFree(t)
  {
    if b == 8 then [BACKSLASH, 98]
    else if b == 9 then [BACKSLASH, 116]
    else if b == 10 then [BACKSLASH, 110]
    else if b == 12 then [BACKSLASH, 102]
    else if b == 13 then [BACKSLASH, 114]
    else if b < 32 || b == 127 then [BACKSLASH, LETTER_U, 48, 48, HexDigit(b / 16), HexDigit(b % 16)]
    else if b == QUOTE || b == BACKSLASH || b == 47 then [BACKSLASH, b]
    else []
  }

  /** How a byte of a string is written. */
  function EscapeItem(b: byte): StringItem {
    var t := Char2Escape(b);
    if |t| == 0 then Raw(b) else if |t| == 2 then Short(t[1]) else Unit(t[2..])
  }

  function EscapeItems(s: bytes): (cs: Items)
    ensures |cs| == |s|
  {
    seq(|s|, i requires 0 <= i < |s| => EscapeItem(s[i]))
  }

  function RawItems(s: bytes): (cs: Items)
    ensures |cs| == |s|
  {
    seq(|s|, i requires 0 <= i < |s| => Raw(s[i]))
  }

  lemma EscapeItemGood(b: byte)
    ensures ItemOk(EscapeItem(b), Strict)
    ensures ItemMeaning(EscapeItem(b)) == [b]
    ensures ItemText(EscapeItem(b)) == if |Char2Escape(b)| == 0 then [b] else Char2Escape(b)
  {
    if |Char2Escape(b)| == 6 {
      UnitEscape(b);
    }
  }

  lemma UnitEscape(b: byte)
    requires |Char2Escape(b)| == 6
    ensures var h := Char2Escape(b)[2..];
            DecodeHex4(h, 0) == b && b < 128 && Char2Escape(b) == [BACKSLASH, LETTER_U] + h
  {
    var h := Char2Escape(b)[2..];
    assert h == [48, 48, HexDigit(b / 16), HexDigit(b % 16)];
  }

  /** Escaping loses nothing: the items written for a string mean that string. */
  lemma {:induction false} EscapeItemsMeaning(s: bytes)
    ensures ItemsMeaning(EscapeItems(s)) == s
    ensures ItemsOk(EscapeItems(s), Strict)
  {
    forall k | 0 <= k < |s|
      ensures ItemOk(EscapeItems(s)[k], Strict)
    {
      EscapeItemGood(s[k]);
    }
    if |s| == 0 {
    } else {
      EscapeItemGood(s[0]);
      assert EscapeItems(s)[1..] == EscapeItems(s[1..]);
      EscapeItemsMeaning(s[1..]);
    }
  }

  lemma {:induction false} RawItemsMeaning(s: bytes)
    ensures ItemsMeaning(RawItems(s)) == s
    ensures ItemsText(RawItems(s)) == s + [QUOTE]
  {
    if |s| == 0 {
    } else {
      assert RawItems(s)[1..] == RawItems(s[1..]);
      RawItemsMeaning(s[1..]);
    }
  }

  /** A string is written with at most six bytes a byte, and two quotes. */
  lemma {:induction false} EscapedLength(s: bytes)
    ensures |StringText(EscapeItems(s))| <= 6 * |s| + 2
  {
    if |s| == 0 {
    } else {
      EscapeItemGood(s[0]);
      assert EscapeItems(s)[1..] == EscapeItems(s[1..]);
      EscapedLength(s[1..]);
    }
  }

  // ----- values -----

  /** json_append_data: `v` is nested inside `depth` tables. */
  function EncodeData(h: Heap, order: Order, cfg: EncodeConfig, depth: nat, v: LuaValue): Encoded<Json>
    requires HeapOk(h, order) && ConfigOk(cfg) && ValueOk(h, v) && depth <= cfg.maxDepth
    decreases cfg.maxDepth - depth, 0
  {
    match v
    case LString(s) => Encoded(JString(EscapeItems(s)))
    case LNumber(d) => Encoded(JNumber(FormatG(d, cfg.precision)))
    case LBoolean(b) => Encoded(JBool(b))
    case LNil => Encoded(JNull)
    case LNull => Encoded(JNull)
    case LTable(id) =>
      if depth + 1 > cfg.maxDepth then EncodeFailed(NestedTooDeep(depth + 1))
      else (
        match LuaArrayLength(cfg.sparse, order[id])
        case ExcessivelySparse => EncodeFailed(SparseArray)
        case Length(n) =>
          if n > 0 then
            match EncodeElements(h, order, cfg, depth + 1, id, 1, n)
            case EncodeFailed(e) => EncodeFailed(e)
            case Encoded(es) => Encoded(JArray(es))
          else if |order[id]| == 0 then Encoded(JEmptyObject([]))
          else
            match EncodeMembers(h, order, cfg, depth + 1, id, 0)
            case EncodeFailed(e) => EncodeFailed(e)
            case Encoded(ms) => Encoded(JObject(ms)))
    case _ => EncodeFailed(BadType)
  }

  /** The loop of json_append_array, from element `i` to element `n`. */
  function EncodeElements(h: Heap, order: Order, cfg: EncodeConfig, depth: nat, id: TableId, i: nat, n: nat)
    : Encoded<Elements>
    requires HeapOk(h, order) && ConfigOk(cfg) && id in h && depth <= cfg.maxDepth && 1 <= i <= n
    decreases cfg.maxDepth - depth, n - i + 1
  {
    match EncodeData(h, order, cfg, depth, RawGet(h[id], i))
    case EncodeFailed(e) => EncodeFailed(e)
    case Encoded(v) =>
      if i == n then Encoded(LastElement([], v, []))
      else match EncodeElements(h, order, cfg, depth, id, i + 1, n)
        case EncodeFailed(e) => EncodeFailed(e)
        case Encoded(rest) => Encoded(MoreElements([], v, [], rest))
  }

  /** How the key of an object is written, if it can be. */
  function EncodeKey(cfg: EncodeConfig, k: LuaValue): Encoded<Items>
    requires ConfigOk(cfg)
  {
    match k
    case LNumber(d) => Encoded(RawItems(NumeralText(FormatG(d, cfg.precision))))
    case LString(s) => Encoded(EscapeItems(s))
    case _ => EncodeFailed(BadKey)
  }

  /** The loop of json_append_object, from the key at position `i` of the traversal on. */
  function EncodeMembers(h: Heap, order: Order, cfg: EncodeConfig, depth: nat, id: TableId, i: nat): Encoded<Members>
    requires HeapOk(h, order) && ConfigOk(cfg) && id in h && depth <= cfg.maxDepth && i < |order[id]|
    decreases cfg.maxDepth - depth, |order[id]| - i
  {
    var k := order[id][i];
    match EncodeKey(cfg, k)
    case EncodeFailed(e) => EncodeFailed(e)
    case Encoded(key) =>
      assert k in h[id];
      match EncodeData(h, order, cfg, depth, h[id][k])
      case EncodeFailed(e) => EncodeFailed(e)
      case Encoded(v) =>
        if i + 1 == |order[id]| then Encoded(LastMember([], key, [], [], v, []))
        else match EncodeMembers(h, order, cfg, depth, id, i + 1)
          case EncodeFailed(e) => EncodeFailed(e)
          case Encoded(rest) => Encoded(MoreMembers([], key, [], [], v, [], rest))
  }

  // ----- what is written is in the strict grammar -----

  lemma KeyGood(cfg: EncodeConfig, k: LuaValue)
    requires ConfigOk(cfg) && EncodeKey(cfg, k).Encoded?
    ensures ItemsOk(EncodeKey(cfg, k).tree, Strict)
  {
    match k
    case LNumber(d) => NumberKeyGood(d, cfg.precision);
    case LString(s) => EscapeItemsMeaning(s);
  }

  lemma NumberKeyGood(d: Decimal, p: nat)
    requires 1 <= p
    ensures ItemsOk(RawItems(NumeralText(FormatG(d, p))), Strict)
  {
    PrintExactIsRfc(RoundTo(d, p), p);
    NumeralPrintable(FormatG(d, p));
  }

  ghost predicate Printable(t: bytes) {
    forall k :: 0 <= k < |t| ==> 32 <= t[k] && t[k] != QUOTE && t[k] != BACKSLASH
  }

  lemma NumeralPrintable(n: Numeral)
    requires Scannable(n)
    ensures Printable(NumeralText(n))
  {
    PartsPrintable(n);
    hide Printable, SignText, FractionText, ExponentText;
    PrintableConcat(FractionText(n), ExponentText(n.ex));
    PrintableConcat(n.ip, FractionText(n) + ExponentText(n.ex));
    PrintableConcat(SignText(n.neg), n.ip + (FractionText(n) + ExponentText(n.ex)));
  }

  lemma PartsPrintable(n: Numeral)
    requires Scannable(n)
    ensures Printable(n.ip) && Printable(SignText(n.neg)) && Printable(FractionText(n))
    ensures Printable(ExponentText(n.ex))
  {
  }

  lemma PrintableConcat(a: bytes, b: bytes)
    requires Printable(a) && Printable(b)
    ensures Printable(a + b)
  {
  }

  /** Whatever is encoded is a tree of the strict grammar, nested no deeper than allowed. */
  lemma {:induction false} EncodedIsStrict(h: Heap, order: Order, cfg: EncodeConfig, depth: nat, v: LuaValue)
    requires HeapOk(h, order) && ConfigOk(cfg) && ValueOk(h, v) && depth <= cfg.maxDepth
    requires EncodeData(h, order, cfg, depth, v).Encoded?
    ensures var j := EncodeData(h, order, cfg, depth, v).tree;
            JsonOk(j, Strict) && depth + Depth(j) <= cfg.maxDepth
    decreases cfg.maxDepth - depth, 0
  {
    hide FormatG;
    match v
    case LNumber(d) => PrintExactIsRfc(RoundTo(d, cfg.precision), cfg.precision); FormatGIs(d, cfg.precision);
    case LString(s) => EscapeItemsMeaning(s);
    case LTable(id) =>
      var n := LuaArrayLength(cfg.sparse, order[id]).n;
      if n > 0 {
        ElementsAreStrict(h, order, cfg, depth + 1, id, 1, n);
      } else if |order[id]| > 0 {
        MembersAreStrict(h, order, cfg, depth + 1, id, 0);
      }
    case _ =>
  }

  lemma FormatGIs(d: Decimal, p: nat)
    requires p >= 1
    ensures FormatG(d, p) == PrintExact(RoundTo(d, p), p)
  {
  }

  lemma {:induction false} ElementsAreStrict(h: Heap, order: Order, cfg: EncodeConfig, depth: nat,
                                          id: TableId, i: nat, n: nat)
    requires HeapOk(h, order) && ConfigOk(cfg) && id in h && depth <= cfg.maxDepth && 1 <= i <= n
    requires EncodeElements(h, order, cfg, depth, id, i, n).Encoded?
    ensures var es := EncodeElements(h, order, cfg, depth, id, i, n).tree;
            ElementsOk(es, Strict) && depth + ElementsDepth(es) <= cfg.maxDepth
    decreases cfg.maxDepth - depth, n - i + 1
  {
    EncodedIsStrict(h, order, cfg, depth, RawGet(h[id], i));
    if i == n {
    } else {
      ElementsAreStrict(h, order, cfg, depth, id, i + 1, n);
    }
  }

  lemma {:induction false} MembersAreStrict(h: Heap, order: Order, cfg: EncodeConfig, depth: nat,
                                         id: TableId, i: nat)
    requires HeapOk(h, order) && ConfigOk(cfg) && id in h && depth <= cfg.maxDepth && i < |order[id]|
    requires EncodeMembers(h, order, cfg, depth, id, i).Encoded?
    ensures var ms := EncodeMembers(h, order, cfg, depth, id, i).tree;
            MembersOk(ms, Strict) && depth + MembersDepth(ms) <= cfg.maxDepth
    decreases cfg.maxDepth - depth, |order[id]| - i
  {
    var k := order[id][i];
    assert k in h[id];
    KeyGood(cfg, k);
    EncodedIsStrict(h, order, cfg, depth, h[id][k]);
    if i + 1 == |order[id]| {
    } else {
      MembersAreStrict(h, order, cfg, depth, id, i + 1);
    }
  }
}
