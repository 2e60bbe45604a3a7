/** The encoder as it runs, appending to a growing buffer. */
module JsonSerializer {
  import opened Bytes
  import opened Decimals
  import opened Fpconv
  import opened JsonEncoder
  import opened JsonRoundTrip
  import opened JsonSyntax
  import opened LuaHeap
  import opened StrBufs

  datatype Status = Done | Raised(error: EncodeError)

  datatype EncodeResult = Text(text: bytes) | EncodeRaised(error: EncodeError)

  // ----- what a loop still has to write -----

  /** With `done` written and `rest` still to be written, the whole is `start` and the text of `full`. */
  ghost predicate ElementsPending(start: bytes, full: Encoded<Elements>, done: bytes, rest: Encoded<Elements>) {
    match rest
    case EncodeFailed(_) => full == rest
    case Encoded(es) => full.Encoded? && start + ElementsText(full.tree) == done + ElementsText(es)
  }

  ghost predicate MembersPending(start: bytes, full: Encoded<Members>, done: bytes, rest: Encoded<Members>) {
    match rest
    case EncodeFailed(_) => full == rest
    case Encoded(ms) => full.Encoded? && start + MembersText(full.tree) == done + MembersText(ms)
  }

  lemma ElementsTurn(h: Heap, order: Order, cfg: EncodeConfig, depth: nat, id: TableId, i: nat, n: nat,
                     start: bytes, full: Encoded<Elements>, done: bytes)
    requires HeapOk(h, order) && ConfigOk(cfg) && id in h && depth <= cfg.maxDepth && 1 <= i <= n
    requires ElementsPending(start, full, done, EncodeElements(h, order, cfg, depth, id, i, n))
    ensures match EncodeData(h, order, cfg, depth, RawGet(h[id], i))
            case EncodeFailed(e) => full == EncodeFailed(e)
            case Encoded(v) =>
              if i == n then full.Encoded? && start + ElementsText(full.tree) == done + JsonText(v) + [RBRACKET]
              else ElementsPending(start, full, done + JsonText(v) + [COMMA],
                                   EncodeElements(h, order, cfg, depth, id, i + 1, n))
  {
    hide HeapOk, JsonText, EncodeData;
    var e := EncodeElements(h, order, cfg, depth, id, i, n);
    if e.Encoded? {
      var v := e.tree.value;
      var tail := ElementsTail(e.tree);
      assert ElementsText(e.tree) == JsonText(v) + tail;
      assert done + (JsonText(v) + tail) == done + JsonText(v) + tail;
      if i < n {
        var rest := ElementsText(e.tree.rest);
        assert done + JsonText(v) + ([COMMA] + rest) == done + JsonText(v) + [COMMA] + rest;
      }
    }
  }

  lemma MembersTurn(h: Heap, order: Order, cfg: EncodeConfig, depth: nat, id: TableId, i: nat,
                    start: bytes, full: Encoded<Members>, done: bytes)
    requires HeapOk(h, order) && ConfigOk(cfg) && id in h && depth <= cfg.maxDepth && i < |order[id]|
    requires MembersPending(start, full, done, EncodeMembers(h, order, cfg, depth, id, i))
    ensures order[id][i] in h[id]
    ensures match EncodeKey(cfg, order[id][i])
            case EncodeFailed(e) => full == EncodeFailed(e)
            case Encoded(key) =>
              match EncodeData(h, order, cfg, depth, h[id][order[id][i]])
              case EncodeFailed(e) => full == EncodeFailed(e)
              case Encoded(v) =>
                var written := done + (StringText(key) + [COLON]) + JsonText(v);
                if i + 1 == |order[id]|
                then full.Encoded? && start + MembersText(full.tree) == written + [RBRACE]
                else MembersPending(start, full, written + [COMMA], EncodeMembers(h, order, cfg, depth, id, i + 1))
  {
    hide JsonText, StringText, EncodeData, EncodeKey, TableOk, ValueOk;
    assert order[id][i] in order[id];
    var e := EncodeMembers(h, order, cfg, depth, id, i);
    if e.Encoded? {
      var key, v, tail := StringText(e.tree.key), JsonText(e.tree.value), MembersTail(e.tree);
      MemberTextIs(e.tree);
      assert done + (key + [COLON] + v + tail) == done + (key + [COLON]) + v + tail;
      if i + 1 < |order[id]| {
        var rest := MembersText(e.tree.rest);
        assert done + (key + [COLON]) + v + ([COMMA] + rest) == done + (key + [COLON]) + v + [COMMA] + rest;
      }
    }
  }

  lemma MemberTextIs(ms: Members)
    requires ms.w1 == [] && ms.w2 == [] && ms.w3 == [] && ms.w4 == []
    ensures MembersText(ms) == StringText(ms.key) + [COLON] + JsonText(ms.value) + MembersTail(ms)
  {
    hide JsonText, StringText;
  }

  /** How the text of a string continues after its first byte. */
  lemma EscapeStep(s: bytes, i: nat)
    requires i < |s|
    ensures ItemsText(EscapeItems(s[i..])) ==
            (if |Char2Escape(s[i])| == 0 then [s[i]] else Char2Escape(s[i])) + ItemsText(EscapeItems(s[i + 1..]))
  {
    hide Char2Escape, EscapeItem, ItemText;
    EscapeItemGood(s[i]);
    assert EscapeItems(s[i..])[1..] == EscapeItems(s[i + 1..]);
  }

  class Encoder {
    const heap: Heap
    const order: Order
    const cfg: EncodeConfig
    const point: byte
    const buf: StrBuf

    ghost predicate Valid()
      reads buf
    {
      HeapOk(heap, order) && ConfigOk(cfg) && LocalePoint(point) && buf.Exponential()
    }

    constructor (heap: Heap, order: Order, cfg: EncodeConfig, point: byte, buf: StrBuf)
      requires HeapOk(heap, order) && ConfigOk(cfg) && LocalePoint(point) && buf.Exponential()
      ensures Valid()
      ensures this.heap == heap && this.order == order && this.cfg == cfg && this.point == point && this.buf == buf
    {
      this.heap, this.order, this.cfg, this.point, this.buf := heap, order, cfg, point, buf;
    }

    /** The body of the loop of json_append_string: one byte, escaped if the table says so. */
    method AppendEscaped(b: byte)
      requires buf.Valid() && buf.length + 6 < buf.size
      modifies buf, buf.buf
      ensures buf.Valid() && buf.buf == old(buf.buf) && buf.size == old(buf.size)
      ensures buf.reallocs == old(buf.reallocs) && buf.increment == old(buf.increment)
      ensures buf.Contents() == old(buf.Contents()) + (if |Char2Escape(b)| == 0 then [b] else Char2Escape(b))
    {
      hide Char2Escape, AppendEach;
      var escstr := Char2Escape(b);
      if |escstr| != 0 {
        buf.AppendString(escstr);
      } else {
        buf.AppendCharUnsafe(b);
      }
    }

    /**
     * json_append_string. One reservation of six bytes a byte and two quotes is enough: nothing is
     * reallocated afterwards.
     */
    method AppendStringValue(str: bytes)
      requires Valid()
      modifies buf, buf.buf
      ensures Valid() && (buf.buf == old(buf.buf) || fresh(buf.buf))
      ensures buf.Contents() == old(buf.Contents()) + StringText(EscapeItems(str))
      ensures buf.increment == old(buf.increment)
      ensures buf.size == Reserve(old(buf.Measure()), buf.increment, 6 * |str| + 2).size
      ensures buf.reallocs == Reserve(old(buf.Measure()), buf.increment, 6 * |str| + 2).reallocs
    {
      hide HeapOk, Char2Escape, EscapeItems, ItemsText, ConfigOk, LocalePoint, Reserve, Append, AppendEach, NulFree;
      ghost var start := buf.Contents();
      buf.EnsureEmptyLength(|str| * 6 + 2);
      buf.AppendCharUnsafe(QUOTE);
      AppendAllEscaped(str);
      buf.AppendCharUnsafe(QUOTE);
      assert start + [QUOTE] + ItemsText(EscapeItems(str)) == start + ([QUOTE] + ItemsText(EscapeItems(str)));
    }

    /** The loop of json_append_string, with room for six bytes a byte. */
    method AppendAllEscaped(str: bytes)
      requires buf.Valid() && buf.length + 6 * |str| + 1 < buf.size
      modifies buf, buf.buf
      ensures buf.Valid() && buf.buf == old(buf.buf) && buf.size == old(buf.size)
      ensures buf.reallocs == old(buf.reallocs) && buf.increment == old(buf.increment)
      ensures buf.length + 1 < buf.size
      ensures buf.Contents() + [QUOTE] == old(buf.Contents()) + ItemsText(EscapeItems(str))
    {
      hide Char2Escape, EscapeItems, ItemsText;
      assert str[0..] == str;
      var i := 0;
      while i < |str|
        invariant 0 <= i <= |str|
        invariant buf.Valid() && buf.buf == old(buf.buf) && buf.size == old(buf.size)
        invariant buf.reallocs == old(buf.reallocs) && buf.increment == old(buf.increment)
        invariant buf.length + 6 * (|str| - i) + 1 < buf.size
        invariant buf.Contents() + ItemsText(EscapeItems(str[i..])) == old(buf.Contents()) + ItemsText(EscapeItems(str))
      {
        EscapeStep(str, i);
        AppendEscaped(str[i]);
        i := i + 1;
      }
      NoItems(str[i..]);
    }

    lemma NoItems(s: bytes)
      requires |s| == 0
      ensures ItemsText(EscapeItems(s)) == [QUOTE]
    {
    }

    /** json_append_number, for a finite number. */
    method AppendNumber(d: Decimal)
      requires Valid() && DoubleRange(d)
      modifies buf, buf.buf
      ensures Valid() && (buf.buf == old(buf.buf) || fresh(buf.buf))
      ensures buf.Contents() == old(buf.Contents()) + NumeralText(FormatG(d, cfg.precision))
      ensures buf.increment == old(buf.increment)
    {
      hide HeapOk, NumeralText, FormatG;
      ghost var start := buf.Contents();
      buf.EnsureEmptyLength(BUFSIZE);
      ghost var text := NumeralText(FormatG(d, cfg.precision));
      ghost var at := buf.length;
      var len := FpconvGFmt(buf.buf, buf.length, d, cfg.precision, point);
      assert buf.buf[..at] == start;
      assert buf.buf[at..at + len] == text;
      buf.ExtendLength(len);
    }

    /** json_check_encode_depth. */
    method CheckEncodeDepth(currentDepth: nat) returns (ok: bool)
      ensures ok == (currentDepth <= cfg.maxDepth)
    {
      ok := currentDepth <= cfg.maxDepth;
    }

    /** lua_array_length: a loop over the keys, given up at the first that is no index. */
    method ArrayLengthOf(id: TableId) returns (r: ArrayLength)
      requires Valid() && id in heap
      ensures r == LuaArrayLength(cfg.sparse, order[id])
    {
      hide HeapOk, ConfigOk, LocalePoint;
      OrderKnows(id);
      var keys := order[id];
      var max: nat, items: nat := 0, 0;
      var i := 0;
      while i < |keys|
        invariant 0 <= i <= |keys|
        invariant ScanKeys(keys[..i]) == KeyScan(max, items)
      {
        assert keys[..i + 1][..i] == keys[..i];
        var k := keys[i];
        if !IsIndex(k) {
          GivenUp(keys, i);
          return Length(-1);
        }
        if ToInt(k.d) > max {
          max := ToInt(k.d);
        }
        items := items + 1;
        i := i + 1;
      }
      assert keys[..i] == keys;
      if cfg.sparse.ratio > 0 && max > items * cfg.sparse.ratio && max > cfg.sparse.safe {
        if !cfg.sparse.convert {
          return ExcessivelySparse;
        }
        return Length(-1);
      }
      return Length(max);
    }

    lemma GivenUp(keys: seq<LuaValue>, i: nat)
      requires i < |keys| && !IsIndex(keys[i])
      ensures ScanKeys(keys) == NotArray
    {
      ScanKeysMeaning(keys);
    }

    lemma OrderKnows(id: TableId)
      requires HeapOk(heap, order) && id in heap
      ensures id in order
      ensures forall k :: k in heap[id] ==> ValueOk(heap, k) && ValueOk(heap, heap[id][k])
    {
    }

    /** json_append_data. */
    method AppendData(currentDepth: nat, v: LuaValue) returns (status: Status)
      requires Valid() && ValueOk(heap, v) && currentDepth <= cfg.maxDepth
      modifies buf, buf.buf
      ensures Valid() && (buf.buf == old(buf.buf) || fresh(buf.buf))
      ensures buf.increment == old(buf.increment)
      ensures match EncodeData(heap, order, cfg, currentDepth, v)
              case EncodeFailed(e) => status == Raised(e)
              case Encoded(j) => status == Done && buf.Contents() == old(buf.Contents()) + JsonText(j)
      decreases cfg.maxDepth - currentDepth, 0, 1
    {
      hide HeapOk, ConfigOk, LocalePoint, NumeralText, StringText, EscapeItems, LuaArrayLength, EncodeElements,
           EncodeMembers, ElementsText, MembersText, Append;
      status := Done;
      match v {
        case LString(s) => AppendStringValue(s);
        case LNumber(d) => AppendNumber(d);
        case LBoolean(b) =>
          if b {
            buf.AppendMem(TRUE_TEXT);
          } else {
            buf.AppendMem(FALSE_TEXT);
          }
        case LTable(id) => status := AppendTable(currentDepth, id);
        case LNil => buf.AppendMem(NULL_TEXT);
        case LNull => buf.AppendMem(NULL_TEXT);
        case _ => status := Raised(BadType);
      }
    }

    /** The table case of json_append_data. */
    method AppendTable(depth: nat, id: TableId) returns (status: Status)
      requires Valid() && id in heap && depth <= cfg.maxDepth
      modifies buf, buf.buf
      ensures Valid() && (buf.buf == old(buf.buf) || fresh(buf.buf))
      ensures buf.increment == old(buf.increment)
      ensures match EncodeData(heap, order, cfg, depth, LTable(id))
              case EncodeFailed(e) => status == Raised(e)
              case Encoded(j) => status == Done && buf.Contents() == old(buf.Contents()) + JsonText(j)
      decreases cfg.maxDepth - depth, 0, 0
    {
      hide HeapOk, ConfigOk, LocalePoint, LuaArrayLength, EncodeElements, EncodeMembers, ElementsText, MembersText;
      OrderKnows(id);
      var currentDepth := depth + 1;
      var ok := CheckEncodeDepth(currentDepth);
      if !ok {
        return Raised(NestedTooDeep(currentDepth));
      }
      var len := ArrayLengthOf(id);
      if len.ExcessivelySparse? {
        return Raised(SparseArray);
      }
      if len.n > 0 {
        status := AppendArray(currentDepth, id, len.n);
      } else {
        status := AppendObject(currentDepth, id);
      }
    }

    /** json_append_array. */
    method AppendArray(currentDepth: nat, id: TableId, arrayLength: nat) returns (status: Status)
      requires Valid() && id in heap && currentDepth <= cfg.maxDepth && arrayLength >= 1
      modifies buf, buf.buf
      ensures Valid() && (buf.buf == old(buf.buf) || fresh(buf.buf))
      ensures buf.increment == old(buf.increment)
      ensures match EncodeElements(heap, order, cfg, currentDepth, id, 1, arrayLength)
              case EncodeFailed(e) => status == Raised(e)
              case Encoded(es) =>
                status == Done && buf.Contents() == old(buf.Contents()) + ([LBRACKET] + ElementsText(es))
      decreases cfg.maxDepth - currentDepth, 1
    {
      hide HeapOk, ConfigOk, LocalePoint, EncodeElements, ElementsText, Append, ElementsPending, JsonText, EncodeData;
      OrderKnows(id);
      buf.AppendChar(LBRACKET);
      ghost var start := buf.Contents();
      ghost var full := EncodeElements(heap, order, cfg, currentDepth, id, 1, arrayLength);
      ElementsStart(start, full);
      var comma := false;
      var i := 1;
      while i <= arrayLength
        invariant 1 <= i <= arrayLength + 1 && comma == (i > 1)
        invariant Valid() && (buf.buf == old(buf.buf) || fresh(buf.buf)) && buf.increment == old(buf.increment)
        invariant i <= arrayLength ==>
          ElementsPending(start, full, buf.Contents() + (if comma then [COMMA] else []),
                          EncodeElements(heap, order, cfg, currentDepth, id, i, arrayLength))
        invariant i > arrayLength ==>
          full.Encoded? && start + ElementsText(full.tree) == buf.Contents() + [RBRACKET]
      {
        if comma {
          buf.AppendChar(COMMA);
        } else {
          comma := true;
          assert buf.Contents() + [] == buf.Contents();
        }
        ElementsTurn(heap, order, cfg, currentDepth, id, i, arrayLength, start, full, buf.Contents());
        RawGetOk(id, i);
        status := AppendData(currentDepth, RawGet(heap[id], i));
        if status.Raised? {
          return;
        }
        i := i + 1;
      }
      buf.AppendChar(RBRACKET);
      return Done;
    }

    lemma RawGetOk(id: TableId, i: nat)
      requires HeapOk(heap, order) && id in heap
      ensures ValueOk(heap, RawGet(heap[id], i))
    {
    }

    lemma ElementsStart(start: bytes, full: Encoded<Elements>)
      ensures ElementsPending(start, full, start + [], full)
    {
      assert start + [] == start;
    }

    lemma MembersStart(start: bytes, full: Encoded<Members>)
      ensures MembersPending(start, full, start + [], full)
    {
      assert start + [] == start;
    }

    lemma NumberKeyText(start: bytes, text: bytes)
      ensures start + [QUOTE] + text + [QUOTE, COLON] == start + (([QUOTE] + (text + [QUOTE])) + [COLON])
    {
      assert [QUOTE, COLON] == [QUOTE] + [COLON];
    }

    /** Writes a key and the colon behind it. */
    method AppendKey(k: LuaValue) returns (status: Status)
      requires Valid() && ValueOk(heap, k)
      modifies buf, buf.buf
      ensures Valid() && (buf.buf == old(buf.buf) || fresh(buf.buf))
      ensures buf.increment == old(buf.increment)
      ensures match EncodeKey(cfg, k)
              case EncodeFailed(e) => status == Raised(e)
              case Encoded(key) =>
                status == Done && buf.Contents() == old(buf.Contents()) + (StringText(key) + [COLON])
    {
      hide HeapOk, LocalePoint, Append, RawItems, EscapeItems, NumeralText, FormatG, ItemsText;
      status := Done;
      ghost var start := buf.Contents();
      if k.LNumber? {
        ghost var text := NumeralText(FormatG(k.d, cfg.precision));
        RawItemsMeaning(text);
        buf.AppendChar(QUOTE);
        AppendNumber(k.d);
        buf.AppendMem([QUOTE, COLON]);
        NumberKeyText(start, text);
      } else if k.LString? {
        ghost var text := StringText(EscapeItems(k.s));
        AppendStringValue(k.s);
        buf.AppendChar(COLON);
        assert start + text + [COLON] == start + (text + [COLON]);
      } else {
        status := Raised(BadKey);
      }
    }

    /** json_append_object. */
    method AppendObject(currentDepth: nat, id: TableId) returns (status: Status)
      requires Valid() && id in heap && currentDepth <= cfg.maxDepth
      modifies buf, buf.buf
      ensures Valid() && (buf.buf == old(buf.buf) || fresh(buf.buf))
      ensures buf.increment == old(buf.increment)
      ensures id in order
      ensures |order[id]| == 0 ==>
                status == Done && buf.Contents() == old(buf.Contents()) + ([LBRACE] + ([] + [RBRACE]))
      ensures |order[id]| > 0 ==>
                match EncodeMembers(heap, order, cfg, currentDepth, id, 0)
                case EncodeFailed(e) => status == Raised(e)
                case Encoded(ms) =>
                  status == Done && buf.Contents() == old(buf.Contents()) + ([LBRACE] + MembersText(ms))
      decreases cfg.maxDepth - currentDepth, 1
    {
      hide HeapOk, ConfigOk, LocalePoint, EncodeMembers, MembersText, Append, MembersPending, JsonText, EncodeData,
           EncodeKey, StringText;
      OrderKnows(id);
      buf.AppendChar(LBRACE);
      var keys := order[id];
      if |keys| == 0 {
        buf.AppendChar(RBRACE);
        return Done;
      }
      ghost var start := buf.Contents();
      ghost var full := EncodeMembers(heap, order, cfg, currentDepth, id, 0);
      MembersStart(start, full);
      var comma := false;
      var i := 0;
      while i < |keys|
        invariant 0 <= i <= |keys| && comma == (i > 0)
        invariant Valid() && (buf.buf == old(buf.buf) || fresh(buf.buf)) && buf.increment == old(buf.increment)
        invariant i < |keys| ==>
          MembersPending(start, full, buf.Contents() + (if comma then [COMMA] else []),
                         EncodeMembers(heap, order, cfg, currentDepth, id, i))
        invariant i == |keys| ==>
          full.Encoded? && start + MembersText(full.tree) == buf.Contents() + [RBRACE]
      {
        if comma {
          buf.AppendChar(COMMA);
        } else {
          comma := true;
          assert buf.Contents() + [] == buf.Contents();
        }
        MembersTurn(heap, order, cfg, currentDepth, id, i, start, full, buf.Contents());
        status := AppendKey(keys[i]);
        if status.Raised? {
          return;
        }
        status := AppendData(currentDepth, heap[id][keys[i]]);
        if status.Raised? {
          return;
        }
        i := i + 1;
      }
      buf.AppendChar(RBRACE);
      return Done;
    }
  }

  /**
   * json_encode: with `keepBuffer` the buffer of the instance is used again, otherwise a new one.
   * What was in the buffer before does not matter.
   */
  method Encode(heap: Heap, order: Order, cfg: EncodeConfig, point: byte, keepBuffer: bool, encodeBuf: StrBuf,
                v: LuaValue) returns (res: EncodeResult)
    requires HeapOk(heap, order) && ConfigOk(cfg) && LocalePoint(point) && encodeBuf.Exponential() && ValueOk(heap, v)
    modifies encodeBuf, encodeBuf.buf
    ensures encodeBuf.Exponential()
    ensures match EncodeText(heap, order, cfg, v)
            case EncodeFailed(e) => res == EncodeRaised(e)
            case Encoded(text) => res == Text(text)
  {
    hide HeapOk, ConfigOk, LocalePoint, EncodeData, JsonText, ValueOk;
    var buffer := encodeBuf;
    if keepBuffer {
      buffer.Reset();
    } else {
      buffer := new StrBuf(0);
    }
    var encoder := new Encoder(heap, order, cfg, point, buffer);
    var status := encoder.AppendData(0, v);
    if status.Raised? {
      return EncodeRaised(status.error);
    }
    var text := buffer.ToBytes();
    return Text(text);
  }
}
