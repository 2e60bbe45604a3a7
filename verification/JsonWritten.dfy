/**
 * What the encoder writes for any value it accepts, told entry by entry: arrays with holes, keys that
 * are numbers and numbers that are rounded included.
 */
module JsonWritten {
  import opened Bytes
  import opened Decimals
  import opened JsonEncoder
  import opened JsonGrammar
  import opened JsonMeaning
  import opened JsonParser
  import opened JsonRoundTrip
  import opened JsonSyntax
  import opened LuaHeap

  // ----- the tree -----

  /** No white space stands between the tokens. */
  predicate Compact(j: Json)
    decreases j
  {
    match j
    case JEmptyArray(w) => w == []
    case JEmptyObject(w) => w == []
    case JArray(es) => CompactElements(es)
    case JObject(ms) => CompactMembers(ms)
    case _ => true
  }

  predicate CompactElements(es: Elements)
    decreases es
  {
    es.w1 == [] && es.w2 == [] && Compact(es.value) && (es.MoreElements? ==> CompactElements(es.rest))
  }

  predicate CompactMembers(ms: Members)
    decreases ms
  {
    && ms.w1 == [] && ms.w2 == [] && ms.w3 == [] && ms.w4 == []
    && Compact(ms.value) && (ms.MoreMembers? ==> CompactMembers(ms.rest))
  }

  /** An array is written with one element for each index, a hole as null. */
  lemma {:induction false} ElementsWritten(h: Heap, order: Order, cfg: EncodeConfig, depth: nat,
                                         id: TableId, i: nat, n: nat)
    requires HeapOk(h, order) && ConfigOk(cfg) && id in h && depth <= cfg.maxDepth && 1 <= i <= n
    requires EncodeElements(h, order, cfg, depth, id, i, n).Encoded?
    ensures var es := EncodeElements(h, order, cfg, depth, id, i, n).tree;
            && |ElementList(es)| == n - i + 1
            && (forall k: nat :: i <= k <= n ==>
                  EncodeData(h, order, cfg, depth, RawGet(h[id], k)) == Encoded(ElementList(es)[k - i]))
    ensures forall k: nat :: LNumber(FromInt(k)) !in h[id] ==>
              RawGet(h[id], k) == LNil && EncodeData(h, order, cfg, depth, LNil) == Encoded(JNull)
    decreases n - i
  {
    hide EncodeData, HeapOk, FromInt;
    HolesAreNull(h, order, cfg, depth, id);
    if i == n {
    } else {
      ElementsWritten(h, order, cfg, depth, id, i + 1, n);
    }
  }

  lemma HolesAreNull(h: Heap, order: Order, cfg: EncodeConfig, depth: nat, id: TableId)
    requires HeapOk(h, order) && ConfigOk(cfg) && id in h && depth <= cfg.maxDepth
    ensures forall k: nat :: ValueOk(h, RawGet(h[id], k))
    ensures forall k: nat :: LNumber(FromInt(k)) !in h[id] ==>
              RawGet(h[id], k) == LNil && EncodeData(h, order, cfg, depth, LNil) == Encoded(JNull)
  {
  }

  /** The member for the key at `k`, where `kvs` begins with the one at `i`. */
  ghost predicate MemberWritten(h: Heap, order: Order, cfg: EncodeConfig, depth: nat, id: TableId, i: nat, k: nat,
                                kvs: seq<(Items, Json)>)
    requires HeapOk(h, order) && ConfigOk(cfg) && id in h && depth <= cfg.maxDepth
  {
    && i <= k < |order[id]| && k - i < |kvs|
    && order[id][k] in h[id]
    && EncodeKey(cfg, order[id][k]) == Encoded(kvs[k - i].0)
    && EncodeData(h, order, cfg, depth, h[id][order[id][k]]) == Encoded(kvs[k - i].1)
  }

  /** An object is written with one member for each key, in the order in which they are visited. */
  lemma {:induction false} MembersWritten(h: Heap, order: Order, cfg: EncodeConfig, depth: nat, id: TableId, i: nat)
    requires HeapOk(h, order) && ConfigOk(cfg) && id in h && depth <= cfg.maxDepth && i < |order[id]|
    requires EncodeMembers(h, order, cfg, depth, id, i).Encoded?
    ensures var kvs := MemberList(EncodeMembers(h, order, cfg, depth, id, i).tree);
            && |kvs| == |order[id]| - i
            && forall k: nat :: i <= k < |order[id]| ==> MemberWritten(h, order, cfg, depth, id, i, k, kvs)
    decreases |order[id]| - i
  {
    hide EncodeData, EncodeKey;
    assert order[id][i] in h[id];
    if i + 1 == |order[id]| {
    } else {
      MembersWritten(h, order, cfg, depth, id, i + 1);
      var ms := EncodeMembers(h, order, cfg, depth, id, i).tree;
      forall k: nat | i < k < |order[id]|
        ensures MemberWritten(h, order, cfg, depth, id, i, k, MemberList(ms))
      {
        MemberShifted(h, order, cfg, depth, id, i, k, (ms.key, ms.value), MemberList(ms.rest));
      }
    }
  }

  lemma MemberShifted(h: Heap, order: Order, cfg: EncodeConfig, depth: nat, id: TableId, i: nat, k: nat,
                      first: (Items, Json), rest: seq<(Items, Json)>)
    requires HeapOk(h, order) && ConfigOk(cfg) && id in h && depth <= cfg.maxDepth
    requires MemberWritten(h, order, cfg, depth, id, i + 1, k, rest)
    ensures MemberWritten(h, order, cfg, depth, id, i, k, [first] + rest)
  {
    hide EncodeData, EncodeKey;
    assert ([first] + rest)[k - i] == rest[k - (i + 1)];
  }

  lemma {:induction false} WrittenCompact(h: Heap, order: Order, cfg: EncodeConfig, depth: nat, v: LuaValue)
    requires HeapOk(h, order) && ConfigOk(cfg) && ValueOk(h, v) && depth <= cfg.maxDepth
    requires EncodeData(h, order, cfg, depth, v).Encoded?
    ensures Compact(EncodeData(h, order, cfg, depth, v).tree)
    decreases cfg.maxDepth - depth, 0
  {
    hide LuaArrayLength, FormatG;
    if v.LTable? {
      var n := LuaArrayLength(cfg.sparse, order[v.id]).n;
      if n > 0 {
        ElementsCompact(h, order, cfg, depth + 1, v.id, 1, n);
      } else if |order[v.id]| > 0 {
        MembersCompact(h, order, cfg, depth + 1, v.id, 0);
      }
    } else {
    }
  }

  lemma {:induction false} ElementsCompact(h: Heap, order: Order, cfg: EncodeConfig, depth: nat,
                                         id: TableId, i: nat, n: nat)
    requires HeapOk(h, order) && ConfigOk(cfg) && id in h && depth <= cfg.maxDepth && 1 <= i <= n
    requires EncodeElements(h, order, cfg, depth, id, i, n).Encoded?
    ensures CompactElements(EncodeElements(h, order, cfg, depth, id, i, n).tree)
    decreases cfg.maxDepth - depth, n - i + 1
  {
    WrittenCompact(h, order, cfg, depth, RawGet(h[id], i));
    hide EncodeData;
    if i == n {
    } else {
      ElementsCompact(h, order, cfg, depth, id, i + 1, n);
    }
  }

  lemma {:induction false} MembersCompact(h: Heap, order: Order, cfg: EncodeConfig, depth: nat, id: TableId, i: nat)
    requires HeapOk(h, order) && ConfigOk(cfg) && id in h && depth <= cfg.maxDepth && i < |order[id]|
    requires EncodeMembers(h, order, cfg, depth, id, i).Encoded?
    ensures CompactMembers(EncodeMembers(h, order, cfg, depth, id, i).tree)
    decreases cfg.maxDepth - depth, |order[id]| - i
  {
    hide EncodeData, EncodeKey;
    assert order[id][i] in h[id];
    WrittenCompact(h, order, cfg, depth, h[id][order[id][i]]);
    if i + 1 == |order[id]| {
    } else {
      MembersCompact(h, order, cfg, depth, id, i + 1);
    }
  }

  /** What is refused by itself, and with which error. */
  lemma RefusedAtOnce(h: Heap, order: Order, cfg: EncodeConfig, depth: nat, v: LuaValue)
    requires HeapOk(h, order) && ConfigOk(cfg) && ValueOk(h, v) && depth <= cfg.maxDepth
    ensures v.LLight? || v == LOther ==> EncodeData(h, order, cfg, depth, v) == EncodeFailed(BadType)
    ensures v.LTable? && depth == cfg.maxDepth ==>
              EncodeData(h, order, cfg, depth, v) == EncodeFailed(NestedTooDeep(depth + 1))
    ensures v.LTable? && depth < cfg.maxDepth && AllIndices(order[v.id]) && Sparse(cfg.sparse, order[v.id])
              && !cfg.sparse.convert ==>
              EncodeData(h, order, cfg, depth, v) == EncodeFailed(SparseArray)
    ensures v.LTable? && depth < cfg.maxDepth && |order[v.id]| > 0
              && !order[v.id][0].LString? && !order[v.id][0].LNumber? ==>
              EncodeData(h, order, cfg, depth, v) == EncodeFailed(BadKey)
  {
    hide LuaArrayLength, Sparse;
    if v.LTable? {
      ArrayDecision(cfg.sparse, order[v.id]);
    }
  }

  // ----- the value -----

  /** The name under which a key is written: a string, or a number as it is printed. */
  function NameOf(cfg: EncodeConfig, k: LuaValue): bytes
    requires ConfigOk(cfg) && (k.LString? || k.LNumber?)
  {
    if k.LString? then k.s else NumeralText(FormatG(k.d, cfg.precision))
  }

  lemma KeyIsName(cfg: EncodeConfig, k: LuaValue)
    requires ConfigOk(cfg) && EncodeKey(cfg, k).Encoded?
    ensures (k.LString? || k.LNumber?) && ItemsMeaning(EncodeKey(cfg, k).tree) == NameOf(cfg, k)
  {
    hide FormatG;
    match k
    case LString(s) => EscapeItemsMeaning(s);
    case LNumber(d) => RawItemsMeaning(NumeralText(FormatG(d, cfg.precision)));
  }

  /**
   * `t` is what a decoder finds where `v` was written: numbers rounded to the precision, null for nil
   * and for holes, an array for a table whose keys are indices close enough together, and for any
   * other table an object of the names of its keys.
   */
  ghost predicate Shows(h: Heap, order: Order, cfg: EncodeConfig, v: LuaValue, t: Value, room: nat)
    requires HeapOk(h, order) && ConfigOk(cfg)
    decreases room, 0
  {
    match v
    case LNil => t == Null
    case LNull => t == Null
    case LBoolean(b) => t == Boolean(b)
    case LNumber(d) => t == Number(RoundTo(d, cfg.precision))
    case LString(s) => t == String(s)
    case LTable(id) =>
      && room > 0 && id in h && t.Table?
      && LuaArrayLength(cfg.sparse, order[id]).Length?
      && (var n := LuaArrayLength(cfg.sparse, order[id]).n;
          if n > 0 then
            && (forall key :: key in t.entries <==> IsElementKey(key, 1, n + 1))
            && (forall j: nat :: 1 <= j <= n ==>
                  && ElementKey(j) in t.entries
                  && Shows(h, order, cfg, RawGet(h[id], j), t.entries[ElementKey(j)], room - 1))
          else
            && (forall k :: k in h[id] ==>
                  (k.LString? || k.LNumber?) && StringKey(NameOf(cfg, k)) in t.entries)
            && (forall key :: key in t.entries ==> key.StringKey? && ShowsKey(h, order, cfg, id, key.name,
                                                                          t.entries[key], room - 1)))
    case _ => false
  }

  /** Some key of the table has the name, and its value is shown. */
  ghost predicate ShowsKey(h: Heap, order: Order, cfg: EncodeConfig, id: TableId, name: bytes, t: Value, room: nat)
    requires HeapOk(h, order) && ConfigOk(cfg) && id in h
    decreases room, 1
  {
    exists k :: k in h[id] && (k.LString? || k.LNumber?) && NameOf(cfg, k) == name &&
                Shows(h, order, cfg, h[id][k], t, room)
  }

  /** The table `id`, written as the tree `j`. */
  ghost predicate TableWritten(h: Heap, order: Order, cfg: EncodeConfig, depth: nat, id: TableId, j: Json)
    requires HeapOk(h, order) && ConfigOk(cfg) && id in h && depth + 1 <= cfg.maxDepth
  {
    var r := LuaArrayLength(cfg.sparse, order[id]);
    && r.Length?
    && (if r.n > 0 then
          j.JArray? && EncodeElements(h, order, cfg, depth + 1, id, 1, r.n) == Encoded(j.elements)
        else if |order[id]| == 0 then j == JEmptyObject([])
        else j.JObject? && EncodeMembers(h, order, cfg, depth + 1, id, 0) == Encoded(j.members))
  }

  lemma TableIsWritten(h: Heap, order: Order, cfg: EncodeConfig, depth: nat, id: TableId)
    requires HeapOk(h, order) && ConfigOk(cfg) && id in h && depth <= cfg.maxDepth
    requires EncodeData(h, order, cfg, depth, LTable(id)).Encoded?
    ensures depth + 1 <= cfg.maxDepth
    ensures TableWritten(h, order, cfg, depth, id, EncodeData(h, order, cfg, depth, LTable(id)).tree)
  {
    hide LuaArrayLength;
  }

  /** What is written shows the value, for every value that is encoded at all. */
  lemma {:induction false} WrittenShows(h: Heap, order: Order, cfg: EncodeConfig, depth: nat, v: LuaValue)
    requires HeapOk(h, order) && ConfigOk(cfg) && ValueOk(h, v) && depth <= cfg.maxDepth
    requires EncodeData(h, order, cfg, depth, v).Encoded?
    ensures Shows(h, order, cfg, v, Meaning(EncodeData(h, order, cfg, depth, v).tree), cfg.maxDepth - depth)
    decreases cfg.maxDepth - depth, 1
  {
    if v.LTable? {
      var j := EncodeData(h, order, cfg, depth, v).tree;
      TableIsWritten(h, order, cfg, depth, v.id);
      hide EncodeData, LuaArrayLength, Shows;
      if j.JArray? {
        ArrayShows(h, order, cfg, depth, v.id, j);
      } else if j.JObject? {
        ObjectShows(h, order, cfg, depth, v.id, j);
      } else {
        EmptyShows(h, order, cfg, depth, v.id);
      }
    } else {
      ScalarShows(h, order, cfg, depth, v);
    }
  }

  lemma ScalarShows(h: Heap, order: Order, cfg: EncodeConfig, depth: nat, v: LuaValue)
    requires HeapOk(h, order) && ConfigOk(cfg) && ValueOk(h, v) && depth <= cfg.maxDepth && !v.LTable?
    requires EncodeData(h, order, cfg, depth, v).Encoded?
    ensures Shows(h, order, cfg, v, Meaning(EncodeData(h, order, cfg, depth, v).tree), cfg.maxDepth - depth)
  {
    hide RoundTo, PrintExact, NumeralValue;
    match v
    case LNumber(d) => PrintExactValue(RoundTo(d, cfg.precision), cfg.precision);
    case LString(s) => EscapeItemsMeaning(s);
    case _ =>
  }

  lemma EmptyShows(h: Heap, order: Order, cfg: EncodeConfig, depth: nat, id: TableId)
    requires HeapOk(h, order) && ConfigOk(cfg) && id in h && depth + 1 <= cfg.maxDepth
    requires TableWritten(h, order, cfg, depth, id, JEmptyObject([]))
    ensures Shows(h, order, cfg, LTable(id), Meaning(JEmptyObject([])), cfg.maxDepth - depth)
  {
    hide LuaArrayLength;
    assert forall k :: k in h[id] <==> k in order[id];
  }

  lemma {:induction false} ArrayShows(h: Heap, order: Order, cfg: EncodeConfig, depth: nat, id: TableId, j: Json)
    requires HeapOk(h, order) && ConfigOk(cfg) && id in h && depth + 1 <= cfg.maxDepth
    requires TableWritten(h, order, cfg, depth, id, j) && j.JArray?
    ensures Shows(h, order, cfg, LTable(id), Meaning(j), cfg.maxDepth - depth)
    decreases cfg.maxDepth - depth, 0
  {
    hide *;
    ArrayTree(h, order, cfg, depth, id, j);
    var n, m := LuaArrayLength(cfg.sparse, order[id]).n, ElementsMeaning(j.elements, 1);
    EntriesShow(h, order, cfg, depth + 1, id, n, m);
    ArrayIsShown(h, order, cfg, id, n, m, cfg.maxDepth - depth);
  }

  /** Under each index up to `n`, `m` has the meaning of what is written for it, and nothing else. */
  ghost predicate EntriesWritten(h: Heap, order: Order, cfg: EncodeConfig, depth: nat, id: TableId, n: nat,
                                 m: map<Key, Value>)
    requires HeapOk(h, order) && ConfigOk(cfg) && id in h && depth <= cfg.maxDepth
    requires forall i: nat :: ValueOk(h, RawGet(h[id], i))
  {
    && (forall key :: key in m <==> IsElementKey(key, 1, n + 1))
    && (forall i: nat :: 1 <= i <= n ==>
          && ElementKey(i) in m
          && EncodeData(h, order, cfg, depth, RawGet(h[id], i)).Encoded?
          && m[ElementKey(i)] == Meaning(EncodeData(h, order, cfg, depth, RawGet(h[id], i)).tree))
  }

  ghost predicate EntriesShown(h: Heap, order: Order, cfg: EncodeConfig, id: TableId, n: nat, m: map<Key, Value>,
                               room: nat)
    requires HeapOk(h, order) && ConfigOk(cfg) && id in h
  {
    && (forall key :: key in m <==> IsElementKey(key, 1, n + 1))
    && (forall i: nat :: 1 <= i <= n ==>
          ElementKey(i) in m && Shows(h, order, cfg, RawGet(h[id], i), m[ElementKey(i)], room))
  }

  lemma {:induction false} EntriesShow(h: Heap, order: Order, cfg: EncodeConfig, depth: nat, id: TableId, n: nat,
                                     m: map<Key, Value>)
    requires HeapOk(h, order) && ConfigOk(cfg) && id in h && depth <= cfg.maxDepth
    requires forall i: nat :: ValueOk(h, RawGet(h[id], i))
    requires EntriesWritten(h, order, cfg, depth, id, n, m)
    ensures EntriesShown(h, order, cfg, id, n, m, cfg.maxDepth - depth)
    decreases cfg.maxDepth - depth, 3
  {
    hide HeapOk, ValueOk, RawGet, EncodeData, Shows, Meaning, ElementKey, IsElementKey;
    forall i: nat | 1 <= i <= n
      ensures ElementKey(i) in m && Shows(h, order, cfg, RawGet(h[id], i), m[ElementKey(i)], cfg.maxDepth - depth)
    {
      ElementShows(h, order, cfg, depth, id, i);
    }
  }

  lemma {:induction false} ElementShows(h: Heap, order: Order, cfg: EncodeConfig, depth: nat, id: TableId, i: nat)
    requires HeapOk(h, order) && ConfigOk(cfg) && id in h && depth <= cfg.maxDepth
    ensures ValueOk(h, RawGet(h[id], i))
    ensures var e := EncodeData(h, order, cfg, depth, RawGet(h[id], i));
            e.Encoded? ==> Shows(h, order, cfg, RawGet(h[id], i), Meaning(e.tree), cfg.maxDepth - depth)
    decreases cfg.maxDepth - depth, 2
  {
    hide *;
    HolesAreNull(h, order, cfg, depth, id);
    if EncodeData(h, order, cfg, depth, RawGet(h[id], i)).Encoded? {
      WrittenShows(h, order, cfg, depth, RawGet(h[id], i));
    }
  }

  lemma ArrayTree(h: Heap, order: Order, cfg: EncodeConfig, depth: nat, id: TableId, j: Json)
    requires HeapOk(h, order) && ConfigOk(cfg) && id in h && depth + 1 <= cfg.maxDepth
    requires TableWritten(h, order, cfg, depth, id, j) && j.JArray?
    ensures id in order && LuaArrayLength(cfg.sparse, order[id]).Length? && LuaArrayLength(cfg.sparse, order[id]).n > 0
    ensures Meaning(j) == Table(ElementsMeaning(j.elements, 1))
    ensures forall i: nat :: ValueOk(h, RawGet(h[id], i))
    ensures EntriesWritten(h, order, cfg, depth + 1, id, LuaArrayLength(cfg.sparse, order[id]).n,
                           ElementsMeaning(j.elements, 1))
  {
    hide EncodeElements, EncodeMembers, EncodeData, LuaArrayLength, ElementKey, IsElementKey, ElementsMeaning;
    HolesAreNull(h, order, cfg, depth + 1, id);
    ElementsWritten(h, order, cfg, depth + 1, id, 1, LuaArrayLength(cfg.sparse, order[id]).n);
    ElementsAre(j.elements, 1);
  }

  lemma ArrayIsShown(h: Heap, order: Order, cfg: EncodeConfig, id: TableId, n: nat, m: map<Key, Value>, room: nat)
    requires HeapOk(h, order) && ConfigOk(cfg) && id in h && room > 0
    requires n > 0 && LuaArrayLength(cfg.sparse, order[id]) == Length(n)
    requires EntriesShown(h, order, cfg, id, n, m, room - 1)
    ensures Shows(h, order, cfg, LTable(id), Table(m), room)
  {
    hide LuaArrayLength, ElementKey, IsElementKey;
  }

  lemma LastExists(ms: Members, k: nat, name: bytes) returns (last: nat)
    requires NamedAt(ms, k, name)
    ensures LastNamedAt(ms, last, name)
    decreases |MemberList(ms)| - k
  {
    hide ItemsMeaning;
    if j: nat :| j > k && NamedAt(ms, j, name) {
      last := LastExists(ms, j, name);
    } else {
      last := k;
    }
  }

  lemma {:induction false} ObjectShows(h: Heap, order: Order, cfg: EncodeConfig, depth: nat, id: TableId, j: Json)
    requires HeapOk(h, order) && ConfigOk(cfg) && id in h && depth + 1 <= cfg.maxDepth
    requires TableWritten(h, order, cfg, depth, id, j) && j.JObject?
    ensures Shows(h, order, cfg, LTable(id), Meaning(j), cfg.maxDepth - depth)
    decreases cfg.maxDepth - depth, 0
  {
    hide *;
    ObjectTree(h, order, cfg, depth, id, j);
    KeysShow(h, order, cfg, depth + 1, id, j.members);
    ObjectIsShown(h, order, cfg, id, MembersMeaning(j.members), cfg.maxDepth - depth);
  }

  lemma ObjectTree(h: Heap, order: Order, cfg: EncodeConfig, depth: nat, id: TableId, j: Json)
    requires HeapOk(h, order) && ConfigOk(cfg) && id in h && depth + 1 <= cfg.maxDepth
    requires TableWritten(h, order, cfg, depth, id, j) && j.JObject?
    ensures id in order && LuaArrayLength(cfg.sparse, order[id]).Length? && LuaArrayLength(cfg.sparse, order[id]).n <= 0
    ensures |order[id]| > 0 && EncodeMembers(h, order, cfg, depth + 1, id, 0) == Encoded(j.members)
    ensures Meaning(j) == Table(MembersMeaning(j.members))
  {
    hide LuaArrayLength, EncodeMembers, EncodeElements;
  }

  /** All keys have their names in `m`, and under each name the value of some key is shown. */
  ghost predicate KeysShown(h: Heap, order: Order, cfg: EncodeConfig, id: TableId, m: map<Key, Value>, room: nat)
    requires HeapOk(h, order) && ConfigOk(cfg) && id in h
  {
    && (forall k :: k in h[id] ==> (k.LString? || k.LNumber?) && StringKey(NameOf(cfg, k)) in m)
    && (forall key :: key in m ==> key.StringKey? && ShowsKey(h, order, cfg, id, key.name, m[key], room))
  }

  lemma ObjectIsShown(h: Heap, order: Order, cfg: EncodeConfig, id: TableId, m: map<Key, Value>, room: nat)
    requires HeapOk(h, order) && ConfigOk(cfg) && id in h && room > 0
    requires LuaArrayLength(cfg.sparse, order[id]).Length? && LuaArrayLength(cfg.sparse, order[id]).n <= 0
    requires KeysShown(h, order, cfg, id, m, room - 1)
    ensures Shows(h, order, cfg, LTable(id), Table(m), room)
  {
    hide LuaArrayLength, NameOf, ShowsKey;
  }

  lemma {:induction false} KeysShow(h: Heap, order: Order, cfg: EncodeConfig, depth: nat, id: TableId, ms: Members)
    requires HeapOk(h, order) && ConfigOk(cfg) && id in h && depth <= cfg.maxDepth
    requires id in order && |order[id]| > 0 && EncodeMembers(h, order, cfg, depth, id, 0) == Encoded(ms)
    ensures KeysShown(h, order, cfg, id, MembersMeaning(ms), cfg.maxDepth - depth)
    decreases cfg.maxDepth - depth, 3
  {
    hide HeapOk, EncodeMembers, NameOf, ShowsKey, MembersMeaning, NamedAt, MemberWritten, Shows;
    MembersWritten(h, order, cfg, depth, id, 0);
    MembersAreNamed(ms);
    var m := MembersMeaning(ms);
    forall k | k in h[id]
      ensures (k.LString? || k.LNumber?) && StringKey(NameOf(cfg, k)) in m
    {
      KeyHasName(h, order, cfg, depth, id, ms, k);
    }
    forall key | key in m
      ensures key.StringKey? && ShowsKey(h, order, cfg, id, key.name, m[key], cfg.maxDepth - depth)
    {
      NameIsShown(h, order, cfg, depth, id, ms, key.name);
    }
  }

  /** Every member was written for the key visited at its place. */
  ghost predicate AllWritten(h: Heap, order: Order, cfg: EncodeConfig, depth: nat, id: TableId, ms: Members)
    requires HeapOk(h, order) && ConfigOk(cfg) && id in h && depth <= cfg.maxDepth
  {
    && id in order && |MemberList(ms)| == |order[id]|
    && forall k: nat :: k < |order[id]| ==> MemberWritten(h, order, cfg, depth, id, 0, k, MemberList(ms))
  }

  lemma KeyHasName(h: Heap, order: Order, cfg: EncodeConfig, depth: nat, id: TableId, ms: Members, k: LuaValue)
    requires HeapOk(h, order) && ConfigOk(cfg) && id in h && depth <= cfg.maxDepth && k in h[id]
    requires AllWritten(h, order, cfg, depth, id, ms)
    ensures (k.LString? || k.LNumber?) && StringKey(NameOf(cfg, k)) in MembersMeaning(ms)
  {
    hide HeapOk, NameOf, MembersMeaning, NamedAt, MemberWritten;
    var i := VisitedAt(h, order, id, k);
    NameWritten(h, order, cfg, depth, id, ms, i);
    MembersAre(ms, NameOf(cfg, k));
  }

  lemma {:induction false} NameIsShown(h: Heap, order: Order, cfg: EncodeConfig, depth: nat, id: TableId, ms: Members,
                                     name: bytes)
    requires HeapOk(h, order) && ConfigOk(cfg) && id in h && depth <= cfg.maxDepth
    requires AllWritten(h, order, cfg, depth, id, ms) && StringKey(name) in MembersMeaning(ms)
    ensures ShowsKey(h, order, cfg, id, name, MembersMeaning(ms)[StringKey(name)], cfg.maxDepth - depth)
    decreases cfg.maxDepth - depth, 2
  {
    hide HeapOk, NameOf, MembersMeaning, NamedAt, LastNamedAt, Shows, ShowsKey, EncodeData, EncodeKey, Meaning;
    MembersAre(ms, name);
    var i: nat :| NamedAt(ms, i, name);
    var last := LastExists(ms, i, name);
    LastIsThere(ms, last, name);
    NameWritten(h, order, cfg, depth, id, ms, last);
    NamedOnce(ms, last, name, NameOf(cfg, order[id][last]));
    MemberValueOk(h, order, id, last);
    WrittenShows(h, order, cfg, depth, h[id][order[id][last]]);
    KeyShown(h, order, cfg, id, order[id][last], MembersMeaning(ms)[StringKey(name)], cfg.maxDepth - depth);
  }

  lemma VisitedAt(h: Heap, order: Order, id: TableId, k: LuaValue) returns (i: nat)
    requires HeapOk(h, order) && id in h && k in h[id]
    ensures i < |order[id]| && order[id][i] == k
  {
    assert k in order[id];
    i :| i < |order[id]| && order[id][i] == k;
  }

  lemma MemberValueOk(h: Heap, order: Order, id: TableId, i: nat)
    requires HeapOk(h, order) && id in h && i < |order[id]|
    ensures order[id][i] in h[id] && ValueOk(h, h[id][order[id][i]])
  {
    assert order[id][i] in order[id];
  }

  lemma LastIsThere(ms: Members, k: nat, name: bytes)
    requires LastNamedAt(ms, k, name)
    ensures NamedAt(ms, k, name) && k < |MemberList(ms)|
  {
  }

  lemma NamedOnce(ms: Members, k: nat, name: bytes, other: bytes)
    requires NamedAt(ms, k, name) && NamedAt(ms, k, other)
    ensures name == other
  {
  }

  lemma NameWritten(h: Heap, order: Order, cfg: EncodeConfig, depth: nat, id: TableId, ms: Members, i: nat)
    requires HeapOk(h, order) && ConfigOk(cfg) && id in h && depth <= cfg.maxDepth && i < |MemberList(ms)|
    requires MemberWritten(h, order, cfg, depth, id, 0, i, MemberList(ms))
    ensures i < |order[id]| && (order[id][i].LString? || order[id][i].LNumber?)
    ensures NamedAt(ms, i, NameOf(cfg, order[id][i]))
  {
    hide EncodeData, EncodeKey, ItemsMeaning, NameOf;
    KeyIsName(cfg, order[id][i]);
  }

  lemma KeyShown(h: Heap, order: Order, cfg: EncodeConfig, id: TableId, k: LuaValue, t: Value, room: nat)
    requires HeapOk(h, order) && ConfigOk(cfg) && id in h && k in h[id] && (k.LString? || k.LNumber?)
    requires Shows(h, order, cfg, h[id][k], t, room)
    ensures ShowsKey(h, order, cfg, id, NameOf(cfg, k), t, room)
  {
    hide Shows, NameOf;
  }

  /**
   * For every value that is encoded, whatever is in it: the text is free of white space outside
   * strings, and decoding it gives what shows the value.
   */
  lemma EncodedIsShown(h: Heap, order: Order, cfg: EncodeConfig, v: LuaValue, max: nat)
    requires HeapOk(h, order) && ConfigOk(cfg) && ValueOk(h, v) && cfg.maxDepth <= max
    requires EncodeText(h, order, cfg, v).Encoded?
    ensures var r := Decode(EncodeText(h, order, cfg, v).tree, max);
            && r.Decoded? && Compact(r.document.value)
            && Shows(h, order, cfg, v, Meaning(r.document.value), cfg.maxDepth)
  {
    hide EncodeData, Shows, Meaning, Decode, JsonText, Compact;
    EncodedIsDecoded(h, order, cfg, v, max);
    WrittenCompact(h, order, cfg, 0, v);
    WrittenShows(h, order, cfg, 0, v);
  }
}
