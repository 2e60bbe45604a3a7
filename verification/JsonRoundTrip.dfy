/** Decoding what was encoded gives the value back, whatever the order of traversal. */
module JsonRoundTrip {
  import opened Bytes
  import opened Decimals
  import opened JsonEncoder
  import opened JsonGrammar
  import opened JsonLexer
  import opened JsonParser
  import opened JsonSyntax
  import opened LuaHeap

  function LuaKey(k: Key): LuaValue {
    match k
    case NumberKey(d) => LNumber(d)
    case StringKey(s) => LString(s)
  }

  /** The Lua value `v` is finite and acyclic, and unfolds to the tree `t`. */
  ghost predicate Represents(h: Heap, v: LuaValue, t: Value)
    decreases t
  {
    match t
    case Null => v == LNull
    case Boolean(b) => v == LBoolean(b)
    case Number(d) => v == LNumber(d)
    case OddNumber(_) => false
    case String(s) => v == LString(s)
    case Table(m) =>
      && v.LTable? && v.id in h
      && (forall lk :: lk in h[v.id] ==> exists k :: k in m && LuaKey(k) == lk)
      && (forall k :: k in m ==> LuaKey(k) in h[v.id] && Represents(h, h[v.id][LuaKey(k)], m[k]))
  }

  ghost predicate DenseKeys(m: map<Key, Value>, n: nat) {
    forall k :: k in m <==> exists i: nat :: 1 <= i <= n && k == NumberKey(FromInt(i))
  }

  ghost predicate StringKeys(m: map<Key, Value>) {
    forall k :: k in m ==> k.StringKey?
  }

  /** Numbers that fit the precision, and tables that are arrays 1 to n or have string keys only. */
  ghost predicate Plain(t: Value, precision: nat)
    decreases t
  {
    match t
    case Number(d) => Normal(d) && |Digits(Abs(d.m))| <= precision
    case Table(m) =>
      && (StringKeys(m) || exists n: nat :: n >= 1 && DenseKeys(m, n))
      && forall k :: k in m ==> Plain(m[k], precision)
    case _ => true
  }

  ghost predicate NestedWithin(t: Value, depth: nat)
    decreases t
  {
    t.Table? ==> depth >= 1 && forall k :: k in t.entries ==> NestedWithin(t.entries[k], depth - 1)
  }

  // ----- the shape of the table decides between array and object -----

  lemma IndexKey(i: nat)
    requires i >= 1
    ensures IsIndex(LNumber(FromInt(i))) && ToInt(FromInt(i)) == i
  {
    IntegersEmbed(i);
  }

  ghost predicate KeysOf(h: Heap, id: TableId, m: map<Key, Value>) {
    && id in h
    && (forall lk :: lk in h[id] ==> exists k :: k in m && LuaKey(k) == lk)
    && (forall k :: k in m ==> LuaKey(k) in h[id])
  }

  lemma DenseTableIsArray(h: Heap, order: Order, cfg: SparseConfig, id: TableId, m: map<Key, Value>, n: nat)
    requires HeapOk(h, order) && KeysOf(h, id, m) && DenseKeys(m, n) && n >= 1
    ensures LuaArrayLength(cfg, order[id]) == Length(n)
  {
    var keys := order[id];
    forall j | 0 <= j < |keys|
      ensures IsIndex(keys[j]) && Normal(keys[j].d) && 1 <= ToInt(keys[j].d) <= n
    {
      assert keys[j] in h[id];
      var k :| k in m && LuaKey(k) == keys[j];
      var i: nat :| 1 <= i <= n && k == NumberKey(FromInt(i));
      IndexKey(i);
    }
    forall i: int | 1 <= i <= n
      ensures i in Indices(keys)
    {
      IndexKey(i);
      assert NumberKey(FromInt(i)) in m;
      assert LuaKey(NumberKey(FromInt(i))) in h[id];
      var j :| 0 <= j < |keys| && keys[j] == LNumber(FromInt(i));
      assert Indices(keys)[j] == i;
    }
    ScanKeysMeaning(keys);
    DenseIffCounted(keys);
    LargestIs(keys, n);
    NotSparse(cfg, n);
  }

  lemma LargestIs(keys: seq<LuaValue>, n: nat)
    requires AllIndices(keys) && n >= 1 && n in Indices(keys)
    requires forall j :: 0 <= j < |keys| ==> ToInt(keys[j].d) <= n
    ensures ScanKeys(keys).KeyScan? && ScanKeys(keys).max == n
  {
    ScanKeysMeaning(keys);
    var j :| 0 <= j < |keys| && Indices(keys)[j] == n;
    assert ToInt(keys[j].d) == n;
  }

  lemma NotSparse(cfg: SparseConfig, n: nat)
    ensures !TooSparse(cfg, n, n)
  {
    if cfg.ratio >= 1 {
      assert n * cfg.ratio >= n;
    }
  }

  lemma StringTableIsObject(h: Heap, order: Order, cfg: SparseConfig, id: TableId, m: map<Key, Value>)
    requires HeapOk(h, order) && KeysOf(h, id, m) && StringKeys(m)
    ensures LuaArrayLength(cfg, order[id]).Length? && LuaArrayLength(cfg, order[id]).n <= 0
    ensures forall j :: 0 <= j < |order[id]| ==> order[id][j].LString?
  {
    var keys := order[id];
    forall j | 0 <= j < |keys|
      ensures keys[j].LString?
    {
      assert keys[j] in h[id];
    }
    ScanKeysMeaning(keys);
  }

  // ----- plain values are encoded, to trees that mean them -----

  /** What encoding a plain value must give. */
  ghost predicate Good(e: Encoded<Json>, t: Value) {
    e.Encoded? && Meaning(e.tree) == t && forall n: nat :: NestedWithin(t, n) ==> Depth(e.tree) <= n
  }

  /** All values of a table are plain and not nested too deep to be encoded. */
  ghost predicate GoodEntries(h: Heap, id: TableId, t: Value, precision: nat, room: nat) {
    && t.Table? && KeysOf(h, id, t.entries)
    && forall k :: k in t.entries ==>
         && Represents(h, h[id][LuaKey(k)], t.entries[k])
         && Plain(t.entries[k], precision)
         && NestedWithin(t.entries[k], room)
  }

  lemma EntriesAre(h: Heap, order: Order, id: TableId, t: Value, precision: nat, room: nat)
    requires HeapOk(h, order) && GoodEntries(h, id, t, precision, room)
    ensures t.Table? && KeysOf(h, id, t.entries) && id in h && id in order
  {
  }

  ghost predicate EntriesNestedWithin(m: map<Key, Value>, n: nat) {
    forall k :: k in m ==> NestedWithin(m[k], n)
  }

  lemma {:induction false} PlainData(h: Heap, order: Order, cfg: EncodeConfig, depth: nat, v: LuaValue, t: Value)
    requires HeapOk(h, order) && ConfigOk(cfg) && ValueOk(h, v) && depth <= cfg.maxDepth
    requires Represents(h, v, t) && Plain(t, cfg.precision) && NestedWithin(t, cfg.maxDepth - depth)
    ensures Good(EncodeData(h, order, cfg, depth, v), t)
    decreases t, 2, 0
  {
    hide EncodeData, Represents, Plain, NestedWithin, GoodEntries, HeapOk, Good;
    if t.Table? {
      TableIsGood(h, v, t, cfg.precision, cfg.maxDepth - depth);
      PlainTable(h, order, cfg, depth, v.id, t);
    } else {
      PlainScalar(h, order, cfg, depth, v, t);
    }
  }

  lemma PlainScalar(h: Heap, order: Order, cfg: EncodeConfig, depth: nat, v: LuaValue, t: Value)
    requires HeapOk(h, order) && ConfigOk(cfg) && ValueOk(h, v) && depth <= cfg.maxDepth
    requires Represents(h, v, t) && Plain(t, cfg.precision) && !t.Table?
    ensures Good(EncodeData(h, order, cfg, depth, v), t)
  {
    hide HeapOk, EscapeItems, ItemsMeaning, FormatG, NumeralValue;
    match t
    case Number(d) => NumberKept(d, cfg.precision);
    case String(s) => EscapeItemsMeaning(s);
    case _ =>
  }

  lemma TableIsGood(h: Heap, v: LuaValue, t: Value, precision: nat, room: nat)
    requires Represents(h, v, t) && Plain(t, precision) && NestedWithin(t, room) && t.Table?
    ensures v.LTable? && room >= 1 && GoodEntries(h, v.id, t, precision, room - 1)
    ensures StringKeys(t.entries) || exists n: nat :: n >= 1 && DenseKeys(t.entries, n)
  {
  }

  lemma NumberKept(d: Decimal, p: nat)
    requires p >= 1 && Normal(d) && |Digits(Abs(d.m))| <= p
    ensures NumeralValue(FormatG(d, p)) == d
  {
    RoundToFits(d, p);
    PrintExactValue(d, p);
  }

  lemma {:induction false} PlainTable(h: Heap, order: Order, cfg: EncodeConfig, depth: nat, id: TableId, t: Value)
    requires HeapOk(h, order) && ConfigOk(cfg) && depth + 1 <= cfg.maxDepth
    requires GoodEntries(h, id, t, cfg.precision, cfg.maxDepth - depth - 1)
    requires StringKeys(t.entries) || exists n: nat :: n >= 1 && DenseKeys(t.entries, n)
    ensures Good(EncodeData(h, order, cfg, depth, LTable(id)), t)
    decreases t, 1, 0
  {
    hide HeapOk, GoodEntries, KeysOf, EncodeData, EncodeElements, EncodeMembers, LuaArrayLength, ValueOk,
         DenseKeys, Represents, Plain, NestedWithin, EntriesNestedWithin, Good;
    EntriesAre(h, order, id, t, cfg.precision, cfg.maxDepth - depth - 1);
    var m := t.entries;
    if StringKeys(m) {
      StringTableIsObject(h, order, cfg.sparse, id, m);
      if |order[id]| > 0 {
        PlainMembers(h, order, cfg, depth + 1, id, 0, t);
        FinishObject(h, order, cfg, depth, id, t);
      } else {
        EmptyEntries(h, order, id, m);
        GoodTable(h, order, cfg, depth, id, t, JEmptyObject([]));
      }
    } else {
      var n: nat :| n >= 1 && DenseKeys(m, n);
      DenseTableIsArray(h, order, cfg.sparse, id, m, n);
      PlainElements(h, order, cfg, depth + 1, id, 1, n, t);
      FinishArray(h, order, cfg, depth, id, t, n);
    }
  }

  lemma FinishObject(h: Heap, order: Order, cfg: EncodeConfig, depth: nat, id: TableId, t: Value)
    requires HeapOk(h, order) && ConfigOk(cfg) && depth + 1 <= cfg.maxDepth
    requires t.Table? && id in h && KeysOf(h, id, t.entries)
    requires LuaArrayLength(cfg.sparse, order[id]).Length? && LuaArrayLength(cfg.sparse, order[id]).n <= 0
    requires |order[id]| > 0
    requires var e := EncodeMembers(h, order, cfg, depth + 1, id, 0);
             && e.Encoded?
             && VisitedPart(MembersMeaning(e.tree), t.entries, order[id], 0)
             && (forall d: nat :: EntriesNestedWithin(t.entries, d) ==> MembersDepth(e.tree) <= d)
    ensures Good(EncodeData(h, order, cfg, depth, LTable(id)), t)
  {
    hide HeapOk, EncodeData, EncodeMembers, EntriesNestedWithin, KeysOf, VisitedPart, LuaArrayLength;
    var ms := EncodeMembers(h, order, cfg, depth + 1, id, 0).tree;
    WholeObject(h, order, id, t.entries, MembersMeaning(ms));
    GoodTable(h, order, cfg, depth, id, t, JObject(ms));
  }

  lemma FinishArray(h: Heap, order: Order, cfg: EncodeConfig, depth: nat, id: TableId, t: Value, n: nat)
    requires HeapOk(h, order) && ConfigOk(cfg) && depth + 1 <= cfg.maxDepth && t.Table? && id in h
    requires n >= 1 && DenseKeys(t.entries, n) && LuaArrayLength(cfg.sparse, order[id]) == Length(n)
    requires var e := EncodeElements(h, order, cfg, depth + 1, id, 1, n);
             && e.Encoded?
             && IndexPart(ElementsMeaning(e.tree, 1), t.entries, 1, n)
             && (forall d: nat :: EntriesNestedWithin(t.entries, d) ==> ElementsDepth(e.tree) <= d)
    ensures Good(EncodeData(h, order, cfg, depth, LTable(id)), t)
  {
    hide HeapOk, EncodeData, EncodeElements, EntriesNestedWithin, IndexPart, DenseKeys, LuaArrayLength;
    var es := EncodeElements(h, order, cfg, depth + 1, id, 1, n).tree;
    WholeArray(t.entries, n, ElementsMeaning(es, 1));
    GoodTable(h, order, cfg, depth, id, t, JArray(es));
  }

  /** How EncodeData makes a table's tree from the pieces. */
  ghost predicate TableTree(h: Heap, order: Order, cfg: EncodeConfig, depth: nat, id: TableId, j: Json)
    requires HeapOk(h, order) && ConfigOk(cfg) && id in h && depth + 1 <= cfg.maxDepth
  {
    var r := LuaArrayLength(cfg.sparse, order[id]);
    match j
    case JArray(es) => r.Length? && r.n > 0 && EncodeElements(h, order, cfg, depth + 1, id, 1, r.n) == Encoded(es)
    case JEmptyObject(w) => w == [] && r.Length? && r.n <= 0 && |order[id]| == 0
    case JObject(ms) =>
      r.Length? && r.n <= 0 && |order[id]| > 0 && EncodeMembers(h, order, cfg, depth + 1, id, 0) == Encoded(ms)
    case _ => false
  }

  lemma TableTreeIs(h: Heap, order: Order, cfg: EncodeConfig, depth: nat, id: TableId, j: Json)
    requires HeapOk(h, order) && ConfigOk(cfg) && id in h && depth + 1 <= cfg.maxDepth
    requires TableTree(h, order, cfg, depth, id, j)
    ensures EncodeData(h, order, cfg, depth, LTable(id)) == Encoded(j)
  {
    hide EncodeElements, EncodeMembers, LuaArrayLength, HeapOk;
  }

  ghost predicate TableMeaning(j: Json, m: map<Key, Value>) {
    match j
    case JArray(es) => ElementsMeaning(es, 1) == m
    case JObject(ms) => MembersMeaning(ms) == m
    case JEmptyObject(_) => m == map[]
    case _ => false
  }

  /** The entries of the tree are nested no deeper than those of the value. */
  ghost predicate TableShallow(j: Json, m: map<Key, Value>) {
    match j
    case JArray(es) => forall d: nat :: EntriesNestedWithin(m, d) ==> ElementsDepth(es) <= d
    case JObject(ms) => forall d: nat :: EntriesNestedWithin(m, d) ==> MembersDepth(ms) <= d
    case _ => true
  }

  lemma GoodTable(h: Heap, order: Order, cfg: EncodeConfig, depth: nat, id: TableId, t: Value, j: Json)
    requires HeapOk(h, order) && ConfigOk(cfg) && id in h && depth + 1 <= cfg.maxDepth
    requires TableTree(h, order, cfg, depth, id, j) && t.Table?
    requires TableMeaning(j, t.entries) && TableShallow(j, t.entries)
    ensures Good(EncodeData(h, order, cfg, depth, LTable(id)), t)
  {
    TableTreeIs(h, order, cfg, depth, id, j);
    hide EncodeData, TableTree, HeapOk, ElementsMeaning, MembersMeaning, ElementsDepth, MembersDepth;
    assert Meaning(j) == t;
    forall n: nat | NestedWithin(t, n)
      ensures Depth(j) <= n
    {
      assert EntriesNestedWithin(t.entries, n - 1);
    }
  }

  lemma WholeArray(m: map<Key, Value>, n: nat, r: map<Key, Value>)
    requires DenseKeys(m, n) && IndexPart(r, m, 1, n)
    ensures r == m
  {
  }

  lemma EmptyEntries(h: Heap, order: Order, id: TableId, m: map<Key, Value>)
    requires HeapOk(h, order) && KeysOf(h, id, m) && |order[id]| == 0
    ensures m == map[]
  {
    if m != map[] {
      var k :| k in m;
      KeyVisited(h, order, id, LuaKey(k));
    }
  }

  lemma KeyVisited(h: Heap, order: Order, id: TableId, lk: LuaValue)
    requires HeapOk(h, order) && id in h && lk in h[id]
    ensures id in order && lk in order[id]
  {
  }

  /** `r` holds the entries of `m` with indices from `i` to `n`. */
  ghost predicate IndexPart(r: map<Key, Value>, m: map<Key, Value>, i: nat, n: nat) {
    && (forall k :: k in r <==> exists j: nat :: i <= j <= n && k == NumberKey(FromInt(j)))
    && (forall k :: k in r ==> k in m && r[k] == m[k])
  }

  lemma {:induction false} PlainElements(h: Heap, order: Order, cfg: EncodeConfig, depth: nat,
                                         id: TableId, i: nat, n: nat, t: Value)
    requires HeapOk(h, order) && ConfigOk(cfg) && depth <= cfg.maxDepth && 1 <= i <= n
    requires GoodEntries(h, id, t, cfg.precision, cfg.maxDepth - depth) && DenseKeys(t.entries, n)
    ensures var e := EncodeElements(h, order, cfg, depth, id, i, n);
            && e.Encoded?
            && IndexPart(ElementsMeaning(e.tree, i), t.entries, i, n)
            && (forall d: nat :: EntriesNestedWithin(t.entries, d) ==> ElementsDepth(e.tree) <= d)
    decreases t, 0, n - i
  {
    hide Represents, Plain, EncodeData, HeapOk, KeysOf;
    var k := NumberKey(FromInt(i));
    assert k in t.entries;
    ElementValue(h, order, id, i, t);
    PlainData(h, order, cfg, depth, RawGet(h[id], i), t.entries[k]);
    var e := EncodeElements(h, order, cfg, depth, id, i, n);
    if i < n {
      PlainElements(h, order, cfg, depth, id, i + 1, n, t);
      var rest := EncodeElements(h, order, cfg, depth, id, i + 1, n).tree;
      AddIndex(ElementsMeaning(rest, i + 1), t.entries, i, n);
    } else {
      AddLastIndex(t.entries, i);
    }
  }

  lemma ElementValue(h: Heap, order: Order, id: TableId, i: nat, t: Value)
    requires HeapOk(h, order) && t.Table? && KeysOf(h, id, t.entries) && NumberKey(FromInt(i)) in t.entries
    ensures id in h && LNumber(FromInt(i)) in h[id]
    ensures RawGet(h[id], i) == h[id][LuaKey(NumberKey(FromInt(i)))] && ValueOk(h, RawGet(h[id], i))
  {
    assert LuaKey(NumberKey(FromInt(i))) in h[id];
  }

  lemma AddIndex(rest: map<Key, Value>, m: map<Key, Value>, i: nat, n: nat)
    requires 1 <= i < n && NumberKey(FromInt(i)) in m && IndexPart(rest, m, i + 1, n)
    ensures var k := NumberKey(FromInt(i)); IndexPart(map[k := m[k]] + rest, m, i, n)
  {
    var k0 := NumberKey(FromInt(i));
    var r := map[k0 := m[k0]] + rest;
    forall k
      ensures k in r <==> exists j: nat :: i <= j <= n && k == NumberKey(FromInt(j))
    {
      if k in r && k != k0 {
        var j: nat :| i + 1 <= j <= n && k == NumberKey(FromInt(j));
      }
      if j: nat :| i <= j <= n && k == NumberKey(FromInt(j)) {
        assert j == i || k in rest;
      }
    }
  }

  lemma AddLastIndex(m: map<Key, Value>, i: nat)
    requires NumberKey(FromInt(i)) in m
    ensures var k := NumberKey(FromInt(i)); IndexPart(map[k := m[k]], m, i, i)
  {
  }

  /** `r` holds the entries of `m` whose keys the traversal visits from position `i` on. */
  ghost predicate VisitedPart(r: map<Key, Value>, m: map<Key, Value>, keys: seq<LuaValue>, i: nat) {
    && (forall k :: k in r ==> k in m && r[k] == m[k])
    && (forall k :: k in m ==> (k in r <==> exists j :: i <= j < |keys| && keys[j] == LuaKey(k)))
  }

  lemma WholeObject(h: Heap, order: Order, id: TableId, m: map<Key, Value>, r: map<Key, Value>)
    requires HeapOk(h, order) && KeysOf(h, id, m) && VisitedPart(r, m, order[id], 0)
    ensures r == m
  {
    hide HeapOk;
    forall k | k in m
      ensures k in r
    {
      KeyVisited(h, order, id, LuaKey(k));
      var j :| 0 <= j < |order[id]| && order[id][j] == LuaKey(k);
    }
  }

  lemma {:induction false} PlainMembers(h: Heap, order: Order, cfg: EncodeConfig, depth: nat,
                                        id: TableId, i: nat, t: Value)
    requires HeapOk(h, order) && ConfigOk(cfg) && depth <= cfg.maxDepth
    requires GoodEntries(h, id, t, cfg.precision, cfg.maxDepth - depth) && StringKeys(t.entries)
    requires i < |order[id]|
    ensures var e := EncodeMembers(h, order, cfg, depth, id, i);
            && e.Encoded?
            && VisitedPart(MembersMeaning(e.tree), t.entries, order[id], i)
            && (forall d: nat :: EntriesNestedWithin(t.entries, d) ==> MembersDepth(e.tree) <= d)
    decreases t, 0, |order[id]| - i
  {
    hide HeapOk, GoodEntries, EncodeData, ItemsMeaning, EscapeItems, ValueOk;
    EntriesAre(h, order, id, t, cfg.precision, cfg.maxDepth - depth);
    var keys := order[id];
    var k := MemberKey(h, order, id, i, t, cfg.precision, cfg.maxDepth - depth);
    EscapeItemsMeaning(keys[i].s);
    PlainData(h, order, cfg, depth, h[id][keys[i]], t.entries[k]);
    if i + 1 < |keys| {
      PlainMembers(h, order, cfg, depth, id, i + 1, t);
      var rest := EncodeMembers(h, order, cfg, depth, id, i + 1).tree;
      VisitedOnce(h, order, id, i);
      AddVisited(MembersMeaning(rest), t.entries, keys, i, k);
    } else {
      AddLastVisited(t.entries, keys, i, k);
    }
  }

  lemma MemberKey(h: Heap, order: Order, id: TableId, i: nat, t: Value, precision: nat, room: nat) returns (k: Key)
    requires HeapOk(h, order) && GoodEntries(h, id, t, precision, room) && StringKeys(t.entries)
    requires i < |order[id]|
    ensures k in t.entries && LuaKey(k) == order[id][i] && order[id][i].LString?
    ensures order[id][i] in h[id] && ValueOk(h, h[id][order[id][i]])
    ensures Represents(h, h[id][order[id][i]], t.entries[k])
    ensures Plain(t.entries[k], precision) && NestedWithin(t.entries[k], room)
  {
    hide Represents, Plain, NestedWithin;
    assert order[id][i] in order[id];
    k :| k in t.entries && LuaKey(k) == order[id][i];
  }

  lemma VisitedOnce(h: Heap, order: Order, id: TableId, i: nat)
    requires HeapOk(h, order) && id in h && i < |order[id]|
    ensures forall j :: i < j < |order[id]| ==> order[id][j] != order[id][i]
  {
  }

  lemma AddVisited(rest: map<Key, Value>, m: map<Key, Value>, keys: seq<LuaValue>, i: nat, k0: Key)
    requires i + 1 < |keys| && k0 in m && LuaKey(k0) == keys[i]
    requires forall j :: i < j < |keys| ==> keys[j] != keys[i]
    requires VisitedPart(rest, m, keys, i + 1)
    ensures VisitedPart(map[k0 := m[k0]] + rest, m, keys, i)
  {
    var r := map[k0 := m[k0]] + rest;
    forall k | k in m
      ensures k in r <==> exists j :: i <= j < |keys| && keys[j] == LuaKey(k)
    {
      if j :| i <= j < |keys| && keys[j] == LuaKey(k) {
        assert j == i || k in rest;
      }
    }
  }

  lemma AddLastVisited(m: map<Key, Value>, keys: seq<LuaValue>, i: nat, k0: Key)
    requires i + 1 == |keys| && k0 in m && LuaKey(k0) == keys[i]
    ensures VisitedPart(map[k0 := m[k0]], m, keys, i)
  {
    forall k | k in m
      ensures k in map[k0 := m[k0]] <==> exists j :: i <= j < |keys| && keys[j] == LuaKey(k)
    {
      if j :| i <= j < |keys| && keys[j] == LuaKey(k) {
        assert j == i;
      }
    }
  }

  // ----- the round trip -----

  /** json_encode as a function: the text of the tree. */
  function EncodeText(h: Heap, order: Order, cfg: EncodeConfig, v: LuaValue): Encoded<bytes>
    requires HeapOk(h, order) && ConfigOk(cfg) && ValueOk(h, v)
  {
    match EncodeData(h, order, cfg, 0, v)
    case EncodeFailed(e) => EncodeFailed(e)
    case Encoded(j) => Encoded(JsonText(j))
  }

  /**
   * Everything encoded is a text of the strict grammar without NUL bytes, and is decoded again,
   * provided it is not nested deeper than the decoder allows.
   */
  lemma EncodedIsDecoded(h: Heap, order: Order, cfg: EncodeConfig, v: LuaValue, max: nat)
    requires HeapOk(h, order) && ConfigOk(cfg) && ValueOk(h, v)
    requires EncodeText(h, order, cfg, v).Encoded?
    ensures var j := EncodeData(h, order, cfg, 0, v).tree;
            var text := EncodeText(h, order, cfg, v).tree;
            && NulFree(text)
            && JsonOk(j, Strict) && Depth(j) <= cfg.maxDepth && DocumentText(Document([], j, [])) == text
            && (Depth(j) <= max ==> Decode(text, max) == Decoded(Document([], j, [])))
  {
    hide JsonText, EncodeData, Decode;
    var j := EncodeData(h, order, cfg, 0, v).tree;
    EncodedIsStrict(h, order, cfg, 0, v);
    var d := Document([], j, []);
    assert DocumentText(d) == JsonText(j);
    JsonTextNulFree(j, Strict);
    assert DocumentOk(d, Strict);
    if Depth(j) <= max {
      StrictAccepted(d, max);
    }
  }

  /**
   * Round trip: a plain value, nested no deeper than both limits, is encoded, and decoding the text
   * gives the value back, for every order in which lua_next visits the tables.
   */
  lemma RoundTrip(h: Heap, order: Order, cfg: EncodeConfig, v: LuaValue, t: Value, max: nat)
    requires HeapOk(h, order) && ConfigOk(cfg) && ValueOk(h, v)
    requires Represents(h, v, t) && Plain(t, cfg.precision)
    requires NestedWithin(t, cfg.maxDepth) && NestedWithin(t, max)
    ensures var e := EncodeText(h, order, cfg, v);
            && e.Encoded?
            && NulFree(e.tree)
            && Decode(e.tree, max).Decoded?
            && Meaning(Decode(e.tree, max).document.value) == t
  {
    hide EncodeData, Represents, Plain, NestedWithin, Meaning, JsonText, Decode;
    PlainData(h, order, cfg, 0, v, t);
    EncodedIsDecoded(h, order, cfg, v, max);
  }

  /**
   * A string alone: wherever json_append_string has written it, and whatever follows, the tokenizer
   * reads it back and stops just behind the closing quote.
   */
  lemma StringRoundTrip(str: bytes, before: bytes, after: bytes)
    ensures var t := StringText(EscapeItems(str));
            var r := NextToken(before + t + after, |before|);
            && r == Lexed(StringToken(EscapeItems(str)), |before|, |before| + |t|)
            && ItemsMeaning(r.tok.items) == str
            && NulFree(t)
            && |t| <= 6 * |str| + 2
  {
    hide EscapeItems, ItemsText, ItemsMeaning, ItemOk;
    var items := EscapeItems(str);
    var t := StringText(items);
    var s := before + t + after;
    EscapeItemsMeaning(str);
    EscapedLength(str);
    ItemsTextNulFree(items, Strict);
    ItemsLoosened(items, Strict);
    assert s[|before|..|before| + |t|] == t;
    HasAtIsSlice(s, |before|, t);
    HasAtOne(s, |before|);
    NextTokenComplete(s, |before|, [], StringToken(items));
  }
}
