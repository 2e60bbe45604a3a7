/**
 * The bridge between Go values and Lua. Pushing a value onto the Lua stack and popping it again
 * leaves the stack as it was and gives the value back; reading a table that Lua has made gives all
 * its entries but those whose keys share a name.
 */
module GoBridge {
  import opened Bytes
  import opened Decimals
  import Heaps = LuaHeap

  // ----- values -----

  datatype GoValue =
    | GoNil
    | GoString(s: bytes)
    | GoBytes(s: bytes)
    | GoInt(i: int)
    | GoFloat(r: real)
    | GoBool(b: bool)
    | GoUintptr(address: nat)
    | GoMap(m: map<bytes, GoValue>)     // map[string]any
    | GoSlice(vs: seq<GoValue>)         // slices and arrays, by reflection
    | GoPointer(target: GoValue)        // a pointer that is not nil
    | GoNilPointer
    | GoUnsupported                     // functions, channels and the like

  datatype StackValue =
    | Nil
    | Boolean(b: bool)
    | Number(r: real)
    | Str(s: bytes)
    | Light(address: nat)
    | Table(id: nat)
    | Other             // functions, full userdata, threads

  type TableEntries = map<StackValue, StackValue>
  type Tables = map<nat, TableEntries>

  /** strconv.Itoa. */
  function Itoa(n: int): bytes {
    if n < 0 then [MINUS] + Digits(-n) else Digits(n)
  }

  /** Conversion of a float64 to int, which truncates. */
  function Truncated(r: real): int {
    if r < 0.0 then -((-r).Floor) else r.Floor
  }

  // ----- what comes back -----

  /**
   * A value as Pop gives it back: numbers as float64, byte slices as strings, slices as maps from
   * "0", "1", ..., pointers dereferenced, and nil for a null address and for what is unsupported.
   */
  function Returned(v: GoValue): GoValue
    decreases v
  {
    match v
    case GoBytes(s) => GoString(s)
    case GoInt(i) => GoFloat(i as real)
    case GoUintptr(p) => if p == 0 then GoNil else v
    case GoMap(m) => GoMap(map s | s in m :: Returned(m[s]))
    case GoSlice(vs) => GoMap(ReturnedSlice(vs, |vs|))
    case GoPointer(t) => Returned(t)
    case GoNilPointer => GoNil
    case GoUnsupported => GoNil
    case _ => v
  }

  function ReturnedSlice(vs: seq<GoValue>, n: nat): map<bytes, GoValue>
    requires n <= |vs|
    decreases vs, n
  {
    if n == 0 then map[] else ReturnedSlice(vs, n - 1)[Itoa(n - 1) := Returned(vs[n - 1])]
  }

  /** No string or key holds a NUL byte. */
  ghost predicate NulFreeValue(v: GoValue)
    decreases v
  {
    match v
    case GoString(s) => NulFree(s)
    case GoBytes(s) => NulFree(s)
    case GoMap(m) => forall s :: s in m ==> NulFree(s) && NulFreeValue(m[s])
    case GoSlice(vs) => forall i :: 0 <= i < |vs| ==> NulFreeValue(vs[i])
    case GoPointer(t) => NulFreeValue(t)
    case _ => true
  }

  lemma ItoaInjective(i: nat, j: nat)
    requires Itoa(i) == Itoa(j)
    ensures i == j
  {
    DigitsMeaning(i);
    DigitsMeaning(j);
  }

  lemma DigitsMeaning(n: nat)
    ensures DigitsValue(Digits(n)) == n && NulFree(Digits(n))
  {
  }

  /** A slice comes back under the keys "0" to "n-1", each with its own element. */
  lemma {:induction false} SliceKeys(vs: seq<GoValue>, n: nat)
    requires n <= |vs|
    ensures forall s :: s in ReturnedSlice(vs, n) <==> exists i: nat :: i < n && s == Itoa(i)
    ensures forall i: nat :: i < n ==>
              Itoa(i) in ReturnedSlice(vs, n) && ReturnedSlice(vs, n)[Itoa(i)] == Returned(vs[i])
    decreases n
  {
    hide Itoa, Returned;
    if n == 0 {
    } else {
      SliceKeys(vs, n - 1);
      forall i: nat | i < n
        ensures Itoa(i) in ReturnedSlice(vs, n) && ReturnedSlice(vs, n)[Itoa(i)] == Returned(vs[i])
      {
        if i < n - 1 && Itoa(i) == Itoa(n - 1) {
          ItoaInjective(i, n - 1);
        }
      }
    }
  }

  /** Values built from nil, strings, float64, bool, non-null addresses and map[string]any. */
  ghost predicate Native(v: GoValue)
    decreases v
  {
    match v
    case GoNil => true
    case GoString(_) => true
    case GoFloat(_) => true
    case GoBool(_) => true
    case GoUintptr(p) => p != 0
    case GoMap(m) => forall s :: s in m ==> Native(m[s])
    case _ => false
  }

  /** Such values come back unchanged; in particular no key is lost, even if its value is nil. */
  lemma {:induction false} NativeReturned(v: GoValue)
    requires Native(v)
    ensures Returned(v) == v
    decreases v
  {
    if v.GoMap? {
      forall s | s in v.m
        ensures Returned(v.m[s]) == v.m[s]
      {
        NativeReturned(v.m[s]);
      }
      assert (map s | s in v.m :: Returned(v.m[s])) == v.m;
    } else {
    }
  }

  /** Pushing what came back gives the same again. */
  lemma {:induction false} ReturnedIsNative(v: GoValue)
    ensures Native(Returned(v))
    decreases v
  {
    match v
    case GoMap(m) =>
      forall s | s in m
        ensures Native(Returned(m[s]))
      {
        ReturnedIsNative(m[s]);
      }
    case GoSlice(vs) =>
      SliceKeys(vs, |vs|);
      forall i | 0 <= i < |vs|
        ensures Native(Returned(vs[i]))
      {
        ReturnedIsNative(vs[i]);
      }
    case GoPointer(t) => ReturnedIsNative(t);
    case _ =>
  }

  // ----- values in the Lua heap -----

  /**
   * `x` is the Lua value pushed for `v`; all its tables have ids of at least `low`, and those inside
   * a table have larger ids than the table.
   */
  ghost predicate Represents(h: Tables, x: StackValue, v: GoValue, inTable: bool, low: nat)
    decreases v
  {
    match v
    case GoNil => x == NilIn(inTable)
    case GoString(s) => x == Str(s)
    case GoBytes(s) => x == Str(s)
    case GoInt(i) => x == Number(i as real)
    case GoFloat(r) => x == Number(r)
    case GoBool(b) => x == Boolean(b)
    case GoUintptr(p) => x == Light(p)
    case GoPointer(t) => Represents(h, x, t, inTable, low)
    case GoNilPointer => x == NilIn(inTable)
    case GoUnsupported => x == NilIn(inTable)
    case GoMap(m) =>
      && x.Table? && x.id >= low && x.id in h
      && (forall k :: k in h[x.id] <==> k.Str? && k.s in m)
      && (forall s :: s in m ==> Represents(h, h[x.id][Str(s)], m[s], true, x.id + 1))
    case GoSlice(vs) =>
      && x.Table? && x.id >= low && x.id in h
      && (forall k :: k in h[x.id] <==> IsIndexBelow(k, |vs|))
      && (forall i: nat :: i < |vs| ==>
            Index(i) in h[x.id] && Represents(h, h[x.id][Index(i)], vs[i], true, x.id + 1))
  }

  /** nil cannot be a table value, so that a null light userdata stands for it there. */
  function NilIn(inTable: bool): StackValue {
    if inTable then Light(0) else Nil
  }

  function Index(i: nat): StackValue {
    Number(i as real)
  }

  ghost predicate IsIndexBelow(k: StackValue, n: nat) {
    exists i: nat :: i < n && k == Index(i)
  }

  ghost predicate SameFrom(h: Tables, h': Tables, low: nat) {
    forall id :: id in h && id >= low ==> id in h' && h'[id] == h[id]
  }

  /** What is represented stays so when only smaller ids change. */
  lemma {:induction false} RepresentsKept(h: Tables, h': Tables, x: StackValue, v: GoValue, inTable: bool, low: nat)
    requires Represents(h, x, v, inTable, low) && SameFrom(h, h', low)
    ensures Represents(h', x, v, inTable, low)
    decreases v
  {
    match v
    case GoPointer(t) => RepresentsKept(h, h', x, t, inTable, low);
    case GoMap(m) =>
      assert h'[x.id] == h[x.id];
      forall s | s in m
        ensures Represents(h', h[x.id][Str(s)], m[s], true, x.id + 1)
      {
        RepresentsKept(h, h', h[x.id][Str(s)], m[s], true, x.id + 1);
      }
    case GoSlice(vs) =>
      assert h'[x.id] == h[x.id];
      forall i: nat | i < |vs|
        ensures Represents(h', h[x.id][Index(i)], vs[i], true, x.id + 1)
      {
        RepresentsKept(h, h', h[x.id][Index(i)], vs[i], true, x.id + 1);
      }
    case _ =>
  }

  /** A table value is never nil, so that its key is not lost. */
  lemma {:induction false} TableValueNotNil(h: Tables, x: StackValue, v: GoValue, low: nat)
    requires Represents(h, x, v, true, low)
    ensures x != Nil
    decreases v
  {
    if v.GoPointer? {
      TableValueNotNil(h, x, v.target, low);
    } else {
    }
  }

  /** An order in which lua_next may visit a table. */
  ghost predicate Traverses(keys: seq<StackValue>, t: TableEntries) {
    Heaps.NoDuplicates(keys) && Nil !in keys && forall k :: k in keys <==> k in t
  }

  /** What lua_next finds after `key`: a position in the order of traversal. */
  function After(keys: seq<StackValue>, key: StackValue): nat {
    if key == Nil then 0 else Find(keys, key) + 1
  }

  function Find(keys: seq<StackValue>, key: StackValue): nat {
    if |keys| == 0 || keys[0] == key then 0 else Find(keys[1..], key) + 1
  }

  lemma {:induction false} FindAt(keys: seq<StackValue>, i: nat)
    requires Heaps.NoDuplicates(keys) && i < |keys|
    ensures Find(keys, keys[i]) == i
  {
    if i == 0 {
    } else {
      assert keys[0] != keys[i];
      assert forall a, b :: 0 <= a < b < |keys[1..]| ==> keys[1..][a] == keys[a + 1] != keys[b + 1] == keys[1..][b];
      FindAt(keys[1..], i - 1);
    }
  }

  lemma {:induction false} LowerBound(h: Tables, x: StackValue, v: GoValue, inTable: bool, low: nat, low': nat)
    requires Represents(h, x, v, inTable, low) && low' <= low
    ensures Represents(h, x, v, inTable, low')
    decreases v
  {
    if v.GoPointer? {
      LowerBound(h, x, v.target, inTable, low, low');
    } else {
    }
  }

  lemma AfterNil(order: seq<StackValue>)
    ensures After(order, Nil) == 0
  {
  }

  lemma AfterAt(order: seq<StackValue>, t: TableEntries, i: nat)
    requires Traverses(order, t) && i < |order|
    ensures order[i] in t && After(order, order[i]) == i + 1
  {
    assert order[i] in order;
    FindAt(order, i);
  }

  // ----- building a table entry by entry -----

  ghost predicate Extends(h: Tables, h': Tables) {
    forall id :: id in h ==> id in h' && h'[id] == h[id]
  }

  lemma ExtendsNew(h: Tables, h': Tables, id: nat)
    requires id !in h && h' == h[id := map[]]
    ensures Extends(h, h')
  {
  }

  lemma ExtendsStep(h0: Tables, h: Tables, h': Tables, h'': Tables, id: nat)
    requires Extends(h0, h) && Extends(h, h') && id !in h0
    requires id in h'' && h'' == h'[id := h''[id]]
    ensures Extends(h0, h'') && (id in h ==> id in h')
  {
  }

  lemma ExtendsHas(h: Tables, h': Tables, id: nat)
    requires Extends(h, h') && id in h
    ensures id in h'
  {
  }

  /** All entries of `m` are in table `id` but those with a key in `keys`. */
  ghost predicate MapSoFar(h: Tables, id: nat, m: map<bytes, GoValue>, keys: set<bytes>) {
    && id in h
    && (forall k :: k in h[id] <==> k.Str? && k.s in m && k.s !in keys)
    && (forall s :: s in m && s !in keys ==> Represents(h, h[id][Str(s)], m[s], true, id + 1))
  }

  lemma MapBegins(h: Tables, id: nat, m: map<bytes, GoValue>)
    requires id in h && h[id] == map[]
    ensures MapSoFar(h, id, m, m.Keys)
  {
  }

  lemma MapEnds(h: Tables, id: nat, v: GoValue)
    requires v.GoMap? && MapSoFar(h, id, v.m, {})
    ensures Represents(h, Table(id), v, false, id)
  {
  }

  lemma {:induction false} MapStep(h: Tables, h': Tables, h'': Tables, id: nat, m: map<bytes, GoValue>,
                                   keys: set<bytes>, s: bytes, x: StackValue)
    requires MapSoFar(h, id, m, keys) && s in keys && keys <= m.Keys && Extends(h, h')
    requires Represents(h', x, m[s], true, id + 1)
    requires h'' == h'[id := if x == Nil then h'[id] - {Str(s)} else h'[id][Str(s) := x]]
    ensures MapSoFar(h'', id, m, keys - {s})
  {
    hide Represents;
    TableValueNotNil(h', x, m[s], id + 1);
    RepresentsKept(h', h'', x, m[s], true, id + 1);
    forall r | r in m && r !in keys
      ensures Represents(h'', h''[id][Str(r)], m[r], true, id + 1)
    {
      RepresentsKept(h, h'', h[id][Str(r)], m[r], true, id + 1);
    }
  }

  /** The first `n` elements are in table `id`. */
  ghost predicate SliceSoFar(h: Tables, id: nat, vs: seq<GoValue>, n: nat) {
    && id in h && n <= |vs|
    && (forall k :: k in h[id] <==> IsIndexBelow(k, n))
    && (forall i: nat :: i < n ==> Index(i) in h[id] && Represents(h, h[id][Index(i)], vs[i], true, id + 1))
  }

  lemma SliceBegins(h: Tables, id: nat, vs: seq<GoValue>)
    requires id in h && h[id] == map[]
    ensures SliceSoFar(h, id, vs, 0)
  {
  }

  lemma SliceEnds(h: Tables, id: nat, v: GoValue)
    requires v.GoSlice? && SliceSoFar(h, id, v.vs, |v.vs|)
    ensures Represents(h, Table(id), v, false, id)
  {
  }

  lemma {:induction false} SliceStep(h: Tables, h': Tables, h'': Tables, id: nat, vs: seq<GoValue>, n: nat,
                                     x: StackValue)
    requires SliceSoFar(h, id, vs, n) && n < |vs| && Extends(h, h')
    requires Represents(h', x, vs[n], true, id + 1)
    requires h'' == h'[id := if x == Nil then h'[id] - {Index(n)} else h'[id][Index(n) := x]]
    ensures SliceSoFar(h'', id, vs, n + 1)
  {
    hide Represents;
    TableValueNotNil(h', x, vs[n], id + 1);
    RepresentsKept(h', h'', x, vs[n], true, id + 1);
    forall i: nat | i < n
      ensures Index(i) in h''[id] && Represents(h'', h''[id][Index(i)], vs[i], true, id + 1)
    {
      RepresentsKept(h, h'', h[id][Index(i)], vs[i], true, id + 1);
      assert Index(i) != Index(n);
    }
  }

  // ----- reading any value that is not cyclic -----

  /** What Get makes of a value. A table is read by other means, and what is neither is an error. */
  function Scalar(x: StackValue): GoValue
    requires !x.Table? && x != Other
  {
    match x
    case Nil => GoNil
    case Str(s) => GoString(CString(s))
    case Number(r) => GoFloat(r)
    case Boolean(b) => GoBool(b)
    case Light(p) => if p != 0 then GoUintptr(p) else GoNil
  }

  /** The key of the Go map for a key of the Lua table. */
  function KeyName(k: StackValue): bytes {
    match k
    case Str(s) => CString(s)
    case Number(r) => Itoa(Truncated(r))
    case _ => []
  }

  predicate NamedKey(k: StackValue) {
    k.Str? || k.Number?
  }

  /** Tables nest at most `n` deep in `x`, and where one is a key, one is its value. */
  ghost predicate Nested(h: Tables, x: StackValue, n: nat)
    decreases n
  {
    x.Table? ==>
      && n > 0 && x.id in h && Nil !in h[x.id]
      && forall k :: k in h[x.id] ==> (k.Table? ==> h[x.id][k].Table?) && Nested(h, h[x.id][k], n - 1)
  }

  ghost predicate Edge(h: Tables, a: nat, b: nat) {
    a in h && exists k :: k in h[a] && h[a][k] == Table(b)
  }

  /** Tables, each a value of the one before. */
  ghost predicate Chain(h: Tables, ids: seq<nat>) {
    && |ids| >= 1
    && (forall i :: 0 <= i < |ids| ==> ids[i] in h)
    && (forall i :: 0 <= i < |ids| - 1 ==> Edge(h, ids[i], ids[i + 1]))
  }

  /** No chain of tables from `x` returns to one of its tables. */
  ghost predicate Acyclic(h: Tables, x: StackValue) {
    x.Table? ==> forall ids: seq<nat> :: Chain(h, ids) && ids[0] == x.id ==> Heaps.NoDuplicates(ids)
  }

  /** All tables are there, nil is no key, and where a table is a key, one is its value. */
  ghost predicate Closed(h: Tables) {
    forall id :: id in h ==>
      && Nil !in h[id]
      && forall k :: k in h[id] ==>
           && (h[id][k].Table? ==> h[id][k].id in h)
           && (k.Table? ==> h[id][k].Table?)
  }

  lemma LongerChain(h: Tables, ids: seq<nat>, b: nat)
    requires Chain(h, ids) && b in h && Edge(h, ids[|ids| - 1], b)
    ensures Chain(h, ids + [b])
  {
    hide Edge;
    var longer := ids + [b];
    forall i | 0 <= i < |longer| - 1
      ensures Edge(h, longer[i], longer[i + 1])
    {
      if i < |ids| - 1 {
        assert Edge(h, ids[i], ids[i + 1]);
      }
    }
  }

  lemma ChainFits(h: Tables, ids: seq<nat>)
    requires Chain(h, ids) && Heaps.NoDuplicates(ids)
    ensures |ids| <= |h|
  {
    hide Edge;
    Heaps.SequenceSize(ids);
    var all := set id | id in ids;
    assert all <= h.Keys;
    Heaps.SubsetSize(all, h.Keys);
  }

  /** At the end of a chain from `path[0]` there is room for as many tables as the chain leaves out. */
  lemma {:induction false} NestedBehind(h: Tables, path: seq<nat>)
    requires Closed(h) && Chain(h, path) && Acyclic(h, Table(path[0]))
    ensures |path| <= |h| && Nested(h, Table(path[|path| - 1]), |h| - |path| + 1)
    decreases |h| - |path|
  {
    hide Edge;
    ChainFits(h, path);
    var id := path[|path| - 1];
    var n := |h| - |path| + 1;
    forall k | k in h[id]
      ensures Nested(h, h[id][k], n - 1)
    {
      if h[id][k].Table? {
        assert Edge(h, id, h[id][k].id) by { EdgeAt(h, id, k); }
        LongerChain(h, path, h[id][k].id);
        ChainFits(h, path + [h[id][k].id]);
        NestedBehind(h, path + [h[id][k].id]);
      } else {
      }
    }
  }

  lemma EdgeAt(h: Tables, id: nat, k: StackValue)
    requires id in h && k in h[id] && h[id][k].Table?
    ensures Edge(h, id, h[id][k].id)
  {
  }

  lemma {:induction false} NestedAlong(h: Tables, ids: seq<nat>, n: nat)
    requires Chain(h, ids) && Nested(h, Table(ids[0]), n)
    ensures |ids| <= n && Nested(h, Table(ids[|ids| - 1]), n - |ids| + 1)
    decreases |ids|
  {
    if |ids| == 1 {
    } else {
      assert Edge(h, ids[0], ids[1]);
      var k :| k in h[ids[0]] && h[ids[0]][k] == Table(ids[1]);
      ChainPart(h, ids, 1, |ids|);
      NestedAlong(h, ids[1..], n - 1);
    }
  }

  lemma ChainPart(h: Tables, ids: seq<nat>, from: nat, to: nat)
    requires Chain(h, ids) && from < to <= |ids|
    ensures Chain(h, ids[from..to]) && ids[from..|ids|] == ids[from..]
  {
    hide Edge;
    var part := ids[from..to];
    forall i | 0 <= i < |part| - 1
      ensures Edge(h, part[i], part[i + 1])
    {
      assert Edge(h, ids[from + i], ids[from + i + 1]);
    }
  }

  lemma {:induction false} LoopNotNested(h: Tables, loop: seq<nat>, n: nat)
    requires Chain(h, loop) && |loop| >= 2 && loop[0] == loop[|loop| - 1]
    ensures !Nested(h, Table(loop[0]), n)
    decreases n
  {
    hide Nested, Edge;
    if Nested(h, Table(loop[0]), n) {
      NestedAlong(h, loop, n);
      LoopNotNested(h, loop, n - |loop| + 1);
    } else {
    }
  }

  /** In a closed heap the nesting of a value is bounded, by the number of tables, exactly if it is not cyclic. */
  lemma NestedIffAcyclic(h: Tables, x: StackValue)
    requires Closed(h) && (x.Table? ==> x.id in h)
    ensures Acyclic(h, x) <==> exists n: nat :: Nested(h, x, n)
    ensures Acyclic(h, x) ==> Nested(h, x, |h|)
  {
    hide Edge;
    if x.Table? {
      if Acyclic(h, x) {
        NestedBehind(h, [x.id]);
      }
      if n: nat :| Nested(h, x, n) {
        forall ids: seq<nat> | Chain(h, ids) && ids[0] == x.id
          ensures Heaps.NoDuplicates(ids)
        {
          forall i, j | 0 <= i < j < |ids|
            ensures ids[i] != ids[j]
          {
            ChainPart(h, ids, 0, i + 1);
            assert ids[0..i + 1][0] == ids[0];
            NestedAlong(h, ids[0..i + 1], n);
            ChainPart(h, ids, i, j + 1);
            LoopCheck(h, ids[i..j + 1], n - i);
          }
        }
      }
    } else {
      assert Nested(h, x, 0);
    }
  }

  lemma LoopCheck(h: Tables, loop: seq<nat>, n: nat)
    requires Chain(h, loop) && |loop| >= 2 && Nested(h, Table(loop[0]), n)
    ensures loop[0] != loop[|loop| - 1]
  {
    hide Nested, Edge;
    if loop[0] == loop[|loop| - 1] {
      LoopNotNested(h, loop, n);
    }
  }

  /** All that can be reached are values with a Go form, and keys that are strings or numbers. */
  ghost predicate Readable(h: Tables, x: StackValue, n: nat)
    decreases n
  {
    && x != Other
    && (x.Table? ==>
          && n > 0 && x.id in h
          && forall k :: k in h[x.id] ==> NamedKey(k) && Readable(h, h[x.id][k], n - 1))
  }

  /**
   * `v` is a reading of `x`: the map for a table has the names of its keys, and for each name the
   * reading of the value of some key of that name.
   */
  ghost predicate Reads(h: Tables, x: StackValue, n: nat, v: GoValue)
    decreases n
  {
    if x.Table? then
      && n > 0 && x.id in h && v.GoMap?
      && (forall k :: k in h[x.id] ==> KeyName(k) in v.m)
      && (forall s :: s in v.m ==> exists k :: k in h[x.id] && KeyName(k) == s && Reads(h, h[x.id][k], n - 1, v.m[s]))
    else x != Other && v == Scalar(x)
  }

  /** No two keys of a table have one name. */
  ghost predicate NamesDiffer(t: TableEntries) {
    forall k, k' :: k in t && k' in t && KeyName(k) == KeyName(k') ==> k == k'
  }

  ghost predicate NamesDifferWithin(h: Tables, x: StackValue, n: nat)
    decreases n
  {
    x.Table? && n > 0 && x.id in h ==>
      && NamesDiffer(h[x.id])
      && forall k :: k in h[x.id] ==> NamesDifferWithin(h, h[x.id][k], n - 1)
  }

  lemma KeyOf(h: Tables, x: StackValue, n: nat, v: GoValue, s: bytes) returns (k: StackValue)
    requires Reads(h, x, n, v) && x.Table? && v.GoMap? && s in v.m
    ensures n > 0 && x.id in h && k in h[x.id] && KeyName(k) == s && Reads(h, h[x.id][k], n - 1, v.m[s])
  {
    hide KeyName;
    k :| k in h[x.id] && KeyName(k) == s && Reads(h, h[x.id][k], n - 1, v.m[s]);
  }

  lemma SameKey(h: Tables, x: StackValue, n: nat, k: StackValue, k': StackValue)
    requires NamesDifferWithin(h, x, n) && x.Table? && n > 0 && x.id in h
    requires k in h[x.id] && k' in h[x.id] && KeyName(k) == KeyName(k')
    ensures k == k' && NamesDifferWithin(h, h[x.id][k], n - 1)
  {
    hide KeyName;
  }

  /** Where no names clash there is only one reading, whatever the order of traversal. */
  lemma {:induction false} OneReading(h: Tables, x: StackValue, n: nat, v: GoValue, w: GoValue)
    requires Reads(h, x, n, v) && Reads(h, x, n, w) && NamesDifferWithin(h, x, n)
    ensures v == w
    decreases n
  {
    if x.Table? {
      SameNames(h, x, n, v, w);
      hide Reads, NamesDifferWithin, KeyName;
      forall s | s in v.m
        ensures v.m[s] == w.m[s]
      {
        var k := KeyOf(h, x, n, v, s);
        var k' := KeyOf(h, x, n, w, s);
        SameKey(h, x, n, k, k');
        OneReading(h, h[x.id][k], n - 1, v.m[s], w.m[s]);
      }
      assert v.m == w.m;
    } else {
    }
  }

  lemma SameNames(h: Tables, x: StackValue, n: nat, v: GoValue, w: GoValue)
    requires Reads(h, x, n, v) && Reads(h, x, n, w) && x.Table?
    ensures v.GoMap? && w.GoMap? && v.m.Keys == w.m.Keys
    ensures v.m.Keys == set k | k in h[x.id] :: KeyName(k)
  {
    hide KeyName;
  }

  /** Where names clash, each of the keys may give the value: all the others are lost. */
  lemma AnyMayWin(h: Tables, x: StackValue, n: nat, v: GoValue, k: StackValue, u: GoValue)
    requires Reads(h, x, n, v) && x.Table? && k in h[x.id] && Reads(h, h[x.id][k], n - 1, u)
    ensures v.GoMap? && Reads(h, x, n, GoMap(v.m[KeyName(k) := u]))
  {
    hide KeyName;
  }

  lemma {:induction false} ImageSize(keys: set<StackValue>)
    ensures var names := set k | k in keys :: KeyName(k);
            && |names| <= |keys|
            && (|names| == |keys| <==> forall k, k' :: k in keys && k' in keys && KeyName(k) == KeyName(k') ==> k == k')
    decreases keys
  {
    hide KeyName;
    var names := set k | k in keys :: KeyName(k);
    if keys == {} {
    } else {
      var k0 :| k0 in keys;
      var rest := keys - {k0};
      var fewer := set k | k in rest :: KeyName(k);
      ImageSize(rest);
      assert names == fewer + {KeyName(k0)};
      if KeyName(k0) in fewer {
        assert names == fewer;
        var k :| k in rest && KeyName(k) == KeyName(k0);
        assert k in keys;
      }
    }
  }

  /** Entries are lost exactly where names clash: only then the map is smaller than the table. */
  lemma LostIffNamesClash(h: Tables, x: StackValue, n: nat, v: GoValue)
    requires Reads(h, x, n, v) && x.Table?
    ensures v.GoMap? && |v.m| <= |h[x.id]|
    ensures |v.m| == |h[x.id]| <==> NamesDiffer(h[x.id])
  {
    hide KeyName;
    SameNames(h, x, n, v, v);
    ImageSize(h[x.id].Keys);
    assert (set k | k in h[x.id].Keys :: KeyName(k)) == v.m.Keys;
  }

  /** The table {[1] = true, ["1"] = false} has two readings, of one entry each. */
  lemma OneIsLost(h: Tables)
    requires 0 in h && h[0] == map[Number(1.0) := Boolean(true), Str([49]) := Boolean(false)]
    ensures Reads(h, Table(0), 1, GoMap(map[[49] := GoBool(true)]))
    ensures Reads(h, Table(0), 1, GoMap(map[[49] := GoBool(false)]))
  {
    assert KeyName(Str([49])) == [49];
    assert KeyName(Number(1.0)) == [49] by {
      assert Truncated(1.0) == 1;
    }
  }

  // ----- what Push has made is read back -----

  lemma {:induction false} CStringWhole(s: bytes)
    requires NulFree(s)
    ensures CString(s) == s
  {
    if |s| == 0 {
    } else {
      CStringWhole(s[1..]);
    }
  }

  ghost predicate IdsBelow(h: Tables, bound: nat) {
    forall id :: id in h ==> id < bound
  }

  /** It can be read without error, in one way only. */
  ghost predicate Tame(h: Tables, x: StackValue, n: nat) {
    Nested(h, x, n) && Readable(h, x, n) && NamesDifferWithin(h, x, n)
  }

  ghost predicate ReadBack(h: Tables, x: StackValue, n: nat, v: GoValue) {
    Tame(h, x, n) && Reads(h, x, n, Returned(v))
  }

  /** What Push has made for a value can be read, in one way: the value comes back. */
  lemma {:induction false} PushedIsReadBack(h: Tables, x: StackValue, v: GoValue, inTable: bool, low: nat,
                                            bound: nat, n: nat)
    requires Represents(h, x, v, inTable, low) && NulFreeValue(v) && IdsBelow(h, bound) && n + low >= bound
    ensures ReadBack(h, x, n, v)
    decreases v
  {
    hide Represents, NulFreeValue, ReadBack, KeyName, Itoa, Returned;
    match v
    case GoPointer(t) =>
      PointerParts(h, x, v, inTable, low);
      PushedIsReadBack(h, x, t, inTable, low, bound, n);
      SameReturned(h, x, n, v);
    case GoMap(m) =>
      MapParts(h, x, v, inTable, low);
      forall s | s in m
        ensures KeyName(Str(s)) == s && ReadBack(h, h[x.id][Str(s)], n - 1, m[s])
      {
        StringName(s);
        PushedIsReadBack(h, h[x.id][Str(s)], m[s], true, x.id + 1, bound, n - 1);
      }
      MapReadBack(h, x, v, n);
    case GoSlice(vs) =>
      SliceParts(h, x, v, inTable, low);
      forall i: nat | i < |vs|
        ensures KeyName(Index(i)) == Itoa(i) && ReadBack(h, h[x.id][Index(i)], n - 1, vs[i])
      {
        IndexName(i);
        PushedIsReadBack(h, h[x.id][Index(i)], vs[i], true, x.id + 1, bound, n - 1);
      }
      SliceReadBack(h, x, v, n);
    case _ => ScalarReadBack(h, x, v, inTable, low, n);
  }

  lemma PointerParts(h: Tables, x: StackValue, v: GoValue, inTable: bool, low: nat)
    requires Represents(h, x, v, inTable, low) && NulFreeValue(v) && v.GoPointer?
    ensures Represents(h, x, v.target, inTable, low) && NulFreeValue(v.target)
  {
  }

  lemma SameReturned(h: Tables, x: StackValue, n: nat, v: GoValue)
    requires v.GoPointer? && ReadBack(h, x, n, v.target)
    ensures ReadBack(h, x, n, v)
  {
  }

  lemma MapParts(h: Tables, x: StackValue, v: GoValue, inTable: bool, low: nat)
    requires Represents(h, x, v, inTable, low) && NulFreeValue(v) && v.GoMap?
    ensures x.Table? && x.id >= low && x.id in h
    ensures forall k :: k in h[x.id] <==> k.Str? && k.s in v.m
    ensures forall s :: s in v.m ==>
              NulFree(s) && NulFreeValue(v.m[s]) && Represents(h, h[x.id][Str(s)], v.m[s], true, x.id + 1)
  {
  }

  lemma SliceParts(h: Tables, x: StackValue, v: GoValue, inTable: bool, low: nat)
    requires Represents(h, x, v, inTable, low) && NulFreeValue(v) && v.GoSlice?
    ensures x.Table? && x.id >= low && x.id in h
    ensures forall k :: k in h[x.id] <==> IsIndexBelow(k, |v.vs|)
    ensures forall i: nat :: i < |v.vs| ==>
              && NulFreeValue(v.vs[i]) && Index(i) in h[x.id]
              && Represents(h, h[x.id][Index(i)], v.vs[i], true, x.id + 1)
  {
  }

  lemma ScalarReadBack(h: Tables, x: StackValue, v: GoValue, inTable: bool, low: nat, n: nat)
    requires Represents(h, x, v, inTable, low) && NulFreeValue(v) && !v.GoMap? && !v.GoSlice? && !v.GoPointer?
    ensures ReadBack(h, x, n, v)
  {
    match v
    case GoString(s) => CStringWhole(s);
    case GoBytes(s) => CStringWhole(s);
    case _ =>
  }

  lemma StringName(s: bytes)
    requires NulFree(s)
    ensures KeyName(Str(s)) == s
  {
    CStringWhole(s);
  }

  lemma IndexName(i: nat)
    ensures KeyName(Index(i)) == Itoa(i)
  {
    hide Itoa;
    assert Truncated(i as real) == i;
  }

  lemma TableReadBack(h: Tables, x: StackValue, v: GoValue, n: nat)
    requires x.Table? && x.id in h && n > 0 && NamesDiffer(h[x.id]) && Reads(h, x, n, Returned(v))
    requires forall k :: k in h[x.id] ==> NamedKey(k) && Tame(h, h[x.id][k], n - 1)
    ensures ReadBack(h, x, n, v)
  {
    hide NamesDiffer, Reads, Returned;
  }

  lemma ReturnedMap(v: GoValue)
    requires v.GoMap?
    ensures Returned(v).GoMap? && Returned(v).m.Keys == v.m.Keys
    ensures forall s :: s in v.m ==> Returned(v).m[s] == Returned(v.m[s])
  {
  }

  lemma MapReadBack(h: Tables, x: StackValue, v: GoValue, n: nat)
    requires v.GoMap? && x.Table? && x.id in h && n > 0
    requires forall k :: k in h[x.id] <==> k.Str? && k.s in v.m
    requires forall s :: s in v.m ==> KeyName(Str(s)) == s && ReadBack(h, h[x.id][Str(s)], n - 1, v.m[s])
    ensures ReadBack(h, x, n, v)
  {
    hide KeyName, Returned, Tame;
    ReturnedMap(v);
    forall k | k in h[x.id]
      ensures KeyName(k) == k.s && ReadBack(h, h[x.id][k], n - 1, v.m[k.s])
    {
      assert k == Str(k.s);
    }
    var r := Returned(v);
    forall s | s in r.m
      ensures exists k :: k in h[x.id] && KeyName(k) == s && Reads(h, h[x.id][k], n - 1, r.m[s])
    {
      assert Str(s) in h[x.id];
    }
    TableReadBack(h, x, v, n);
  }

  lemma SliceReadBack(h: Tables, x: StackValue, v: GoValue, n: nat)
    requires v.GoSlice? && x.Table? && x.id in h && n > 0
    requires forall k :: k in h[x.id] <==> IsIndexBelow(k, |v.vs|)
    requires forall i: nat :: i < |v.vs| ==>
               KeyName(Index(i)) == Itoa(i) && Index(i) in h[x.id] && ReadBack(h, h[x.id][Index(i)], n - 1, v.vs[i])
    ensures ReadBack(h, x, n, v)
  {
    hide KeyName, Itoa, ReturnedSlice, Tame;
    var r := ReturnedSlice(v.vs, |v.vs|);
    SliceKeys(v.vs, |v.vs|);
    SliceNamesDiffer(h[x.id], |v.vs|);
    forall s | s in r
      ensures exists k :: k in h[x.id] && KeyName(k) == s && Reads(h, h[x.id][k], n - 1, r[s])
    {
      var i: nat :| i < |v.vs| && s == Itoa(i);
      assert Index(i) in h[x.id];
    }
    TableReadBack(h, x, v, n);
  }

  lemma SliceNamesDiffer(t: TableEntries, n: nat)
    requires forall k :: k in t ==> IsIndexBelow(k, n)
    requires forall i: nat :: i < n ==> KeyName(Index(i)) == Itoa(i)
    ensures NamesDiffer(t)
  {
    hide KeyName, Itoa;
    forall k, k' | k in t && k' in t && KeyName(k) == KeyName(k')
      ensures k == k'
    {
      var i: nat :| i < n && k == Index(i);
      var j: nat :| j < n && k' == Index(j);
      ItoaInjective(i, j);
    }
  }

  // ----- reading a table entry by entry -----

  /** The entries for the first `i` keys visited: a later key of the same name wins. */
  ghost predicate ResultSoFar(result: map<bytes, GoValue>, h: Tables, x: StackValue, n: nat, order: seq<StackValue>,
                              i: nat)
  {
    && x.Table? && n > 0 && x.id in h && i <= |order|
    && (forall j :: 0 <= j < i ==>
          && order[j] in h[x.id] && NamedKey(order[j]) && KeyName(order[j]) in result
          && Readable(h, h[x.id][order[j]], n - 1))
    && (forall s :: s in result ==>
          exists k :: k in h[x.id] && KeyName(k) == s && Reads(h, h[x.id][k], n - 1, result[s]))
  }

  lemma ResultBegins(h: Tables, x: StackValue, n: nat, order: seq<StackValue>)
    requires x.Table? && Nested(h, x, n)
    ensures x.id in h && Nil !in h[x.id] && ResultSoFar(map[], h, x, n, order, 0)
  {
  }

  lemma ResultStep(before: map<bytes, GoValue>, h: Tables, x: StackValue, n: nat, order: seq<StackValue>, i: nat,
                   val: GoValue)
    requires ResultSoFar(before, h, x, n, order, i) && i < |order| && order[i] in h[x.id] && NamedKey(order[i])
    requires Readable(h, h[x.id][order[i]], n - 1) && Reads(h, h[x.id][order[i]], n - 1, val)
    ensures ResultSoFar(before[KeyName(order[i]) := val], h, x, n, order, i + 1)
  {
    hide KeyName, Readable, Reads, NamedKey;
  }

  lemma ResultEnds(result: map<bytes, GoValue>, h: Tables, x: StackValue, n: nat, order: seq<StackValue>)
    requires ResultSoFar(result, h, x, n, order, |order|) && Traverses(order, h[x.id])
    ensures Readable(h, x, n) && Reads(h, x, n, GoMap(result))
  {
    hide KeyName, NamedKey;
    forall k | k in h[x.id]
      ensures NamedKey(k) && Readable(h, h[x.id][k], n - 1) && KeyName(k) in result
    {
      var j :| 0 <= j < |order| && order[j] == k;
    }
  }

  /** A key that is no table, as Get reads it. */
  lemma KeyParts(h: Tables, k: StackValue, n: nat)
    requires !k.Table?
    ensures Nested(h, k, n) && (Readable(h, k, n) <==> k != Other)
    ensures forall v :: Reads(h, k, n, v) ==> k != Other && v == Scalar(k)
  {
  }

  lemma NestedBelow(h: Tables, x: StackValue, n: nat, k: StackValue)
    requires Nested(h, x, n) && x.Table? && x.id in h && k in h[x.id]
    ensures n > 0 && (k.Table? ==> h[x.id][k].Table?) && Nested(h, h[x.id][k], n - 1)
  {
  }

  lemma Unreadable(h: Tables, x: StackValue, n: nat, k: StackValue)
    requires x.Table? && x.id in h && n > 0 && k in h[x.id]
    requires !NamedKey(k) || !Readable(h, h[x.id][k], n - 1)
    ensures !Readable(h, x, n)
  {
  }

  // ----- positions on the stack -----

  /** The slot of an index: from the top if negative, else from the bottom. Beyond the top there is none. */
  function SlotAt(stack: seq<StackValue>, i: int): StackValue
    requires -|stack| <= i && i != 0
  {
    if i < 0 then stack[|stack| + i] else if i <= |stack| then stack[i - 1] else Other
  }

  /** What Get(i) reads: the slot, but if that is a table, the top of the stack. */
  function Source(stack: seq<StackValue>, i: int): StackValue
    requires -|stack| <= i && i != 0
  {
    if SlotAt(stack, i).Table? then stack[|stack| - 1] else SlotAt(stack, i)
  }

  /** That is what was asked for, unless a table is asked for and something else is on top. */
  lemma SourceIsSlot(stack: seq<StackValue>, i: int)
    requires -|stack| <= i && i != 0
    ensures Source(stack, i) == SlotAt(stack, i) <==>
            !SlotAt(stack, i).Table? || i == -1 || i == |stack| || stack[|stack| - 1] == SlotAt(stack, i)
  {
  }

  datatype Outcome = Got(v: GoValue) | GetError

  // ----- the machine -----

  class LuaRunner {
    var stack: seq<StackValue>
    var heap: Tables
    var created: nat        // how many tables there have been

    ghost predicate Valid()
      reads this
    {
      forall id :: id in heap ==> id < created
    }

    constructor ()
      ensures Valid() && stack == []
    {
      stack, heap, created := [], map[], 0;
    }

    // The functions of the Lua library that the bridge calls.

    method PushLua(x: StackValue)
      modifies `stack
      ensures stack == old(stack) + [x]
    {
      stack := stack + [x];
    }

    /** lua_createtable. */
    method CreateTable()
      requires Valid()
      modifies this
      ensures Valid() && created == old(created) + 1
      ensures stack == old(stack) + [Table(old(created))]
      ensures heap == old(heap)[old(created) := map[]]
    {
      heap := heap[created := map[]];
      stack := stack + [Table(created)];
      created := created + 1;
    }

    /** lua_settable(L, -3): the table below a key and a value, both of which are popped. */
    method SetTable()
      requires Valid() && |stack| >= 3
      requires stack[|stack| - 3].Table? && stack[|stack| - 3].id in heap
      requires stack[|stack| - 2] != Nil
      modifies `stack, `heap
      ensures Valid() && stack == old(stack)[..|old(stack)| - 2]
      ensures var n := |old(stack)|;
              var id, k, x := old(stack)[n - 3].id, old(stack)[n - 2], old(stack)[n - 1];
              heap == old(heap)[id := if x == Nil then old(heap)[id] - {k} else old(heap)[id][k := x]]
    {
      var n := |stack|;
      var id, k, x := stack[n - 3].id, stack[n - 2], stack[n - 1];
      heap := heap[id := if x == Nil then heap[id] - {k} else heap[id][k := x]];
      stack := stack[..n - 2];
    }

    /** lua_settop(L, -2). */
    method Drop()
      requires |stack| > 0
      modifies `stack
      ensures stack == old(stack)[..|old(stack)| - 1]
    {
      stack := stack[..|stack| - 1];
    }

    /** lua_next(L, -2): replaces the key on top by the next key and its value, or drops it at the end. */
    method Next(order: seq<StackValue>) returns (more: bool)
      requires |stack| >= 2 && stack[|stack| - 2].Table? && stack[|stack| - 2].id in heap
      requires Traverses(order, heap[stack[|stack| - 2].id])
      modifies `stack
      ensures var n := |old(stack)|;
              var base, at := old(stack)[..n - 1], After(order, old(stack)[n - 1]);
              && more == (at < |order|)
              && (more ==> order[at] in heap[old(stack)[n - 2].id]
                           && stack == base + [order[at], heap[old(stack)[n - 2].id][order[at]]])
              && (!more ==> stack == base)
    {
      var n := |stack|;
      var id, at := stack[n - 2].id, After(order, stack[n - 1]);
      more := at < |order|;
      stack := stack[..n - 1];
      if more {
        assert order[at] in order;
        stack := stack + [order[at], heap[id][order[at]]];
      }
    }

    // ----- pushing -----

    method Push(v: GoValue)
      requires Valid()
      modifies this
      ensures Valid() && created >= old(created)
      ensures |stack| == |old(stack)| + 1 && stack[..|old(stack)|] == old(stack)
      ensures Represents(heap, stack[|stack| - 1], v, false, old(created))
      ensures Extends(old(heap), heap)
    {
      PushValue(v, false);
    }

    /** push. */
    method PushValue(v: GoValue, isTableValue: bool)
      requires Valid()
      modifies this
      ensures Valid() && created >= old(created)
      ensures |stack| == |old(stack)| + 1 && stack[..|old(stack)|] == old(stack)
      ensures Represents(heap, stack[|stack| - 1], v, isTableValue, old(created))
      ensures Extends(old(heap), heap)
      decreases v, 1
    {
      match v {
        case GoNil => PushLua(NilIn(isTableValue));
        case GoString(s) => PushLua(Str(s));
        case GoBytes(s) => PushLua(Str(s));
        case GoInt(i) => PushLua(Number(i as real));
        case GoFloat(r) => PushLua(Number(r));
        case GoBool(b) => PushLua(Boolean(b));
        case GoUintptr(p) => PushLua(Light(p));
        case GoMap(m) => PushMap(v);
        case GoSlice(_) => PushSlice(v);
        case GoPointer(t) => PushValue(t, isTableValue);
        case _ => PushLua(NilIn(isTableValue));
      }
    }

    /** The map case of push. The keys come in any order. */
    method PushMap(v: GoValue)
      requires Valid() && v.GoMap?
      modifies this
      ensures Valid() && created >= old(created)
      ensures |stack| == |old(stack)| + 1 && stack[..|old(stack)|] == old(stack)
      ensures Represents(heap, stack[|stack| - 1], v, false, old(created))
      ensures Extends(old(heap), heap)
      decreases v, 0
    {
      hide Represents, MapSoFar, Extends;
      var id := created;
      CreateTable();
      ExtendsNew(old(heap), heap, id);
      var keys := v.m.Keys;
      MapBegins(heap, id, v.m);
      while keys != {}
        invariant keys <= v.m.Keys
        invariant Valid() && created > id && id in heap
        invariant stack == old(stack) + [Table(id)]
        invariant MapSoFar(heap, id, v.m, keys)
        invariant Extends(old(heap), heap)
        decreases |keys|
      {
        var s :| s in keys;
        ghost var h, created' := heap, created;
        PushLua(Str(s));
        PushValue(v.m[s], true);
        ExtendsHas(h, heap, id);
        ghost var h', x := heap, stack[|stack| - 1];
        LowerBound(h', x, v.m[s], true, created', id + 1);
        assert stack == old(stack) + [Table(id), Str(s), x];
        SetTable();
        MapStep(h, h', heap, id, v.m, keys, s, x);
        ExtendsStep(old(heap), h, h', heap, id);
        keys := keys - {s};
      }
      MapEnds(heap, id, v);
    }

    /** The slice case of pushReflect. */
    method PushSlice(v: GoValue)
      requires Valid() && v.GoSlice?
      modifies this
      ensures Valid() && created >= old(created)
      ensures |stack| == |old(stack)| + 1 && stack[..|old(stack)|] == old(stack)
      ensures Represents(heap, stack[|stack| - 1], v, false, old(created))
      ensures Extends(old(heap), heap)
      decreases v, 0
    {
      hide Represents, SliceSoFar, Extends;
      var id := created;
      CreateTable();
      ExtendsNew(old(heap), heap, id);
      SliceBegins(heap, id, v.vs);
      var i := 0;
      while i < |v.vs|
        invariant 0 <= i <= |v.vs|
        invariant Valid() && created > id && id in heap
        invariant stack == old(stack) + [Table(id)]
        invariant SliceSoFar(heap, id, v.vs, i)
        invariant Extends(old(heap), heap)
      {
        ghost var h, created' := heap, created;
        PushLua(Index(i));
        PushValue(v.vs[i], true);
        ExtendsHas(h, heap, id);
        ghost var h', x := heap, stack[|stack| - 1];
        LowerBound(h', x, v.vs[i], true, created', id + 1);
        SetTable();
        SliceStep(h, h', heap, id, v.vs, i, x);
        ExtendsStep(old(heap), h, h', heap, id);
        i := i + 1;
      }
      SliceEnds(heap, id, v);
    }

    // ----- getting -----

    /** What lua_next will do from now on: any order of the keys. */
    method ChooseOrder(t: TableEntries) returns (order: seq<StackValue>)
      requires Nil !in t
      ensures Traverses(order, t)
    {
      order := [];
      var rest := t.Keys;
      while rest != {}
        invariant rest <= t.Keys && Heaps.NoDuplicates(order)
        invariant forall k :: k in order <==> k in t && k !in rest
        decreases |rest|
      {
        var k :| k in rest;
        order := order + [k];
        rest := rest - {k};
      }
    }

    /** The cases of Get but for tables. */
    method GetScalar(i: int) returns (res: Outcome)
      requires -|stack| <= i && i != 0 && !SlotAt(stack, i).Table?
      ensures res == if SlotAt(stack, i) == Other then GetError else Got(Scalar(SlotAt(stack, i)))
    {
      match SlotAt(stack, i)
      case Nil => res := Got(GoNil);
      case Str(s) => res := Got(GoString(CString(s)));
      case Number(r) => res := Got(GoFloat(r));
      case Boolean(b) => res := Got(GoBool(b));
      case Light(p) => res := Got(if p != 0 then GoUintptr(p) else GoNil);
      case _ => res := GetError;
    }

    /**
     * Get, for a value in which tables nest at most `n` deep. It succeeds exactly if the value is
     * readable, and then leaves the stack as it was. An error found inside a table leaves something
     * behind on the stack.
     */
    method Get(i: int, ghost n: nat) returns (res: Outcome)
      requires -|stack| <= i && i != 0 && (SlotAt(stack, i).Table? ==> Source(stack, i).Table?)
      requires Nested(heap, Source(stack, i), n)
      modifies `stack
      ensures var x := Source(old(stack), i);
              && (res.Got? <==> Readable(heap, x, n))
              && (res.Got? ==> stack == old(stack) && Reads(heap, x, n, res.v))
              && (res.GetError? ==> |stack| >= |old(stack)| && stack[..|old(stack)|] == old(stack)
                                    && (stack == old(stack) <==> !x.Table?))
      decreases n, 2
    {
      hide Scalar, KeyName;
      if SlotAt(stack, i).Table? {
        res := GetTable(n);
      } else {
        res := GetScalar(i);
      }
    }

    /** Pop. After an error inside a table, it is not the table that is dropped. */
    method Pop(ghost n: nat) returns (res: Outcome)
      requires |stack| > 0 && Nested(heap, stack[|stack| - 1], n)
      modifies `stack
      ensures var x, base := old(stack)[|old(stack)| - 1], old(stack)[..|old(stack)| - 1];
              && (res.Got? <==> Readable(heap, x, n))
              && (res.Got? ==> stack == base && Reads(heap, x, n, res.v))
              && (res.GetError? ==> |stack| >= |base| && stack[..|base|] == base && (stack == base <==> !x.Table?))
      decreases n, 3
    {
      hide Nested, Readable, Reads;
      res := Get(-1, n);
      Drop();
    }

    /** Get on a heap that is known to have no cycles in the value read. */
    method GetAcyclic(i: int) returns (res: Outcome)
      requires -|stack| <= i && i != 0 && (SlotAt(stack, i).Table? ==> Source(stack, i).Table?)
      requires Closed(heap) && Acyclic(heap, Source(stack, i))
      requires Source(stack, i).Table? ==> Source(stack, i).id in heap
      modifies `stack
      ensures var x, n := Source(old(stack), i), |heap|;
              && (res.Got? <==> Readable(heap, x, n))
              && (res.Got? ==> stack == old(stack) && Reads(heap, x, n, res.v))
              && (res.GetError? ==> |stack| >= |old(stack)| && stack[..|old(stack)|] == old(stack)
                                    && (stack == old(stack) <==> !x.Table?))
    {
      hide Readable, Reads, Nested;
      NestedIffAcyclic(heap, Source(stack, i));
      res := Get(i, |heap|);
    }

    /** The switch over the type of a key in Get. */
    method Store(result: map<bytes, GoValue>, key: GoValue, val: GoValue, ghost k: StackValue)
      returns (ok: bool, r: map<bytes, GoValue>)
      requires if k.Table? then key.GoMap? else k != Other && key == Scalar(k)
      ensures ok == NamedKey(k)
      ensures r == if ok then result[KeyName(k) := val] else result
    {
      hide Itoa, Truncated, CString;
      match key {
        case GoString(s) => return true, result[s := val];
        case GoFloat(x) => return true, result[Itoa(Truncated(x)) := val];
        case _ => return false, result;
      }
    }

    /** One turn of the loop in Get: the key `k` and its value are on top, and the value is popped. */
    method GetEntry(result: map<bytes, GoValue>, ghost k: StackValue, ghost n: nat)
      returns (ok: bool, r: map<bytes, GoValue>, ghost val: GoValue)
      requires |stack| >= 2 && stack[|stack| - 2] == k && (k.Table? ==> stack[|stack| - 1].Table?)
      requires n > 0 && Nested(heap, stack[|stack| - 1], n - 1)
      modifies `stack
      ensures var x, base := old(stack)[|old(stack)| - 1], old(stack)[..|old(stack)| - 1];
              && (ok <==> NamedKey(k) && Readable(heap, x, n - 1))
              && (ok ==> stack == base && Reads(heap, x, n - 1, val) && r == result[KeyName(k) := val])
              && (!ok ==> |stack| >= |base| && stack[..|base|] == base)
      decreases n, 0
    {
      hide Nested, Readable, Scalar, KeyName;
      r, val := result, GoNil;
      if !k.Table? {
        KeyParts(heap, k, n - 1);
      }
      var key := Get(-2, n - 1);
      if key.GetError? {
        return false, result, GoNil;
      }
      var value := Pop(n - 1);
      if value.GetError? {
        return false, result, GoNil;
      }
      val := value.v;
      ok, r := Store(result, key.v, value.v, k);
    }

    /** The table case of Get, which reads the top of the stack. */
    method GetTable(ghost n: nat) returns (res: Outcome)
      requires |stack| > 0 && stack[|stack| - 1].Table? && Nested(heap, stack[|stack| - 1], n)
      modifies `stack
      ensures var x := old(stack)[|old(stack)| - 1];
              && (res.Got? <==> Readable(heap, x, n))
              && (res.Got? ==> stack == old(stack) && Reads(heap, x, n, res.v))
              && (res.GetError? ==> |stack| > |old(stack)| && stack[..|old(stack)|] == old(stack))
      decreases n, 1
    {
      hide Nested, Readable, Reads, ResultSoFar, KeyName, Traverses, After, NamedKey;
      var id := stack[|stack| - 1].id;
      ghost var i, x := 0, stack[|stack| - 1];
      ResultBegins(heap, x, n, []);
      var order := ChooseOrder(heap[id]);
      var result: map<bytes, GoValue> := map[];
      ResultBegins(heap, x, n, order);
      AfterNil(order);
      PushLua(Nil);
      var more := Next(order);
      while more
        invariant 0 <= i <= |order| && more == (i < |order|)
        invariant if more then stack == old(stack) + [order[i], heap[id][order[i]]] else stack == old(stack)
        invariant ResultSoFar(result, heap, x, n, order, i)
        decreases |order| - i
      {
        AfterAt(order, heap[id], i);
        NestedBelow(heap, x, n, order[i]);
        ghost var before := result;
        var ok;
        ghost var val;
        ok, result, val := GetEntry(result, order[i], n);
        if !ok {
          Unreadable(heap, x, n, order[i]);
          assert stack[..|old(stack)| + 1] == old(stack) + [order[i]];
          assert stack[..|old(stack)|] == stack[..|old(stack)| + 1][..|old(stack)|];
          return GetError;
        }
        ResultStep(before, heap, x, n, order, i, val);
        i := i + 1;
        more := Next(order);
      }
      ResultEnds(result, heap, x, n, order);
      res := Got(GoMap(result));
    }

    /** Pushing and popping: the stack is left as it was, and the value comes back. */
    method PushAndPop(v: GoValue) returns (res: Outcome)
      requires Valid() && NulFreeValue(v)
      modifies this
      ensures stack == old(stack)
      ensures res == Got(Returned(v))
      ensures Native(v) ==> res == Got(v)
    {
      hide Represents, Returned, NulFreeValue, Native, Extends, Nested, Readable, Reads, NamesDifferWithin;
      Push(v);
      ghost var x := stack[|stack| - 1];
      PushedIsReadBack(heap, x, v, false, old(created), created, created - old(created));
      res := Pop(created - old(created));
      OneReading(heap, x, created - old(created), res.v, Returned(v));
      if Native(v) {
        NativeReturned(v);
      }
    }

    /**
     * A run of Get that reads another table than the one asked for: with `b` pushed on top of `a`,
     * asking for the slot of `a` gives `b`.
     */
    method GetUnderTop(a: GoValue, b: GoValue) returns (res: Outcome)
      requires Valid() && a.GoMap? && b.GoMap? && NulFreeValue(b)
      modifies this
      ensures |stack| == |old(stack)| + 2 && Represents(heap, stack[|stack| - 2], a, false, old(created))
      ensures res == Got(Returned(b))
    {
      Push(a);
      ghost var x, h, low := stack[|stack| - 1], heap, created;
      Push(b);
      RepresentsKept(h, heap, x, a, false, old(created));
      ghost var y, n := stack[|stack| - 1], created - low;
      assert SlotAt(stack, -2) == x && x.Table? && y.Table?;
      hide Represents, Returned, NulFreeValue, Nested, Readable, Reads, NamesDifferWithin;
      PushedIsReadBack(heap, y, b, false, low, created, n);
      res := Get(-2, n);
      OneReading(heap, y, n, res.v, Returned(b));
    }
  }
}
