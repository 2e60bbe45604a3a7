/** Lua values and tables, and how cjson tells arrays from objects. */
module LuaHeap {
  import opened Bytes
  import opened Decimals

  type TableId = nat

  datatype LuaValue =
    | LNil
    | LBoolean(b: bool)
    | LNumber(d: Decimal)
    | LString(s: bytes)
    | LNull                  // the light userdata NULL
    | LLight(address: nat)   // any other light userdata
    | LTable(id: TableId)
    | LOther                 // functions, userdata, threads

  type LuaTable = map<LuaValue, LuaValue>
  type Heap = map<TableId, LuaTable>

  /** The order in which lua_next visits the keys of each table. */
  type Order = map<TableId, seq<LuaValue>>

  ghost predicate ValueOk(h: Heap, v: LuaValue) {
    match v
    case LNumber(d) => Normal(d) && DoubleRange(d)
    case LTable(id) => id in h
    case _ => true
  }

  ghost predicate TableOk(h: Heap, t: LuaTable) {
    forall k :: k in t ==> k != LNil && t[k] != LNil && ValueOk(h, k) && ValueOk(h, t[k])
  }

  ghost predicate NoDuplicates<T>(s: seq<T>) {
    forall i, j :: 0 <= i < j < |s| ==> s[i] != s[j]
  }

  /** A traversal visits every key once, in some order. */
  ghost predicate Visits(keys: seq<LuaValue>, t: LuaTable) {
    NoDuplicates(keys) && forall k :: k in keys <==> k in t
  }

  ghost predicate HeapOk(h: Heap, order: Order) {
    && (forall id :: id in h ==> TableOk(h, h[id]))
    && (forall id :: id in h ==> id in order && Visits(order[id], h[id]))
  }

  /** lua_rawgeti. */
  function RawGet(t: LuaTable, i: nat): LuaValue {
    if LNumber(FromInt(i)) in t then t[LNumber(FromInt(i))] else LNil
  }

  // ----- array or object -----

  /** An integer of at least 1. */
  predicate IsIndex(k: LuaValue) {
    k.LNumber? && k.d.m != 0 && IsInteger(k.d) && ToInt(k.d) >= 1
  }

  /** What the loop of lua_array_length has found, or that it has given up. */
  datatype KeyScan = NotArray | KeyScan(max: nat, items: nat)

  function ScanKeys(keys: seq<LuaValue>): (r: KeyScan)
    decreases |keys|
  {
    if |keys| == 0 then KeyScan(0, 0) else
      var k := keys[|keys| - 1];
      match ScanKeys(keys[..|keys| - 1])
      case NotArray => NotArray
      case KeyScan(max, items) =>
        if IsIndex(k) then KeyScan(if ToInt(k.d) > max then ToInt(k.d) else max, items + 1) else NotArray
  }

  datatype SparseConfig = SparseConfig(convert: bool, ratio: nat, safe: nat)

  /** -1 for an object, otherwise the length of the array; or the error for a too sparse one. */
  datatype ArrayLength = Length(n: int) | ExcessivelySparse

  predicate TooSparse(cfg: SparseConfig, max: nat, items: nat) {
    cfg.ratio > 0 && max > items * cfg.ratio && max > cfg.safe
  }

  function LuaArrayLength(cfg: SparseConfig, keys: seq<LuaValue>): ArrayLength {
    match ScanKeys(keys)
    case NotArray => Length(-1)
    case KeyScan(max, items) =>
      if TooSparse(cfg, max, items) then
        if cfg.convert then Length(-1) else ExcessivelySparse
      else Length(max)
  }

  ghost predicate AllIndices(keys: seq<LuaValue>) {
    forall j :: 0 <= j < |keys| ==> IsIndex(keys[j])
  }

  /** What a completed scan means: all keys are indices, counted, and `max` is the largest. */
  lemma {:induction false} ScanKeysMeaning(keys: seq<LuaValue>)
    ensures ScanKeys(keys).KeyScan? <==> AllIndices(keys)
    ensures ScanKeys(keys).KeyScan? ==>
              var r := ScanKeys(keys);
              && r.items == |keys|
              && (forall j :: 0 <= j < |keys| ==> ToInt(keys[j].d) <= r.max)
              && (if |keys| == 0 then r.max == 0
                  else exists j :: 0 <= j < |keys| && ToInt(keys[j].d) == r.max)
    decreases |keys|
  {
    if |keys| == 0 {
    } else {
      var n := |keys| - 1;
      var init := keys[..n];
      ScanKeysMeaning(init);
      assert keys == init + [keys[n]];
      if ScanKeys(init).KeyScan? && IsIndex(keys[n]) {
        if ToInt(keys[n].d) <= ScanKeys(init).max {
          var j :| 0 <= j < n && ToInt(init[j].d) == ScanKeys(init).max;
          assert ToInt(keys[j].d) == ScanKeys(init).max;
        }
      }
    }
  }

  lemma {:induction false} SequenceSize<T>(s: seq<T>)
    requires NoDuplicates(s)
    ensures |set x | x in s| == |s|
    decreases |s|
  {
    if |s| == 0 {
    } else {
      var n := |s| - 1;
      SequenceSize(s[..n]);
      assert (set x | x in s) == (set x | x in s[..n]) + {s[n]};
    }
  }

  lemma SameKeysSameSize(a: seq<LuaValue>, b: seq<LuaValue>)
    requires NoDuplicates(a) && NoDuplicates(b) && forall k :: k in a <==> k in b
    ensures |a| == |b|
  {
    SequenceSize(a);
    SequenceSize(b);
    assert (set k | k in a) == (set k | k in b);
  }

  /** The decision does not depend on the order of the traversal. */
  lemma ArrayLengthOrderFree(cfg: SparseConfig, a: seq<LuaValue>, b: seq<LuaValue>)
    requires NoDuplicates(a) && NoDuplicates(b) && forall k :: k in a <==> k in b
    ensures LuaArrayLength(cfg, a) == LuaArrayLength(cfg, b)
  {
    SameKeysSameSize(a, b);
    ScanKeysMeaning(a);
    ScanKeysMeaning(b);
    AllIndicesTransfer(a, b);
    AllIndicesTransfer(b, a);
    if ScanKeys(a).KeyScan? {
      MaxTransfer(a, b);
      MaxTransfer(b, a);
    }
  }

  lemma AllIndicesTransfer(a: seq<LuaValue>, b: seq<LuaValue>)
    requires forall k :: k in b ==> k in a
    ensures AllIndices(a) ==> AllIndices(b)
  {
    if AllIndices(a) {
      forall j | 0 <= j < |b|
        ensures IsIndex(b[j])
      {
        assert b[j] in a;
      }
    }
  }

  lemma MaxTransfer(a: seq<LuaValue>, b: seq<LuaValue>)
    requires AllIndices(a) && AllIndices(b) && forall k :: k in b ==> k in a
    ensures ScanKeys(a).KeyScan? && ScanKeys(b).KeyScan? && ScanKeys(b).max <= ScanKeys(a).max
  {
    ScanKeysMeaning(a);
    ScanKeysMeaning(b);
    if |b| > 0 {
      var j :| 0 <= j < |b| && ToInt(b[j].d) == ScanKeys(b).max;
      assert b[j] in a;
    }
  }

  // ----- the pigeonhole argument -----

  function Range(n: nat): (s: set<int>)
    ensures forall x :: x in s <==> 1 <= x <= n
  {
    if n == 0 then {} else Range(n - 1) + {n}
  }

  lemma {:induction false} RangeSize(n: nat)
    ensures |Range(n)| == n
  {
    if n == 0 {
    } else {
      RangeSize(n - 1);
      assert Range(n) == Range(n - 1) + {n};
    }
  }

  lemma {:induction false} SubsetSize<T>(a: set<T>, b: set<T>)
    requires a <= b
    ensures |a| <= |b| && (|a| == |b| <==> a == b)
    decreases b
  {
    if a == {} {
    } else {
      var x :| x in a;
      SubsetSize(a - {x}, b - {x});
      assert a == (a - {x}) + {x} && b == (b - {x}) + {x};
    }
  }

  /** The indices among the keys, as integers. */
  function Indices(keys: seq<LuaValue>): seq<int>
    requires AllIndices(keys)
  {
    seq(|keys|, j requires 0 <= j < |keys| => ToInt(keys[j].d))
  }

  lemma IndicesDistinct(keys: seq<LuaValue>)
    requires AllIndices(keys) && NoDuplicates(keys)
    requires forall j :: 0 <= j < |keys| ==> Normal(keys[j].d)
    ensures NoDuplicates(Indices(keys))
  {
    forall i, j | 0 <= i < j < |keys|
      ensures Indices(keys)[i] != Indices(keys)[j]
    {
      FromIntOfToInt(keys[i].d);
      FromIntOfToInt(keys[j].d);
    }
  }

  /**
   * Pigeonhole: there are never more items than the largest index, and exactly as many when the
   * keys are 1 to n.
   */
  lemma DenseIffCounted(keys: seq<LuaValue>)
    requires AllIndices(keys) && NoDuplicates(keys)
    requires forall j :: 0 <= j < |keys| ==> Normal(keys[j].d)
    ensures var r := ScanKeys(keys);
            && r.KeyScan? && r.items <= r.max
            && (r.items == r.max <==> forall i :: i in Indices(keys) <==> 1 <= i <= r.max)
  {
    ScanKeysMeaning(keys);
    IndicesDistinct(keys);
    var r := ScanKeys(keys);
    var indices := Indices(keys);
    var all := set i | i in indices;
    assert forall i :: i in indices ==> 1 <= i <= r.max by {
      forall i | i in indices
        ensures 1 <= i <= r.max
      {
        var j :| 0 <= j < |keys| && indices[j] == i;
        assert IsIndex(keys[j]);
      }
    }
    SequenceSize(indices);
    RangeSize(r.max);
    SubsetSize(all, Range(r.max));
    if all == Range(r.max) {
      forall i
        ensures i in indices <==> 1 <= i <= r.max
      {
        assert i in indices <==> i in all;
      }
    }
  }

  /** How long an accepted array can get, and that with ratio 1 it is dense or short. */
  lemma AcceptedArrays(cfg: SparseConfig, keys: seq<LuaValue>)
    requires LuaArrayLength(cfg, keys).Length? && LuaArrayLength(cfg, keys).n > 0
    requires NoDuplicates(keys) && forall j :: 0 <= j < |keys| && keys[j].LNumber? ==> Normal(keys[j].d)
    ensures AllIndices(keys)
    ensures var n := LuaArrayLength(cfg, keys).n;
            && (exists j :: 0 <= j < |keys| && ToInt(keys[j].d) == n)
            && (forall j :: 0 <= j < |keys| ==> ToInt(keys[j].d) <= n)
            && (cfg.ratio > 0 ==> n <= cfg.safe || n <= |keys| * cfg.ratio)
            && (cfg.ratio == 1 && n > cfg.safe ==> forall i :: i in Indices(keys) <==> 1 <= i <= n)
  {
    ScanKeysMeaning(keys);
    DenseIffCounted(keys);
  }

  /** A number is an index exactly if it is one of the integers from 1 on. */
  lemma IndexMeans(d: Decimal)
    requires Normal(d)
    ensures IsIndex(LNumber(d)) <==> exists i: nat :: i >= 1 && d == FromInt(i)
  {
    if IsIndex(LNumber(d)) {
      FromIntOfToInt(d);
    }
    if i: nat :| i >= 1 && d == FromInt(i) {
      IntegersEmbed(i);
    }
  }

  /** Some index is too large for the number of keys, and not tolerated. */
  ghost predicate Sparse(cfg: SparseConfig, keys: seq<LuaValue>)
    requires AllIndices(keys)
  {
    cfg.ratio > 0 &&
    exists j :: 0 <= j < |keys| && ToInt(keys[j].d) > |keys| * cfg.ratio && ToInt(keys[j].d) > cfg.safe
  }

  /** The whole decision: object, error, or an array as long as its largest index. */
  lemma ArrayDecision(cfg: SparseConfig, keys: seq<LuaValue>)
    ensures var r := LuaArrayLength(cfg, keys);
            if !AllIndices(keys) then r == Length(-1)
            else if Sparse(cfg, keys) then r == if cfg.convert then Length(-1) else ExcessivelySparse
            else
              && r.Length? && r.n >= 0
              && (r.n == 0 <==> keys == [])
              && (forall j :: 0 <= j < |keys| ==> ToInt(keys[j].d) <= r.n)
              && (keys != [] ==> exists j :: 0 <= j < |keys| && ToInt(keys[j].d) == r.n)
  {
    ScanKeysMeaning(keys);
    if AllIndices(keys) {
      var max := ScanKeys(keys).max;
      if Sparse(cfg, keys) {
        var j :| 0 <= j < |keys| && ToInt(keys[j].d) > |keys| * cfg.ratio && ToInt(keys[j].d) > cfg.safe;
        assert max >= ToInt(keys[j].d);
      }
      if |keys| > 0 {
        var j :| 0 <= j < |keys| && ToInt(keys[j].d) == max;
        assert IsIndex(keys[j]);
      }
    }
  }
}
