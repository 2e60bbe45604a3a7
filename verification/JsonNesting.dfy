/**
 * Which tables of an arbitrary, possibly cyclic, heap can be encoded: exactly those from which no
 * chain of tables is longer than the limit or leads to a table that cannot be written.
 */
module JsonNesting {
  import opened Decimals
  import opened JsonEncoder
  import opened LuaHeap

  ghost predicate Edge(h: Heap, a: TableId, b: TableId) {
    a in h && exists k :: k in h[a] && h[a][k] == LTable(b)
  }

  /** Tables, each a value of the one before. */
  ghost predicate Chain(h: Heap, ids: seq<TableId>) {
    && |ids| >= 1
    && (forall i :: 0 <= i < |ids| ==> ids[i] in h)
    && (forall i :: 0 <= i < |ids| - 1 ==> Edge(h, ids[i], ids[i + 1]))
  }

  predicate Supported(v: LuaValue) {
    !v.LLight? && !v.LOther?
  }

  /** A table that can be written as far as its own keys and values are concerned. */
  ghost predicate Writable(h: Heap, order: Order, cfg: EncodeConfig, id: TableId)
    requires id in h && id in order
  {
    var r := LuaArrayLength(cfg.sparse, order[id]);
    && r.Length?
    && (r.n <= 0 ==> forall k :: k in h[id] ==> k.LNumber? || k.LString?)
    && forall k :: k in h[id] ==> Supported(h[id][k])
  }

  // ----- an encoded table has all its values encoded -----

  lemma {:induction false} ElementsEncoded(h: Heap, order: Order, cfg: EncodeConfig, depth: nat,
                                           id: TableId, i: nat, n: nat)
    requires HeapOk(h, order) && ConfigOk(cfg) && id in h && depth <= cfg.maxDepth && 1 <= i <= n
    ensures EncodeElements(h, order, cfg, depth, id, i, n).Encoded? <==>
            forall j :: i <= j <= n ==> EncodeData(h, order, cfg, depth, RawGet(h[id], j)).Encoded?
    decreases n - i
  {
    hide EncodeData;
    if i == n {
    } else {
      ElementsEncoded(h, order, cfg, depth, id, i + 1, n);
    }
  }

  ghost predicate MemberEncoded(h: Heap, order: Order, cfg: EncodeConfig, depth: nat, id: TableId, j: nat)
    requires HeapOk(h, order) && ConfigOk(cfg) && id in h && depth <= cfg.maxDepth && j < |order[id]|
  {
    && EncodeKey(cfg, order[id][j]).Encoded?
    && order[id][j] in h[id]
    && EncodeData(h, order, cfg, depth, h[id][order[id][j]]).Encoded?
  }

  lemma {:induction false} MembersEncoded(h: Heap, order: Order, cfg: EncodeConfig, depth: nat,
                                          id: TableId, i: nat)
    requires HeapOk(h, order) && ConfigOk(cfg) && id in h && depth <= cfg.maxDepth && i < |order[id]|
    ensures EncodeMembers(h, order, cfg, depth, id, i).Encoded? <==>
            forall j :: i <= j < |order[id]| ==> MemberEncoded(h, order, cfg, depth, id, j)
    decreases |order[id]| - i
  {
    hide EncodeData, EncodeKey;
    assert order[id][i] in order[id];
    var here := MemberEncoded(h, order, cfg, depth, id, i);
    assert here <==> EncodeKey(cfg, order[id][i]).Encoded?
                     && EncodeData(h, order, cfg, depth, h[id][order[id][i]]).Encoded?;
    if i + 1 == |order[id]| {
    } else {
      MembersEncoded(h, order, cfg, depth, id, i + 1);
    }
  }

  /** Every value of a table is encoded, one level deeper. */
  ghost predicate ValuesEncoded(h: Heap, order: Order, cfg: EncodeConfig, depth: nat, id: TableId)
    requires HeapOk(h, order) && ConfigOk(cfg) && id in h && depth <= cfg.maxDepth
  {
    forall k :: k in h[id] ==> ValueOk(h, h[id][k]) && EncodeData(h, order, cfg, depth, h[id][k]).Encoded?
  }

  lemma ArrayKey(h: Heap, order: Order, cfg: SparseConfig, id: TableId, k: LuaValue)
    requires HeapOk(h, order) && id in h && k in h[id]
    requires LuaArrayLength(cfg, order[id]).Length? && LuaArrayLength(cfg, order[id]).n > 0
    ensures k.LNumber? && IsIndex(k) && 1 <= ToInt(k.d) <= LuaArrayLength(cfg, order[id]).n
    ensures RawGet(h[id], ToInt(k.d)) == h[id][k]
  {
    var keys := order[id];
    ScanKeysMeaning(keys);
    var j :| 0 <= j < |keys| && keys[j] == k;
    FromIntOfToInt(k.d);
  }

  /** A table is encoded exactly when it is writable and all its values are encoded. */
  lemma TableEncodedIff(h: Heap, order: Order, cfg: EncodeConfig, depth: nat, id: TableId)
    requires HeapOk(h, order) && ConfigOk(cfg) && id in h && depth <= cfg.maxDepth
    ensures EncodeData(h, order, cfg, depth, LTable(id)).Encoded? <==>
            depth + 1 <= cfg.maxDepth && Writable(h, order, cfg, id)
            && ValuesEncoded(h, order, cfg, depth + 1, id)
  {
    if depth + 1 <= cfg.maxDepth {
      var r := LuaArrayLength(cfg.sparse, order[id]);
      if r.Length? && r.n > 0 {
        ArrayEncodedIff(h, order, cfg, depth, id, r.n);
      } else if r.Length? {
        ObjectEncodedIff(h, order, cfg, depth, id);
      }
    }
  }

  lemma SupportedIfEncoded(h: Heap, order: Order, cfg: EncodeConfig, depth: nat, v: LuaValue)
    requires HeapOk(h, order) && ConfigOk(cfg) && ValueOk(h, v) && depth <= cfg.maxDepth
    ensures EncodeData(h, order, cfg, depth, v).Encoded? ==> Supported(v)
    ensures Supported(v) && !v.LTable? ==> EncodeData(h, order, cfg, depth, v).Encoded?
  {
  }

  lemma ValuesAreOk(h: Heap, order: Order, id: TableId)
    requires HeapOk(h, order) && id in h
    ensures forall k :: k in h[id] ==> ValueOk(h, h[id][k])
    ensures id in order && (forall j :: 0 <= j < |order[id]| ==> order[id][j] in h[id])
    ensures forall k :: k in h[id] ==> k in order[id]
  {
    forall j | 0 <= j < |order[id]|
      ensures order[id][j] in h[id]
    {
      assert order[id][j] in order[id];
    }
  }

  lemma ValuesSupported(h: Heap, order: Order, cfg: EncodeConfig, depth: nat, id: TableId)
    requires HeapOk(h, order) && ConfigOk(cfg) && id in h && depth <= cfg.maxDepth
    requires ValuesEncoded(h, order, cfg, depth, id)
    ensures forall k :: k in h[id] ==> Supported(h[id][k])
  {
    hide EncodeData, HeapOk;
    forall k | k in h[id]
      ensures Supported(h[id][k])
    {
      SupportedIfEncoded(h, order, cfg, depth, h[id][k]);
    }
  }

  lemma ArrayEncodedIff(h: Heap, order: Order, cfg: EncodeConfig, depth: nat, id: TableId, n: nat)
    requires HeapOk(h, order) && ConfigOk(cfg) && id in h && depth + 1 <= cfg.maxDepth
    requires LuaArrayLength(cfg.sparse, order[id]) == Length(n) && n > 0
    ensures EncodeData(h, order, cfg, depth, LTable(id)).Encoded? <==>
            Writable(h, order, cfg, id) && ValuesEncoded(h, order, cfg, depth + 1, id)
  {
    hide EncodeElements, LuaArrayLength;
    ElementsEncoded(h, order, cfg, depth + 1, id, 1, n);
    ValuesAreOk(h, order, id);
    if EncodeElements(h, order, cfg, depth + 1, id, 1, n).Encoded? {
      ArrayForward(h, order, cfg, depth + 1, id, n);
    }
    if ValuesEncoded(h, order, cfg, depth + 1, id) {
      ArrayBackward(h, order, cfg, depth + 1, id, n);
    }
  }

  lemma ArrayForward(h: Heap, order: Order, cfg: EncodeConfig, depth: nat, id: TableId, n: nat)
    requires HeapOk(h, order) && ConfigOk(cfg) && id in h && depth <= cfg.maxDepth
    requires LuaArrayLength(cfg.sparse, order[id]) == Length(n) && n > 0
    requires forall j :: 1 <= j <= n ==> EncodeData(h, order, cfg, depth, RawGet(h[id], j)).Encoded?
    ensures Writable(h, order, cfg, id) && ValuesEncoded(h, order, cfg, depth, id)
  {
    hide EncodeData, LuaArrayLength, HeapOk, RawGet;
    ValuesAreOk(h, order, id);
    forall k | k in h[id]
      ensures EncodeData(h, order, cfg, depth, h[id][k]).Encoded?
    {
      ArrayKey(h, order, cfg.sparse, id, k);
    }
    ValuesSupported(h, order, cfg, depth, id);
  }

  lemma ArrayBackward(h: Heap, order: Order, cfg: EncodeConfig, depth: nat, id: TableId, n: nat)
    requires HeapOk(h, order) && ConfigOk(cfg) && id in h && depth <= cfg.maxDepth
    requires ValuesEncoded(h, order, cfg, depth, id)
    ensures forall j :: 1 <= j <= n ==> EncodeData(h, order, cfg, depth, RawGet(h[id], j)).Encoded?
  {
    forall j | 1 <= j <= n
      ensures EncodeData(h, order, cfg, depth, RawGet(h[id], j)).Encoded?
    {
      if LNumber(FromInt(j)) !in h[id] {
        SupportedIfEncoded(h, order, cfg, depth, LNil);
      }
    }
  }

  lemma ObjectEncodedIff(h: Heap, order: Order, cfg: EncodeConfig, depth: nat, id: TableId)
    requires HeapOk(h, order) && ConfigOk(cfg) && id in h && depth + 1 <= cfg.maxDepth
    requires LuaArrayLength(cfg.sparse, order[id]).Length? && LuaArrayLength(cfg.sparse, order[id]).n <= 0
    ensures EncodeData(h, order, cfg, depth, LTable(id)).Encoded? <==>
            Writable(h, order, cfg, id) && ValuesEncoded(h, order, cfg, depth + 1, id)
  {
    hide EncodeMembers, LuaArrayLength, MemberEncoded;
    ValuesAreOk(h, order, id);
    if |order[id]| > 0 {
      MembersEncoded(h, order, cfg, depth + 1, id, 0);
      ObjectMembersIff(h, order, cfg, depth + 1, id);
    } else {
      NoKeys(h, order, id);
    }
  }

  lemma NoKeys(h: Heap, order: Order, id: TableId)
    requires HeapOk(h, order) && id in h && |order[id]| == 0
    ensures h[id] == map[]
  {
    ValuesAreOk(h, order, id);
  }

  lemma ObjectMembersIff(h: Heap, order: Order, cfg: EncodeConfig, depth: nat, id: TableId)
    requires HeapOk(h, order) && ConfigOk(cfg) && id in h && depth <= cfg.maxDepth
    requires LuaArrayLength(cfg.sparse, order[id]).Length? && LuaArrayLength(cfg.sparse, order[id]).n <= 0
    ensures (forall j :: 0 <= j < |order[id]| ==> MemberEncoded(h, order, cfg, depth, id, j)) <==>
            Writable(h, order, cfg, id) && ValuesEncoded(h, order, cfg, depth, id)
  {
    hide EncodeData, LuaArrayLength, HeapOk;
    ValuesAreOk(h, order, id);
    if forall j :: 0 <= j < |order[id]| ==> MemberEncoded(h, order, cfg, depth, id, j) {
      forall k | k in h[id]
        ensures (k.LNumber? || k.LString?) && EncodeData(h, order, cfg, depth, h[id][k]).Encoded?
      {
        var j :| 0 <= j < |order[id]| && order[id][j] == k;
        assert MemberEncoded(h, order, cfg, depth, id, j);
      }
      ValuesSupported(h, order, cfg, depth, id);
    }
  }

  // ----- chains -----

  /** Along every chain from an encoded table, tables are encoded, at the depth they stand. */
  lemma {:induction false} EncodedChain(h: Heap, order: Order, cfg: EncodeConfig, depth: nat, ids: seq<TableId>)
    requires HeapOk(h, order) && ConfigOk(cfg) && depth <= cfg.maxDepth && Chain(h, ids)
    requires EncodeData(h, order, cfg, depth, LTable(ids[0])).Encoded?
    ensures depth + |ids| <= cfg.maxDepth
    ensures ids[|ids| - 1] in order && Writable(h, order, cfg, ids[|ids| - 1])
    ensures EncodeData(h, order, cfg, depth + |ids| - 1, LTable(ids[|ids| - 1])).Encoded?
    decreases |ids|
  {
    hide EncodeData, Writable;
    TableEncodedIff(h, order, cfg, depth, ids[0]);
    if |ids| == 1 {
    } else {
      assert Edge(h, ids[0], ids[1]);
      var rest := ids[1..];
      forall i | 0 <= i < |rest| - 1
        ensures Edge(h, rest[i], rest[i + 1])
      {
        assert Edge(h, ids[i + 1], ids[i + 1 + 1]);
      }
      EncodedChain(h, order, cfg, depth + 1, rest);
    }
  }

  /** Every chain from `id` is short enough and leads to a table that can be written. */
  ghost predicate ChainsFit(h: Heap, order: Order, cfg: EncodeConfig, depth: nat, id: TableId)
    requires HeapOk(h, order)
  {
    forall ids :: Chain(h, ids) && ids[0] == id ==>
      depth + |ids| <= cfg.maxDepth && Writable(h, order, cfg, ids[|ids| - 1])
  }

  lemma ChainsFitBelow(h: Heap, order: Order, cfg: EncodeConfig, depth: nat, a: TableId, b: TableId)
    requires HeapOk(h, order) && a in h && b in h && Edge(h, a, b) && ChainsFit(h, order, cfg, depth, a)
    ensures ChainsFit(h, order, cfg, depth + 1, b)
  {
    hide Writable, Edge;
    forall ids | Chain(h, ids) && ids[0] == b
      ensures depth + 1 + |ids| <= cfg.maxDepth && Writable(h, order, cfg, ids[|ids| - 1])
    {
      var longer := [a] + ids;
      forall i | 0 <= i < |longer| - 1
        ensures Edge(h, longer[i], longer[i + 1])
      {
        if i > 0 {
          assert Edge(h, ids[i - 1], ids[i - 1 + 1]);
        }
      }
      assert Chain(h, longer) && longer[|longer| - 1] == ids[|ids| - 1];
    }
  }

  lemma {:induction false} ChainsSuffice(h: Heap, order: Order, cfg: EncodeConfig, depth: nat, id: TableId)
    requires HeapOk(h, order) && ConfigOk(cfg) && depth <= cfg.maxDepth && id in h
    requires ChainsFit(h, order, cfg, depth, id)
    ensures EncodeData(h, order, cfg, depth, LTable(id)).Encoded?
    decreases cfg.maxDepth - depth
  {
    hide EncodeData, HeapOk;
    assert Chain(h, [id]);
    assert [id][|[id]| - 1] == id;
    ValuesAreOk(h, order, id);
    forall k | k in h[id]
      ensures EncodeData(h, order, cfg, depth + 1, h[id][k]).Encoded?
    {
      var v := h[id][k];
      SupportedIfEncoded(h, order, cfg, depth + 1, v);
      if v.LTable? {
        assert Edge(h, id, v.id);
        ChainsFitBelow(h, order, cfg, depth, id, v.id);
        ChainsSuffice(h, order, cfg, depth + 1, v.id);
      }
    }
    TableEncodedIff(h, order, cfg, depth, id);
  }

  /**
   * Exactly which tables are encoded. In particular success bounds the nesting, on any heap.
   */
  lemma EncodedIffChainsFit(h: Heap, order: Order, cfg: EncodeConfig, id: TableId)
    requires HeapOk(h, order) && ConfigOk(cfg) && id in h
    ensures EncodeData(h, order, cfg, 0, LTable(id)).Encoded? <==> ChainsFit(h, order, cfg, 0, id)
  {
    hide EncodeData, Writable;
    if EncodeData(h, order, cfg, 0, LTable(id)).Encoded? {
      forall ids | Chain(h, ids) && ids[0] == id
        ensures |ids| <= cfg.maxDepth && Writable(h, order, cfg, ids[|ids| - 1])
      {
        EncodedChain(h, order, cfg, 0, ids);
      }
    }
    if ChainsFit(h, order, cfg, 0, id) {
      ChainsSuffice(h, order, cfg, 0, id);
    }
  }

  /** Whether encoding succeeds does not depend on the order of traversal. */
  lemma SuccessOrderFree(h: Heap, a: Order, b: Order, cfg: EncodeConfig, id: TableId)
    requires HeapOk(h, a) && HeapOk(h, b) && ConfigOk(cfg) && id in h
    ensures EncodeData(h, a, cfg, 0, LTable(id)).Encoded? <==> EncodeData(h, b, cfg, 0, LTable(id)).Encoded?
  {
    hide EncodeData;
    EncodedIffChainsFit(h, a, cfg, id);
    EncodedIffChainsFit(h, b, cfg, id);
    forall i | i in h
      ensures Writable(h, a, cfg, i) == Writable(h, b, cfg, i)
    {
      ValuesAreOk(h, a, i);
      ValuesAreOk(h, b, i);
      ArrayLengthOrderFree(cfg.sparse, a[i], b[i]);
    }
  }

  // ----- cycles -----

  lemma {:induction false} LoopRejected(h: Heap, order: Order, cfg: EncodeConfig, depth: nat, loop: seq<TableId>)
    requires HeapOk(h, order) && ConfigOk(cfg) && depth <= cfg.maxDepth
    requires Chain(h, loop) && |loop| >= 2 && loop[0] == loop[|loop| - 1]
    ensures EncodeData(h, order, cfg, depth, LTable(loop[0])).EncodeFailed?
    decreases cfg.maxDepth - depth
  {
    hide EncodeData, Writable, HeapOk;
    if EncodeData(h, order, cfg, depth, LTable(loop[0])).Encoded? {
      EncodedChain(h, order, cfg, depth, loop);
      LoopRejected(h, order, cfg, depth + |loop| - 1, loop);
    }
  }

  /** A table from which a cycle can be reached is never encoded. */
  lemma CycleRejected(h: Heap, order: Order, cfg: EncodeConfig, ids: seq<TableId>, i: nat, j: nat)
    requires HeapOk(h, order) && ConfigOk(cfg) && Chain(h, ids) && i < j < |ids| && ids[i] == ids[j]
    ensures EncodeData(h, order, cfg, 0, LTable(ids[0])).EncodeFailed?
  {
    hide EncodeData, Writable, HeapOk, Edge;
    if EncodeData(h, order, cfg, 0, LTable(ids[0])).Encoded? {
      var start, loop := ids[..i + 1], ids[i..j + 1];
      SubChain(h, ids, 0, i + 1);
      SubChain(h, ids, i, j + 1);
      assert ids[0..i + 1] == start;
      EncodedChain(h, order, cfg, 0, start);
      LoopRejected(h, order, cfg, i, loop);
      assert false;
    }
  }

  lemma SubChain(h: Heap, ids: seq<TableId>, from: nat, to: nat)
    requires Chain(h, ids) && from < to <= |ids|
    ensures Chain(h, ids[from..to])
  {
    hide Edge;
    var part := ids[from..to];
    forall i | 0 <= i < |part| - 1
      ensures Edge(h, part[i], part[i + 1])
    {
      assert Edge(h, ids[from + i], ids[from + i + 1]);
    }
  }
}
