/** Keys cut into blocks of one size and a shorter tail, and keys that differ in one of these only. */
module KeyBlocks {
  function Block(key: seq<bv8>, size: nat, i: nat): (block: seq<bv8>)
    requires size * i + size <= |key|
    ensures |block| == size
  {
    key[size * i..size * i + size]
  }

  lemma BlockFits(n: nat, size: nat, i: nat)
    requires size > 0
    ensures i < n / size <==> size * i + size <= n
    ensures n / size * size == size * (n / size) && size * (n / size) + n % size == n
    ensures 0 <= n % size < size
  {
    var q := n / size;
    Division(n, size);
    if i < q {
      Monotone(size, i, q);
    } else {
      Monotone(size, q, i);
    }
  }

  lemma Division(n: nat, size: nat)
    requires size > 0
    ensures n / size * size == size * (n / size) && size * (n / size) + n % size == n
    ensures 0 <= n % size < size && n / size >= 0
  {
  }

  lemma {:induction false} Monotone(size: nat, i: nat, j: nat)
    requires i <= j
    ensures size * i <= size * j && (i < j ==> size * i + size <= size * j)
    decreases j - i
  {
    if i == j {
    } else {
      Monotone(size, i, j - 1);
      Successor(size, j - 1);
    }
  }

  lemma Successor(size: nat, j: nat)
    ensures size * (j + 1) == size * j + size
  {
  }

  /** The bytes behind the last whole block. */
  function Tail(key: seq<bv8>, size: nat): (tail: seq<bv8>)
    requires size > 0
    ensures |tail| == |key| % size
  {
    BlockFits(|key|, size, 0);
    key[|key| / size * size..]
  }

  /** Keys of one length that agree everywhere but in block `j`; the tail counts as the last block. */
  ghost predicate OneBlockDiffers(a: seq<bv8>, b: seq<bv8>, size: nat, j: nat) {
    && |a| == |b| && a != b
    && forall k :: 0 <= k < |a| && !(size * j <= k < size * j + size) ==> a[k] == b[k]
  }

  lemma SameBlock(a: seq<bv8>, b: seq<bv8>, size: nat, j: nat, i: nat)
    requires OneBlockDiffers(a, b, size, j) && i != j && size * i + size <= |a|
    ensures Block(a, size, i) == Block(b, size, i)
  {
    if i < j {
      Monotone(size, i, j);
    } else {
      Monotone(size, j, i);
    }
  }

  lemma OtherBlock(a: seq<bv8>, b: seq<bv8>, size: nat, j: nat)
    requires OneBlockDiffers(a, b, size, j) && size * j + size <= |a|
    ensures Block(a, size, j) != Block(b, size, j)
  {
    var at := size * j;
    var k :| 0 <= k < |a| && a[k] != b[k];
    assert Block(a, size, j)[k - at] == a[k] && Block(b, size, j)[k - at] == b[k];
  }

  lemma SameTail(a: seq<bv8>, b: seq<bv8>, size: nat, j: nat)
    requires size > 0 && OneBlockDiffers(a, b, size, j) && size * j + size <= |a|
    ensures Tail(a, size) == Tail(b, size)
  {
    BlockFits(|a|, size, j);
    Monotone(size, j, |a| / size);
  }

  lemma OtherTail(a: seq<bv8>, b: seq<bv8>, size: nat, j: nat)
    requires size > 0 && OneBlockDiffers(a, b, size, j) && size * j + size > |a|
    ensures j >= |a| / size && Tail(a, size) != Tail(b, size)
  {
    BlockFits(|a|, size, j);
    Monotone(size, |a| / size, j);
    var n := |a| / size * size;
    assert a == a[..n] + Tail(a, size) && b == b[..n] + Tail(b, size);
    assert a[..n] == b[..n];
  }
}
