/** MurmurHash3_x86_32: a permutation of the seeds, of the 4-byte keys, and of every single block. */
module Murmur32 {
  import opened Chains
  import opened KeyBlocks
  import opened MurmurMix
  import opened MurmurFactors
  import opened Words

  /** What happens to a word before it meets the state. */
  function Lane(k: bv32): bv32 {
    TimesA2(Rotl32(TimesA1(k), 15))
  }

  function Unlane(k: bv32): bv32 {
    OverA1(Rotl32(OverA2(k), 17))
  }

  lemma LaneUndone(k: bv32)
    ensures Unlane(Lane(k)) == k && Lane(Unlane(k)) == k
  {
    hide TimesA1, TimesA2, OverA1, OverA2, Rotl32;
    TimesA1Undone(k);
    Rotl32By15Undone(TimesA1(k));
    TimesA2Undone(Rotl32(TimesA1(k), 15));
    OverA2Undone(k);
    Rotl32By15Undone(OverA2(k));
    OverA1Undone(Rotl32(OverA2(k), 17));
  }

  function Stir(h: bv32): bv32 {
    Plus32(TimesFive(Rotl32(h, 13)), 0xe6546b64)
  }

  function Unstir(h: bv32): bv32 {
    Rotl32(OverFive(Minus32(h, 0xe6546b64)), 19)
  }

  lemma StirUndone(h: bv32)
    ensures Unstir(Stir(h)) == h && Stir(Unstir(h)) == h
  {
    hide TimesFive, OverFive, Rotl32, Plus32, Minus32;
    Rotl32By13Undone(h);
    TimesFiveUndone(Rotl32(h, 13));
    Minus32Undoes(TimesFive(Rotl32(h, 13)), 0xe6546b64);
    Plus32Undoes(h, 0xe6546b64);
    OverFiveUndone(Minus32(h, 0xe6546b64));
    Rotl32By13Undone(OverFive(Minus32(h, 0xe6546b64)));
  }

  /** One turn of the loop. */
  function Step(h: bv32, k: bv32): bv32 {
    Stir(Xor32(h, Lane(k)))
  }

  function Unstep(h: bv32, k: bv32): bv32 {
    Xor32(Unstir(h), Lane(k))
  }

  lemma StepUndone(h: bv32, k: bv32)
    ensures Unstep(Step(h, k), k) == h && Step(Unstep(h, k), k) == h
    ensures Unlane(Xor32(h, Unstir(Step(h, k)))) == k
  {
    hide Stir, Unstir, Lane, Unlane, Xor32;
    StirUndone(Xor32(h, Lane(k)));
    StirUndone(h);
    Xor32Undone(h, Lane(k));
    Xor32Undone(Unstir(h), Lane(k));
    LaneUndone(k);
  }

  lemma StepProperties()
    ensures Undoes(Step, Unstep) && KeepsStates(Step) && TellsBlocks(Step)
  {
    hide Step, Unstep, Unlane, Unstir, Xor32;
    forall h, k
      ensures Unstep(Step(h, k), k) == h && Step(Unstep(h, k), k) == h
    {
      StepUndone(h, k);
    }
    assert Undoes(Step, Unstep);
    UndoneKeepsStates(Step, Unstep);
    forall h, k, l | Step(h, k) == Step(h, l)
      ensures k == l
    {
      StepUndone(h, k);
      StepUndone(h, l);
    }
  }

  /** The words of a key, as a little-endian machine reads them. */
  function WordsOf(key: seq<bv8>): (words: seq<bv32>)
    ensures |words| == |key| / 4
  {
    seq(|key| / 4, i requires 0 <= i < |key| / 4 => Packed32(Block(key, 4, i), 0))
  }

  function Absorb(h: bv32, tail: seq<bv8>): bv32
    requires |tail| <= 3
  {
    if |tail| == 0 then h else Xor32(h, Lane(Packed32(tail, 0)))
  }

  function Length32(key: seq<bv8>): bv32
    requires |key| < 0x8000_0000
  {
    |key| as bv32
  }

  function Finish(h: bv32, length: bv32): bv32 {
    Fmix32(Xor32(h, length))
  }

  /** The digest of a key. */
  function Hash(key: seq<bv8>, seed: bv32): bv32
    requires |key| < 0x8000_0000
  {
    Finish(Absorb(Run(Step, WordsOf(key), seed), Tail(key, 4)), Length32(key))
  }

  /** MurmurHash3_x86_32. The blocks are counted upwards from minus their number. */
  method MurmurHash3(key: seq<bv8>, seed: bv32, out: array<bv32>)
    requires |key| < 0x8000_0000 && out.Length >= 1
    modifies out
    ensures out[0] == Hash(key, seed)
    ensures forall i :: 1 <= i < out.Length ==> out[i] == old(out[i])
  {
    hide TimesA1, TimesA2, TimesFive, Rotl32, Xor32, Plus32, Fmix32, Length32, Packed32, Place32, Block, Tail;
    var nblocks := |key| / 4;
    var h1 := seed;
    var i := -nblocks;
    ghost var words := WordsOf(key);
    while i != 0
      invariant -nblocks <= i <= 0
      invariant h1 == Run(Step, words[..nblocks + i], seed)
      modifies {}
    {
      ghost var n := nblocks + i;
      assert words[..n + 1][..n] == words[..n];
      var k1 := Packed32(Block(key, 4, nblocks + i), 0);
      k1 := TimesA1(k1);
      k1 := Rotl32(k1, 15);
      k1 := TimesA2(k1);
      h1 := Xor32(h1, k1);
      h1 := Rotl32(h1, 13);
      h1 := Plus32(TimesFive(h1), 0xe6546b64);
      i := i + 1;
    }
    assert words[..nblocks] == words;
    h1 := AddTail(h1, Tail(key, 4));
    h1 := Xor32(h1, Length32(key));
    out[0] := Fmix32(h1);
  }

  /** The switch over the last bytes, which falls through from the highest one on. */
  method AddTail(h: bv32, tail: seq<bv8>) returns (h1: bv32)
    requires |tail| <= 3
    ensures h1 == Absorb(h, tail)
  {
    hide TimesA1, TimesA2, Rotl32, Xor32, Place32;
    h1 := h;
    var k1: bv32 := 0;
    if |tail| >= 3 {
      k1 := Xor32(k1, Place32(tail[2], 2));
    }
    assert k1 == if |tail| >= 2 then Packed32(tail, 2) else 0;
    if |tail| >= 2 {
      k1 := Xor32(k1, Place32(tail[1], 1));
    }
    assert k1 == if |tail| >= 1 then Packed32(tail, 1) else 0;
    if |tail| >= 1 {
      k1 := Xor32(k1, Place32(tail[0], 0));
      k1 := TimesA1(k1);
      k1 := Rotl32(k1, 15);
      k1 := TimesA2(k1);
      h1 := Xor32(h1, k1);
    }
  }

  // ----- no collisions -----

  function Unfinish(digest: bv32, length: bv32): bv32 {
    Xor32(Unfmix32(digest), length)
  }

  lemma FinishUndone(h: bv32, length: bv32)
    ensures Unfinish(Finish(h, length), length) == h && Finish(Unfinish(h, length), length) == h
  {
    hide Fmix32, Unfmix32, Xor32;
    Fmix32Undone(Xor32(h, length));
    Fmix32Undone(h);
    Xor32Undone(h, length);
    Xor32Undone(Unfmix32(h), length);
  }

  lemma AbsorbUndone(h: bv32, tail: seq<bv8>)
    requires |tail| <= 3
    ensures Absorb(Absorb(h, tail), tail) == h
  {
    hide Lane, Xor32, Packed32;
    if |tail| > 0 {
      Xor32Undone(h, Lane(Packed32(tail, 0)));
    }
  }

  lemma AbsorbTellsTails(h: bv32, tail: seq<bv8>, tail': seq<bv8>)
    requires |tail| == |tail'| <= 3 && Absorb(h, tail) == Absorb(h, tail')
    ensures tail == tail'
  {
    hide Lane, Unlane, Xor32, Packed32;
    if |tail| > 0 {
      Xor32Undone(h, Lane(Packed32(tail, 0)));
      Xor32Undone(h, Lane(Packed32(tail', 0)));
      LaneUndone(Packed32(tail, 0));
      LaneUndone(Packed32(tail', 0));
      Packed32Injective(tail, tail');
    }
  }

  /** The seed from which a key reaches a digest. */
  function SeedOf(key: seq<bv8>, digest: bv32): bv32
    requires |key| < 0x8000_0000
  {
    Back(Unstep, WordsOf(key), Absorb(Unfinish(digest, Length32(key)), Tail(key, 4)))
  }

  /** For every key the hash is a permutation of the seeds. */
  lemma SeedsPermuted(key: seq<bv8>, x: bv32)
    requires |key| < 0x8000_0000
    ensures SeedOf(key, Hash(key, x)) == x
    ensures Hash(key, SeedOf(key, x)) == x
  {
    hide Finish, Unfinish, Absorb, Step, Unstep, Length32, WordsOf, Tail;
    StepProperties();
    var words, tail, length := WordsOf(key), Tail(key, 4), Length32(key);
    BackUndoesRun(Step, Unstep, words, x);
    AbsorbUndone(Run(Step, words, x), tail);
    FinishUndone(Absorb(Run(Step, words, x), tail), length);
    var h := Absorb(Unfinish(x, length), tail);
    BackUndoesRun(Step, Unstep, words, h);
    AbsorbUndone(Unfinish(x, length), tail);
    FinishUndone(x, length);
  }

  /** The 4-byte key that has a given digest. */
  function KeyOf(seed: bv32, digest: bv32): (key: seq<bv8>)
    ensures |key| == 4
  {
    Bytes32(Unlane(Xor32(seed, Unstir(Unfinish(digest, 4)))))
  }

  lemma HashOfFour(key: seq<bv8>, seed: bv32)
    requires |key| == 4
    ensures Hash(key, seed) == Finish(Step(seed, Packed32(key, 0)), 4)
  {
    hide Finish, Step, Packed32;
    var words := WordsOf(key);
    assert key[0..4] == key;
    assert words[..0] == [] && Run(Step, words[..0], seed) == seed;
    assert Length32(key) == 4;
  }

  lemma StepReaches(h: bv32, target: bv32)
    ensures Step(h, Unlane(Xor32(h, Unstir(target)))) == target
  {
    hide Stir, Unstir, Lane, Unlane, Xor32;
    LaneUndone(Xor32(h, Unstir(target)));
    Xor32Undone(h, Unstir(target));
    StirUndone(target);
  }

  /** For every seed the hash is a permutation of the 4-byte keys. */
  lemma FourByteKeysPermuted(seed: bv32, key: seq<bv8>, digest: bv32)
    requires |key| == 4
    ensures KeyOf(seed, Hash(key, seed)) == key
    ensures Hash(KeyOf(seed, digest), seed) == digest
  {
    hide Finish, Unfinish, Step, Unstir, Unlane, Packed32, Bytes32, Xor32, Hash;
    HashOfFour(key, seed);
    var k := Packed32(key, 0);
    FinishUndone(Step(seed, k), 4);
    StepUndone(seed, k);
    PackedOfBytes32(k);
    Packed32Injective(Bytes32(k), key);
    HashOfFour(KeyOf(seed, digest), seed);
    PackedOfBytes32(Unlane(Xor32(seed, Unstir(Unfinish(digest, 4)))));
    StepReaches(seed, Unfinish(digest, 4));
    FinishUndone(digest, 4);
  }

  lemma WordsDiffer(a: seq<bv8>, b: seq<bv8>, j: nat)
    requires OneBlockDiffers(a, b, 4, j) && 4 * j + 4 <= |a|
    ensures DifferOnlyAt(WordsOf(a), WordsOf(b), j)
  {
    hide Packed32, Block;
    OtherBlock(a, b, 4, j);
    forall i | 0 <= i < |a| / 4
      ensures i != j <==> WordsOf(a)[i] == WordsOf(b)[i]
    {
      if i != j {
        SameBlock(a, b, 4, j, i);
      } else if WordsOf(a)[j] == WordsOf(b)[j] {
        Packed32Injective(Block(a, 4, j), Block(b, 4, j));
      }
    }
  }

  lemma WordsSame(a: seq<bv8>, b: seq<bv8>, j: nat)
    requires OneBlockDiffers(a, b, 4, j) && 4 * j + 4 > |a|
    ensures WordsOf(a) == WordsOf(b)
  {
    hide Packed32, Block;
    forall i | 0 <= i < |a| / 4
      ensures WordsOf(a)[i] == WordsOf(b)[i]
    {
      SameBlock(a, b, 4, j, i);
    }
  }

  lemma SameLength(a: seq<bv8>, b: seq<bv8>)
    requires |a| == |b| < 0x8000_0000
    ensures Length32(a) == Length32(b)
  {
  }

  /** Two keys of one length that differ in only one block, or only in the tail, never collide. */
  lemma OneBlockNeverCollides(a: seq<bv8>, b: seq<bv8>, j: nat, seed: bv32)
    requires |a| < 0x8000_0000 && OneBlockDiffers(a, b, 4, j)
    ensures Hash(a, seed) != Hash(b, seed)
  {
    hide Finish, Unfinish, Absorb, Step, Length32, WordsOf, Tail;
    StepProperties();
    var x, y := Run(Step, WordsOf(a), seed), Run(Step, WordsOf(b), seed);
    var s, t := Absorb(x, Tail(a, 4)), Absorb(y, Tail(b, 4));
    if 4 * j + 4 <= |a| {
      WordsDiffer(a, b, j);
      SameTail(a, b, 4, j);
      OneBlockMatters(Step, WordsOf(a), WordsOf(b), j, seed);
      AbsorbUndone(x, Tail(a, 4));
      AbsorbUndone(y, Tail(b, 4));
    } else {
      WordsSame(a, b, j);
      OtherTail(a, b, 4, j);
      if s == t {
        AbsorbTellsTails(x, Tail(a, 4), Tail(b, 4));
      }
    }
    SameLength(a, b);
    FinishUndone(s, Length32(a));
    FinishUndone(t, Length32(a));
  }

  /** Keys of different lengths that are the same blocks, and reach the same state, never collide. */
  lemma LengthMatters(a: seq<bv8>, b: seq<bv8>, seed: bv32)
    requires |a| < 0x8000_0000 && |b| < 0x8000_0000 && |a| != |b| && WordsOf(a) == WordsOf(b)
    requires var h := Run(Step, WordsOf(a), seed);
             Absorb(h, Tail(a, 4)) == Absorb(h, Tail(b, 4))
    ensures Hash(a, seed) != Hash(b, seed)
  {
    hide Finish, Absorb, Step, Length32, WordsOf, Tail;
    var h := Absorb(Run(Step, WordsOf(a), seed), Tail(a, 4));
    if Finish(h, Length32(a)) == Finish(h, Length32(b)) {
      FinishTells(h, Length32(a), Length32(b));
      LengthsDiffer(a, b);
    }
  }

  lemma LengthsDiffer(a: seq<bv8>, b: seq<bv8>)
    requires |a| < 0x8000_0000 && |b| < 0x8000_0000 && Length32(a) == Length32(b)
    ensures |a| == |b|
  {
    NumberWordsDiffer(|a|, |b|);
  }

  lemma FinishTells(h: bv32, m: bv32, n: bv32)
    requires Finish(h, m) == Finish(h, n)
    ensures m == n
  {
    hide Fmix32, Unfmix32, Xor32;
    Fmix32Undone(Xor32(h, m));
    Fmix32Undone(Xor32(h, n));
    Xor32Undone(h, m);
    Xor32Undone(h, n);
  }
}
