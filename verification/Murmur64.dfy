/** MurmurHash3_x64_128: two lanes of 64 bits; a permutation of the 16-byte keys and of every single block. */
module Murmur64 {
  import opened Chains
  import opened KeyBlocks
  import opened MurmurFactors
  import opened MurmurMix
  import opened Words

  /** The two words of a state, of a block or of a digest. */
  datatype Pair = Pair(w1: bv64, w2: bv64)

  /** What happens to the word of lane `i` before it meets the state. */
  function Lane(i: nat, k: bv64): bv64
    requires 1 <= i <= 2
  {
    if i == 1 then TimesE2(Rotl64(TimesE1(k), 31)) else TimesE1(Rotl64(TimesE2(k), 33))
  }

  function Unlane(i: nat, k: bv64): bv64
    requires 1 <= i <= 2
  {
    if i == 1 then OverE1(Rotl64(OverE2(k), 33)) else OverE2(Rotl64(OverE1(k), 31))
  }

  lemma LaneUndone(i: nat, k: bv64)
    requires 1 <= i <= 2
    ensures Unlane(i, Lane(i, k)) == k && Lane(i, Unlane(i, k)) == k
  {
    hide TimesE1, TimesE2, OverE1, OverE2, Rotl64;
    if i == 1 {
      TimesE1Undone(k);
      Rotl64Undone(TimesE1(k), 31);
      TimesE2Undone(Rotl64(TimesE1(k), 31));
      OverE2Undone(k);
      Rotl64Undone(OverE2(k), 31);
      OverE1Undone(Rotl64(OverE2(k), 33));
    } else {
      TimesE2Undone(k);
      Rotl64Undone(TimesE2(k), 33);
      TimesE1Undone(Rotl64(TimesE2(k), 33));
      OverE1Undone(k);
      Rotl64Undone(OverE1(k), 33);
      OverE2Undone(Rotl64(OverE1(k), 31));
    }
  }

  /** A lane after its word is in: rotate by `r`, add the neighbour, times 5, add `n`. */
  function Stir(h: bv64, neighbour: bv64, r: nat, n: bv64): bv64
    requires r in {27, 31}
  {
    Plus64(TimesWideFive(Plus64(Rotl64(h, r), neighbour)), n)
  }

  function Unstir(h: bv64, neighbour: bv64, r: nat, n: bv64): bv64
    requires r in {27, 31}
  {
    Rotl64(Minus64(OverWideFive(Minus64(h, n)), neighbour), 64 - r)
  }

  lemma StirUndone(h: bv64, neighbour: bv64, r: nat, n: bv64)
    requires r in {27, 31}
    ensures Unstir(Stir(h, neighbour, r, n), neighbour, r, n) == h
    ensures Stir(Unstir(h, neighbour, r, n), neighbour, r, n) == h
  {
    hide TimesWideFive, OverWideFive, Rotl64, Plus64, Minus64;
    Rotl64Undone(h, r);
    var x := Plus64(Rotl64(h, r), neighbour);
    Minus64Undoes(Rotl64(h, r), neighbour);
    TimesWideFiveUndone(x);
    Minus64Undoes(TimesWideFive(x), n);
    var y := Minus64(h, n);
    Plus64Undoes(h, n);
    OverWideFiveUndone(y);
    Plus64Undoes(OverWideFive(y), neighbour);
    Rotl64Undone(Minus64(OverWideFive(y), neighbour), r);
  }

  /** One turn of the loop; the second lane gets the new value of the first. */
  function Step(h: Pair, k: Pair): Pair {
    var g1 := Stir(Xor64(h.w1, Lane(1, k.w1)), h.w2, 27, 0x52dce729);
    var g2 := Stir(Xor64(h.w2, Lane(2, k.w2)), g1, 31, 0x38495ab5);
    Pair(g1, g2)
  }

  /** The state before a turn, from the state after it and the block. */
  function Unstep(g: Pair, k: Pair): Pair {
    var h2 := Xor64(Unstir(g.w2, g.w1, 31, 0x38495ab5), Lane(2, k.w2));
    var h1 := Xor64(Unstir(g.w1, h2, 27, 0x52dce729), Lane(1, k.w1));
    Pair(h1, h2)
  }

  /** The block, from the states before and after a turn. */
  function BlockBetween(h: Pair, g: Pair): Pair {
    Pair(Unlane(1, Xor64(h.w1, Unstir(g.w1, h.w2, 27, 0x52dce729))),
         Unlane(2, Xor64(h.w2, Unstir(g.w2, g.w1, 31, 0x38495ab5))))
  }

  lemma LaneStep(i: nat, h: bv64, k: bv64, neighbour: bv64, r: nat, n: bv64)
    requires 1 <= i <= 2 && r in {27, 31}
    ensures var g := Stir(Xor64(h, Lane(i, k)), neighbour, r, n);
            && Xor64(Unstir(g, neighbour, r, n), Lane(i, k)) == h
            && Unlane(i, Xor64(h, Unstir(g, neighbour, r, n))) == k
  {
    hide Stir, Unstir, Lane, Unlane, Xor64;
    StirUndone(Xor64(h, Lane(i, k)), neighbour, r, n);
    Xor64Undone(h, Lane(i, k));
    LaneUndone(i, k);
  }

  lemma LaneBack(i: nat, g: bv64, k: bv64, neighbour: bv64, r: nat, n: bv64)
    requires 1 <= i <= 2 && r in {27, 31}
    ensures Stir(Xor64(Xor64(Unstir(g, neighbour, r, n), Lane(i, k)), Lane(i, k)), neighbour, r, n) == g
  {
    hide Stir, Unstir, Lane, Xor64;
    StirUndone(g, neighbour, r, n);
    Xor64Undone(Unstir(g, neighbour, r, n), Lane(i, k));
  }

  lemma LaneBetween(i: nat, h: bv64, g: bv64, neighbour: bv64, r: nat, n: bv64)
    requires 1 <= i <= 2 && r in {27, 31}
    ensures Stir(Xor64(h, Lane(i, Unlane(i, Xor64(h, Unstir(g, neighbour, r, n))))), neighbour, r, n) == g
  {
    hide Stir, Unstir, Lane, Unlane, Xor64;
    LaneUndone(i, Xor64(h, Unstir(g, neighbour, r, n)));
    Xor64Undone(h, Unstir(g, neighbour, r, n));
    StirUndone(g, neighbour, r, n);
  }

  lemma StepUndone(h: Pair, k: Pair)
    ensures Unstep(Step(h, k), k) == h
    ensures BlockBetween(h, Step(h, k)) == k
  {
    hide Stir, Unstir, Lane, Unlane, Xor64;
    var g := Step(h, k);
    LaneStep(1, h.w1, k.w1, h.w2, 27, 0x52dce729);
    LaneStep(2, h.w2, k.w2, g.w1, 31, 0x38495ab5);
  }

  lemma UnstepUndone(g: Pair, k: Pair)
    ensures Step(Unstep(g, k), k) == g
  {
    hide Stir, Unstir, Lane, Xor64;
    var h := Unstep(g, k);
    LaneBack(2, g.w2, k.w2, g.w1, 31, 0x38495ab5);
    LaneBack(1, g.w1, k.w1, h.w2, 27, 0x52dce729);
  }

  lemma StepReaches(h: Pair, g: Pair)
    ensures Step(h, BlockBetween(h, g)) == g
  {
    hide Stir, Unstir, Lane, Unlane, Xor64;
    LaneBetween(1, h.w1, g.w1, h.w2, 27, 0x52dce729);
    LaneBetween(2, h.w2, g.w2, g.w1, 31, 0x38495ab5);
  }

  lemma StepProperties()
    ensures Undoes(Step, Unstep) && KeepsStates(Step) && TellsBlocks(Step)
  {
    hide Step, Unstep, BlockBetween;
    forall h, k
      ensures Unstep(Step(h, k), k) == h && Step(Unstep(h, k), k) == h
    {
      StepUndone(h, k);
      UnstepUndone(h, k);
    }
    assert Undoes(Step, Unstep);
    UndoneKeepsStates(Step, Unstep);
    forall h, k, l | Step(h, k) == Step(h, l)
      ensures k == l
    {
      StepUndone(h, k);
      StepUndone(h, l);
    }
  }

  // ----- the tail and the finalization -----

  /** The bytes of the tail that belong to lane `i`. */
  function Part(tail: seq<bv8>, i: nat): (part: seq<bv8>)
    requires 1 <= i <= 2
    ensures |part| <= 8
  {
    var at := 8 * i - 8;
    if |tail| <= at then [] else if |tail| >= at + 8 then tail[at..at + 8] else tail[at..]
  }

  lemma PartsMakeTail(tail: seq<bv8>)
    requires |tail| <= 16
    ensures tail == Part(tail, 1) + Part(tail, 2)
  {
  }

  function AbsorbPart(i: nat, h: bv64, part: seq<bv8>): bv64
    requires 1 <= i <= 2 && |part| <= 8
  {
    if |part| == 0 then h else Xor64(h, Lane(i, Packed64(part, 0)))
  }

  function Absorb(h: Pair, tail: seq<bv8>): Pair {
    Pair(AbsorbPart(1, h.w1, Part(tail, 1)), AbsorbPart(2, h.w2, Part(tail, 2)))
  }

  lemma AbsorbPartUndone(i: nat, h: bv64, part: seq<bv8>)
    requires 1 <= i <= 2 && |part| <= 8
    ensures AbsorbPart(i, AbsorbPart(i, h, part), part) == h
  {
    hide Lane, Xor64, Packed64;
    if |part| > 0 {
      Xor64Undone(h, Lane(i, Packed64(part, 0)));
    }
  }

  lemma AbsorbUndone(h: Pair, tail: seq<bv8>)
    ensures Absorb(Absorb(h, tail), tail) == h
  {
    hide AbsorbPart, Part;
    AbsorbPartUndone(1, h.w1, Part(tail, 1));
    AbsorbPartUndone(2, h.w2, Part(tail, 2));
  }

  lemma AbsorbPartTells(i: nat, h: bv64, part: seq<bv8>, part': seq<bv8>)
    requires 1 <= i <= 2 && |part| == |part'| <= 8 && AbsorbPart(i, h, part) == AbsorbPart(i, h, part')
    ensures part == part'
  {
    hide Lane, Unlane, Xor64, Packed64;
    if |part| > 0 {
      Xor64Undone(h, Lane(i, Packed64(part, 0)));
      Xor64Undone(h, Lane(i, Packed64(part', 0)));
      LaneUndone(i, Packed64(part, 0));
      LaneUndone(i, Packed64(part', 0));
      Packed64Injective(part, part');
    }
  }

  lemma AbsorbTellsTails(h: Pair, tail: seq<bv8>, tail': seq<bv8>)
    requires |tail| == |tail'| < 16 && Absorb(h, tail) == Absorb(h, tail')
    ensures tail == tail'
  {
    hide AbsorbPart;
    AbsorbPartTells(1, h.w1, Part(tail, 1), Part(tail', 1));
    AbsorbPartTells(2, h.w2, Part(tail, 2), Part(tail', 2));
    PartsMakeTail(tail);
    PartsMakeTail(tail');
  }

  /** h1 += h2, then h2 += h1. */
  function Spread(h: Pair): Pair {
    var h1 := Plus64(h.w1, h.w2);
    Pair(h1, Plus64(h.w2, h1))
  }

  function Unspread(h: Pair): Pair {
    var h2 := Minus64(h.w2, h.w1);
    Pair(Minus64(h.w1, h2), h2)
  }

  lemma SpreadUndone(h: Pair)
    ensures Unspread(Spread(h)) == h && Spread(Unspread(h)) == h
  {
    hide Plus64, Minus64;
    Minus64Undoes(h.w1, h.w2);
    Minus64Undoes(h.w2, Plus64(h.w1, h.w2));
    Plus64Undoes(h.w1, Minus64(h.w2, h.w1));
    Plus64Undoes(h.w2, h.w1);
  }

  function XorBoth(h: Pair, n: bv64): Pair {
    Pair(Xor64(h.w1, n), Xor64(h.w2, n))
  }

  lemma XorBothUndone(h: Pair, n: bv64)
    ensures XorBoth(XorBoth(h, n), n) == h
  {
    hide Xor64;
    Xor64Undone(h.w1, n);
    Xor64Undone(h.w2, n);
  }

  function FmixBoth(h: Pair): Pair {
    Pair(Fmix64(h.w1), Fmix64(h.w2))
  }

  function UnfmixBoth(h: Pair): Pair {
    Pair(Unfmix64(h.w1), Unfmix64(h.w2))
  }

  lemma FmixBothUndone(h: Pair)
    ensures UnfmixBoth(FmixBoth(h)) == h && FmixBoth(UnfmixBoth(h)) == h
  {
    hide Fmix64, Unfmix64;
    Fmix64Undone(h.w1);
    Fmix64Undone(h.w2);
  }

  function Finish(h: Pair, length: bv64): Pair {
    Spread(FmixBoth(Spread(XorBoth(h, length))))
  }

  function Unfinish(digest: Pair, length: bv64): Pair {
    XorBoth(Unspread(UnfmixBoth(Unspread(digest))), length)
  }

  lemma FinishUndone(h: Pair, length: bv64)
    ensures Unfinish(Finish(h, length), length) == h && Finish(Unfinish(h, length), length) == h
  {
    hide Spread, Unspread, FmixBoth, UnfmixBoth, XorBoth;
    var x := XorBoth(h, length);
    XorBothUndone(h, length);
    SpreadUndone(x);
    FmixBothUndone(Spread(x));
    SpreadUndone(FmixBoth(Spread(x)));
    var y := Unspread(h);
    SpreadUndone(h);
    FmixBothUndone(y);
    SpreadUndone(UnfmixBoth(y));
    XorBothUndone(Unspread(UnfmixBoth(y)), length);
  }

  // ----- the hash -----

  /** The two words of 16 bytes, as a little-endian machine reads them. */
  function Load(block: seq<bv8>): Pair
    requires |block| == 16
  {
    Pair(Packed64(block[0..8], 0), Packed64(block[8..16], 0))
  }

  function Store(k: Pair): (block: seq<bv8>)
    ensures |block| == 16
  {
    Bytes64(k.w1) + Bytes64(k.w2)
  }

  lemma StoreLoads(k: Pair)
    ensures Load(Store(k)) == k
  {
    hide Packed64, Bytes64;
    var b := Store(k);
    assert b[0..8] == Bytes64(k.w1) && b[8..16] == Bytes64(k.w2);
    PackedOfBytes64(k.w1);
    PackedOfBytes64(k.w2);
  }

  lemma LoadInjective(a: seq<bv8>, b: seq<bv8>)
    requires |a| == |b| == 16 && Load(a) == Load(b)
    ensures a == b
  {
    hide Packed64;
    Packed64Injective(a[0..8], b[0..8]);
    Packed64Injective(a[8..16], b[8..16]);
    assert a == a[0..8] + a[8..16] && b == b[0..8] + b[8..16];
  }

  function PairsOf(key: seq<bv8>): (blocks: seq<Pair>)
    ensures |blocks| == |key| / 16
  {
    seq(|key| / 16, i requires 0 <= i < |key| / 16 => Load(Block(key, 16, i)))
  }

  function Length64(key: seq<bv8>): bv64
    requires |key| < 0x8000_0000
  {
    |key| as bv64
  }

  /** Both halves of the state start as the seed, widened to 64 bits. */
  function Start(seed: bv32): Pair {
    Pair(seed as bv64, seed as bv64)
  }

  lemma StartInjective(s: bv32, t: bv32)
    requires Start(s) == Start(t)
    ensures s == t
  {
  }

  /** The digest of a key. */
  function Hash(key: seq<bv8>, seed: bv32): Pair
    requires |key| < 0x8000_0000
  {
    Finish(Absorb(Run(Step, PairsOf(key), Start(seed)), Tail(key, 16)), Length64(key))
  }

  /** MurmurHash3_x64_128. */
  method MurmurHash3(key: seq<bv8>, seed: bv32, out: array<bv64>)
    requires |key| < 0x8000_0000 && out.Length >= 2
    modifies out
    ensures Pair(out[0], out[1]) == Hash(key, seed)
    ensures forall i :: 2 <= i < out.Length ==> out[i] == old(out[i])
  {
    hide Step, Load, Length64, Block, Tail, Absorb, Finish;
    var nblocks := |key| / 16;
    var h1: bv64, h2: bv64 := seed as bv64, seed as bv64;
    var i := 0;
    ghost var blocks := PairsOf(key);
    while i < nblocks
      invariant 0 <= i <= nblocks
      invariant Pair(h1, h2) == Run(Step, blocks[..i], Start(seed))
      modifies {}
    {
      assert blocks[..i + 1][..i] == blocks[..i];
      var k := Load(Block(key, 16, i));
      h1, h2 := MixBlock(h1, h2, k);
      i := i + 1;
    }
    assert blocks[..nblocks] == blocks;
    h1, h2 := AddTail(h1, h2, Tail(key, 16));
    h1, h2 := Finalize(h1, h2, Length64(key));
    out[0] := h1;
    out[1] := h2;
  }

  /** The body of the loop. */
  method MixBlock(a: bv64, b: bv64, k: Pair) returns (h1: bv64, h2: bv64)
    ensures Pair(h1, h2) == Step(Pair(a, b), k)
  {
    hide TimesWideFive, Rotl64, Xor64, Plus64, Lane;
    h1, h2 := a, b;
    h1 := Xor64(h1, Lane(1, k.w1));
    h1 := Rotl64(h1, 27);
    h1 := Plus64(h1, h2);
    h1 := Plus64(TimesWideFive(h1), 0x52dce729);
    h2 := Xor64(h2, Lane(2, k.w2));
    h2 := Rotl64(h2, 31);
    h2 := Plus64(h2, h1);
    h2 := Plus64(TimesWideFive(h2), 0x38495ab5);
  }

  /** The cases of the switch that belong to one lane, from its highest byte on. */
  method AddPart(i: nat, h: bv64, part: seq<bv8>) returns (g: bv64)
    requires 1 <= i <= 2 && |part| <= 8
    ensures g == AbsorbPart(i, h, part)
  {
    hide Xor64, Place64, Lane;
    g := h;
    var k: bv64 := 0;
    if |part| >= 8 {
      k := Xor64(k, Place64(part[7], 7));
    }
    assert k == if |part| >= 7 then Packed64(part, 7) else 0;
    if |part| >= 7 {
      k := Xor64(k, Place64(part[6], 6));
    }
    assert k == if |part| >= 6 then Packed64(part, 6) else 0;
    if |part| >= 6 {
      k := Xor64(k, Place64(part[5], 5));
    }
    assert k == if |part| >= 5 then Packed64(part, 5) else 0;
    if |part| >= 5 {
      k := Xor64(k, Place64(part[4], 4));
    }
    assert k == if |part| >= 4 then Packed64(part, 4) else 0;
    if |part| >= 4 {
      k := Xor64(k, Place64(part[3], 3));
    }
    assert k == if |part| >= 3 then Packed64(part, 3) else 0;
    if |part| >= 3 {
      k := Xor64(k, Place64(part[2], 2));
    }
    assert k == if |part| >= 2 then Packed64(part, 2) else 0;
    if |part| >= 2 {
      k := Xor64(k, Place64(part[1], 1));
    }
    assert k == if |part| >= 1 then Packed64(part, 1) else 0;
    if |part| >= 1 {
      k := Xor64(k, Place64(part[0], 0));
    }
    assert k == Packed64(part, 0);
    if |part| >= 1 {
      g := Xor64(g, Lane(i, k));
    }
  }

  /** The switch, which falls through from the second lane to the first. */
  method AddTail(h1: bv64, h2: bv64, tail: seq<bv8>) returns (g1: bv64, g2: bv64)
    ensures Pair(g1, g2) == Absorb(Pair(h1, h2), tail)
  {
    hide AbsorbPart, Part;
    g2 := AddPart(2, h2, Part(tail, 2));
    g1 := AddPart(1, h1, Part(tail, 1));
  }

  method Finalize(a: bv64, b: bv64, length: bv64) returns (h1: bv64, h2: bv64)
    ensures Pair(h1, h2) == Finish(Pair(a, b), length)
  {
    hide Plus64, Xor64, Fmix64;
    h1, h2 := Xor64(a, length), Xor64(b, length);
    h1 := Plus64(h1, h2);
    h2 := Plus64(h2, h1);
    h1 := Fmix64(h1);
    h2 := Fmix64(h2);
    h1 := Plus64(h1, h2);
    h2 := Plus64(h2, h1);
  }

  // ----- no collisions -----

  /** For every key, different seeds give different digests. */
  lemma SeedsNeverCollide(key: seq<bv8>, s: bv32, t: bv32)
    requires |key| < 0x8000_0000 && Hash(key, s) == Hash(key, t)
    ensures s == t
  {
    hide Finish, Unfinish, Absorb, Step, Length64, PairsOf, Tail, Start;
    StepProperties();
    var g, h := Run(Step, PairsOf(key), Start(s)), Run(Step, PairsOf(key), Start(t));
    FinishUndone(Absorb(g, Tail(key, 16)), Length64(key));
    FinishUndone(Absorb(h, Tail(key, 16)), Length64(key));
    AbsorbUndone(g, Tail(key, 16));
    AbsorbUndone(h, Tail(key, 16));
    RunKeepsStates(Step, PairsOf(key), Start(s), Start(t));
    StartInjective(s, t);
  }

  /** The 16-byte key that has a given digest. */
  function KeyOf(seed: bv32, digest: Pair): (key: seq<bv8>)
    ensures |key| == 16
  {
    Store(BlockBetween(Start(seed), Unfinish(digest, 16)))
  }

  lemma NothingAbsorbed(h: Pair)
    ensures Absorb(h, []) == h
  {
  }

  lemma HashOfSixteen(key: seq<bv8>, seed: bv32)
    requires |key| == 16
    ensures Hash(key, seed) == Finish(Step(Start(seed), Load(key)), 16)
  {
    hide Finish, Step, Load, AbsorbPart, Start;
    var blocks := PairsOf(key);
    assert Block(key, 16, 0) == key;
    assert blocks[..0] == [];
    assert Run(Step, blocks[..0], Start(seed)) == Start(seed);
    assert Length64(key) == 16;
    assert Tail(key, 16) == [];
    NothingAbsorbed(Run(Step, blocks, Start(seed)));
  }

  /** For every seed the hash is a permutation of the 16-byte keys. */
  lemma SixteenByteKeysPermuted(seed: bv32, key: seq<bv8>, digest: Pair)
    requires |key| == 16
    ensures KeyOf(seed, Hash(key, seed)) == key
    ensures Hash(KeyOf(seed, digest), seed) == digest
  {
    hide Finish, Unfinish, Step, BlockBetween, Load, Store, Hash, Start;
    var h, k := Start(seed), Load(key);
    HashOfSixteen(key, seed);
    FinishUndone(Step(h, k), 16);
    StepUndone(h, k);
    StoreLoads(k);
    LoadInjective(Store(k), key);
    HashOfSixteen(KeyOf(seed, digest), seed);
    StoreLoads(BlockBetween(h, Unfinish(digest, 16)));
    StepReaches(h, Unfinish(digest, 16));
    FinishUndone(digest, 16);
  }

  lemma PairsDiffer(a: seq<bv8>, b: seq<bv8>, j: nat)
    requires OneBlockDiffers(a, b, 16, j) && 16 * j + 16 <= |a|
    ensures DifferOnlyAt(PairsOf(a), PairsOf(b), j)
  {
    hide Load, Block;
    OtherBlock(a, b, 16, j);
    forall i | 0 <= i < |a| / 16
      ensures i != j <==> PairsOf(a)[i] == PairsOf(b)[i]
    {
      if i != j {
        SameBlock(a, b, 16, j, i);
      } else if PairsOf(a)[j] == PairsOf(b)[j] {
        LoadInjective(Block(a, 16, j), Block(b, 16, j));
      }
    }
  }

  lemma PairsSame(a: seq<bv8>, b: seq<bv8>, j: nat)
    requires OneBlockDiffers(a, b, 16, j) && 16 * j + 16 > |a|
    ensures PairsOf(a) == PairsOf(b)
  {
    hide Load, Block;
    forall i | 0 <= i < |a| / 16
      ensures PairsOf(a)[i] == PairsOf(b)[i]
    {
      SameBlock(a, b, 16, j, i);
    }
  }

  /** Two keys of one length that differ in only one block, or only in the tail, never collide. */
  lemma OneBlockNeverCollides(a: seq<bv8>, b: seq<bv8>, j: nat, seed: bv32)
    requires |a| < 0x8000_0000 && OneBlockDiffers(a, b, 16, j)
    ensures Hash(a, seed) != Hash(b, seed)
  {
    hide Finish, Unfinish, Absorb, Step, Length64, PairsOf, Tail, Start;
    StepProperties();
    var x, y := Run(Step, PairsOf(a), Start(seed)), Run(Step, PairsOf(b), Start(seed));
    var s, t := Absorb(x, Tail(a, 16)), Absorb(y, Tail(b, 16));
    if 16 * j + 16 <= |a| {
      PairsDiffer(a, b, j);
      SameTail(a, b, 16, j);
      OneBlockMatters(Step, PairsOf(a), PairsOf(b), j, Start(seed));
      AbsorbUndone(x, Tail(a, 16));
      AbsorbUndone(y, Tail(b, 16));
    } else {
      PairsSame(a, b, j);
      OtherTail(a, b, 16, j);
      if s == t {
        AbsorbTellsTails(x, Tail(a, 16), Tail(b, 16));
      }
    }
    SameLength(a, b);
    FinishUndone(s, Length64(a));
    FinishUndone(t, Length64(a));
  }

  lemma SameLength(a: seq<bv8>, b: seq<bv8>)
    requires |a| == |b| < 0x8000_0000
    ensures Length64(a) == Length64(b)
  {
  }

  /** Keys of different lengths that are the same blocks, and reach the same state, never collide. */
  lemma LengthMatters(a: seq<bv8>, b: seq<bv8>, seed: bv32)
    requires |a| < 0x8000_0000 && |b| < 0x8000_0000 && |a| != |b| && PairsOf(a) == PairsOf(b)
    requires var h := Run(Step, PairsOf(a), Start(seed));
             Absorb(h, Tail(a, 16)) == Absorb(h, Tail(b, 16))
    ensures Hash(a, seed) != Hash(b, seed)
  {
    hide Finish, Absorb, Step, Length64, PairsOf, Tail;
    var h := Absorb(Run(Step, PairsOf(a), Start(seed)), Tail(a, 16));
    if Finish(h, Length64(a)) == Finish(h, Length64(b)) {
      FinishTells(h, Length64(a), Length64(b));
      LengthsDiffer(a, b);
    }
  }

  lemma LengthsDiffer(a: seq<bv8>, b: seq<bv8>)
    requires |a| < 0x8000_0000 && |b| < 0x8000_0000 && Length64(a) == Length64(b)
    ensures |a| == |b|
  {
    WideNumberWordsDiffer(|a|, |b|);
  }

  lemma FinishTells(h: Pair, m: bv64, n: bv64)
    requires Finish(h, m) == Finish(h, n)
    ensures m == n
  {
    hide Spread, Unspread, FmixBoth, UnfmixBoth, Xor64;
    SpreadUndone(FmixBoth(Spread(XorBoth(h, m))));
    SpreadUndone(FmixBoth(Spread(XorBoth(h, n))));
    FmixBothUndone(Spread(XorBoth(h, m)));
    FmixBothUndone(Spread(XorBoth(h, n)));
    SpreadUndone(XorBoth(h, m));
    SpreadUndone(XorBoth(h, n));
    Xor64Undone(h.w1, m);
    Xor64Undone(h.w1, n);
  }
}
