/** MurmurHash3_x86_128: four lanes of 32 bits; a permutation of the 16-byte keys and of every single block. */
module Murmur128 {
  import opened Chains
  import opened KeyBlocks
  import opened MurmurFactors
  import opened MurmurMix
  import opened Words

  /** The four words of a state, of a block or of a digest. */
  datatype Quad = Quad(w1: bv32, w2: bv32, w3: bv32, w4: bv32)

  /** What happens to the word of lane `i` before it meets the state. */
  function Lane(i: nat, k: bv32): bv32
    requires 1 <= i <= 4
  {
    match i
    case 1 => TimesB2(Rotl32(TimesB1(k), 15))
    case 2 => TimesB3(Rotl32(TimesB2(k), 16))
    case 3 => TimesB4(Rotl32(TimesB3(k), 17))
    case _ => TimesB1(Rotl32(TimesB4(k), 18))
  }

  function Unlane(i: nat, k: bv32): bv32
    requires 1 <= i <= 4
  {
    match i
    case 1 => OverB1(Rotl32(OverB2(k), 17))
    case 2 => OverB2(Rotl32(OverB3(k), 16))
    case 3 => OverB3(Rotl32(OverB4(k), 15))
    case _ => OverB4(Rotl32(OverB1(k), 14))
  }

  lemma LaneUndone(i: nat, k: bv32)
    requires 1 <= i <= 4
    ensures Unlane(i, Lane(i, k)) == k
  {
    hide TimesB1, TimesB2, TimesB3, TimesB4, OverB1, OverB2, OverB3, OverB4, Rotl32;
    match i
    case 1 =>
      TimesB1Undone(k);
      Rotl32Undone(TimesB1(k), 15);
      TimesB2Undone(Rotl32(TimesB1(k), 15));
    case 2 =>
      TimesB2Undone(k);
      Rotl32Undone(TimesB2(k), 16);
      TimesB3Undone(Rotl32(TimesB2(k), 16));
    case 3 =>
      TimesB3Undone(k);
      Rotl32Undone(TimesB3(k), 17);
      TimesB4Undone(Rotl32(TimesB3(k), 17));
    case _ =>
      TimesB4Undone(k);
      Rotl32Undone(TimesB4(k), 18);
      TimesB1Undone(Rotl32(TimesB4(k), 18));
  }

  lemma UnlaneUndone(i: nat, k: bv32)
    requires 1 <= i <= 4
    ensures Lane(i, Unlane(i, k)) == k
  {
    hide TimesB1, TimesB2, TimesB3, TimesB4, OverB1, OverB2, OverB3, OverB4, Rotl32;
    match i
    case 1 =>
      OverB2Undone(k);
      Rotl32Undone(OverB2(k), 15);
      OverB1Undone(Rotl32(OverB2(k), 17));
    case 2 =>
      OverB3Undone(k);
      Rotl32Undone(OverB3(k), 16);
      OverB2Undone(Rotl32(OverB3(k), 16));
    case 3 =>
      OverB4Undone(k);
      Rotl32Undone(OverB4(k), 17);
      OverB3Undone(Rotl32(OverB4(k), 15));
    case _ =>
      OverB1Undone(k);
      Rotl32Undone(OverB1(k), 18);
      OverB4Undone(Rotl32(OverB1(k), 14));
  }

  /** A lane after its word is in: rotate by `r`, add the neighbour, times 5, add `n`. */
  function Stir(h: bv32, neighbour: bv32, r: nat, n: bv32): bv32
    requires r in {13, 15, 17, 19}
  {
    Plus32(TimesFive(Plus32(Rotl32(h, r), neighbour)), n)
  }

  function Unstir(h: bv32, neighbour: bv32, r: nat, n: bv32): bv32
    requires r in {13, 15, 17, 19}
  {
    Rotl32(Minus32(OverFive(Minus32(h, n)), neighbour), 32 - r)
  }

  lemma StirUndone(h: bv32, neighbour: bv32, r: nat, n: bv32)
    requires r in {13, 15, 17, 19}
    ensures Unstir(Stir(h, neighbour, r, n), neighbour, r, n) == h
    ensures Stir(Unstir(h, neighbour, r, n), neighbour, r, n) == h
  {
    hide TimesFive, OverFive, Rotl32, Plus32, Minus32;
    Rotl32Undone(h, r);
    var x := Plus32(Rotl32(h, r), neighbour);
    Minus32Undoes(Rotl32(h, r), neighbour);
    TimesFiveUndone(x);
    Minus32Undoes(TimesFive(x), n);
    var y := Minus32(h, n);
    Plus32Undoes(h, n);
    OverFiveUndone(y);
    Plus32Undoes(OverFive(y), neighbour);
    Rotl32Undone(Minus32(OverFive(y), neighbour), r);
  }

  /** One turn of the loop; the last lane gets the new value of the first. */
  function Step(h: Quad, k: Quad): Quad {
    var g1 := Stir(Xor32(h.w1, Lane(1, k.w1)), h.w2, 19, 0x561ccd1b);
    var g2 := Stir(Xor32(h.w2, Lane(2, k.w2)), h.w3, 17, 0x0bcaa747);
    var g3 := Stir(Xor32(h.w3, Lane(3, k.w3)), h.w4, 15, 0x96cd1c35);
    var g4 := Stir(Xor32(h.w4, Lane(4, k.w4)), g1, 13, 0x32ac3b17);
    Quad(g1, g2, g3, g4)
  }

  /** The state before a turn, from the state after it and the block. */
  function Unstep(g: Quad, k: Quad): Quad {
    var h4 := Xor32(Unstir(g.w4, g.w1, 13, 0x32ac3b17), Lane(4, k.w4));
    var h3 := Xor32(Unstir(g.w3, h4, 15, 0x96cd1c35), Lane(3, k.w3));
    var h2 := Xor32(Unstir(g.w2, h3, 17, 0x0bcaa747), Lane(2, k.w2));
    var h1 := Xor32(Unstir(g.w1, h2, 19, 0x561ccd1b), Lane(1, k.w1));
    Quad(h1, h2, h3, h4)
  }

  /** The block, from the states before and after a turn. */
  function BlockBetween(h: Quad, g: Quad): Quad {
    Quad(Unlane(1, Xor32(h.w1, Unstir(g.w1, h.w2, 19, 0x561ccd1b))),
         Unlane(2, Xor32(h.w2, Unstir(g.w2, h.w3, 17, 0x0bcaa747))),
         Unlane(3, Xor32(h.w3, Unstir(g.w3, h.w4, 15, 0x96cd1c35))),
         Unlane(4, Xor32(h.w4, Unstir(g.w4, g.w1, 13, 0x32ac3b17))))
  }

  lemma LaneStep(i: nat, h: bv32, k: bv32, neighbour: bv32, r: nat, n: bv32)
    requires 1 <= i <= 4 && r in {13, 15, 17, 19}
    ensures var g := Stir(Xor32(h, Lane(i, k)), neighbour, r, n);
            && Xor32(Unstir(g, neighbour, r, n), Lane(i, k)) == h
            && Unlane(i, Xor32(h, Unstir(g, neighbour, r, n))) == k
  {
    hide Stir, Unstir, Lane, Unlane, Xor32;
    StirUndone(Xor32(h, Lane(i, k)), neighbour, r, n);
    Xor32Undone(h, Lane(i, k));
    LaneUndone(i, k);
  }

  lemma LaneBack(i: nat, g: bv32, k: bv32, neighbour: bv32, r: nat, n: bv32)
    requires 1 <= i <= 4 && r in {13, 15, 17, 19}
    ensures Stir(Xor32(Xor32(Unstir(g, neighbour, r, n), Lane(i, k)), Lane(i, k)), neighbour, r, n) == g
  {
    hide Stir, Unstir, Lane, Xor32;
    StirUndone(g, neighbour, r, n);
    Xor32Undone(Unstir(g, neighbour, r, n), Lane(i, k));
  }

  lemma LaneBetween(i: nat, h: bv32, g: bv32, neighbour: bv32, r: nat, n: bv32)
    requires 1 <= i <= 4 && r in {13, 15, 17, 19}
    ensures Stir(Xor32(h, Lane(i, Unlane(i, Xor32(h, Unstir(g, neighbour, r, n))))), neighbour, r, n) == g
  {
    hide Stir, Unstir, Lane, Unlane, Xor32;
    UnlaneUndone(i, Xor32(h, Unstir(g, neighbour, r, n)));
    Xor32Undone(h, Unstir(g, neighbour, r, n));
    StirUndone(g, neighbour, r, n);
  }

  lemma StepUndone(h: Quad, k: Quad)
    ensures Unstep(Step(h, k), k) == h
    ensures BlockBetween(h, Step(h, k)) == k
  {
    hide Stir, Unstir, Lane, Unlane, Xor32;
    var g := Step(h, k);
    LaneStep(1, h.w1, k.w1, h.w2, 19, 0x561ccd1b);
    LaneStep(2, h.w2, k.w2, h.w3, 17, 0x0bcaa747);
    LaneStep(3, h.w3, k.w3, h.w4, 15, 0x96cd1c35);
    LaneStep(4, h.w4, k.w4, g.w1, 13, 0x32ac3b17);
  }

  lemma UnstepUndone(g: Quad, k: Quad)
    ensures Step(Unstep(g, k), k) == g
  {
    hide Stir, Unstir, Lane, Xor32;
    var h := Unstep(g, k);
    LaneBack(4, g.w4, k.w4, g.w1, 13, 0x32ac3b17);
    LaneBack(3, g.w3, k.w3, h.w4, 15, 0x96cd1c35);
    LaneBack(2, g.w2, k.w2, h.w3, 17, 0x0bcaa747);
    LaneBack(1, g.w1, k.w1, h.w2, 19, 0x561ccd1b);
  }

  lemma StepReaches(h: Quad, g: Quad)
    ensures Step(h, BlockBetween(h, g)) == g
  {
    hide Stir, Unstir, Lane, Unlane, Xor32;
    LaneBetween(1, h.w1, g.w1, h.w2, 19, 0x561ccd1b);
    LaneBetween(2, h.w2, g.w2, h.w3, 17, 0x0bcaa747);
    LaneBetween(3, h.w3, g.w3, h.w4, 15, 0x96cd1c35);
    LaneBetween(4, h.w4, g.w4, g.w1, 13, 0x32ac3b17);
  }

  lemma StepProperties()
    ensures Undoes(Step, Unstep) && KeepsStates(Step) && TellsBlocks(Step)
  {
    hide Step, Unstep, BlockBetween;
    forall h, k
      ensures Unstep(Step(h, k), k) == h && Step(Unstep(h, k), k) == h
    {
      StepUndone(h, k);
      UnstepUndone(h, k);
    }
    assert Undoes(Step, Unstep);
    UndoneKeepsStates(Step, Unstep);
    forall h, k, l | Step(h, k) == Step(h, l)
      ensures k == l
    {
      StepUndone(h, k);
      StepUndone(h, l);
    }
  }

  // ----- the tail and the finalization -----

  /** The bytes of the tail that belong to lane `i`. */
  function Part(tail: seq<bv8>, i: nat): (part: seq<bv8>)
    requires 1 <= i <= 4
    ensures |part| <= 4
  {
    var at := 4 * i - 4;
    if |tail| <= at then [] else if |tail| >= at + 4 then tail[at..at + 4] else tail[at..]
  }

  lemma PartsMakeTail(tail: seq<bv8>)
    requires |tail| <= 16
    ensures tail == Part(tail, 1) + Part(tail, 2) + Part(tail, 3) + Part(tail, 4)
  {
  }

  function AbsorbPart(i: nat, h: bv32, part: seq<bv8>): bv32
    requires 1 <= i <= 4 && |part| <= 4
  {
    if |part| == 0 then h else Xor32(h, Lane(i, Packed32(part, 0)))
  }

  function Absorb(h: Quad, tail: seq<bv8>): Quad {
    Quad(AbsorbPart(1, h.w1, Part(tail, 1)), AbsorbPart(2, h.w2, Part(tail, 2)),
         AbsorbPart(3, h.w3, Part(tail, 3)), AbsorbPart(4, h.w4, Part(tail, 4)))
  }

  lemma AbsorbPartUndone(i: nat, h: bv32, part: seq<bv8>)
    requires 1 <= i <= 4 && |part| <= 4
    ensures AbsorbPart(i, AbsorbPart(i, h, part), part) == h
  {
    hide Lane, Xor32, Packed32;
    if |part| > 0 {
      Xor32Undone(h, Lane(i, Packed32(part, 0)));
    }
  }

  lemma AbsorbUndone(h: Quad, tail: seq<bv8>)
    ensures Absorb(Absorb(h, tail), tail) == h
  {
    hide AbsorbPart, Part;
    AbsorbPartUndone(1, h.w1, Part(tail, 1));
    AbsorbPartUndone(2, h.w2, Part(tail, 2));
    AbsorbPartUndone(3, h.w3, Part(tail, 3));
    AbsorbPartUndone(4, h.w4, Part(tail, 4));
  }

  lemma AbsorbPartTells(i: nat, h: bv32, part: seq<bv8>, part': seq<bv8>)
    requires 1 <= i <= 4 && |part| == |part'| <= 4 && AbsorbPart(i, h, part) == AbsorbPart(i, h, part')
    ensures part == part'
  {
    hide Lane, Unlane, Xor32, Packed32;
    if |part| > 0 {
      Xor32Undone(h, Lane(i, Packed32(part, 0)));
      Xor32Undone(h, Lane(i, Packed32(part', 0)));
      LaneUndone(i, Packed32(part, 0));
      LaneUndone(i, Packed32(part', 0));
      Packed32Injective(part, part');
    }
  }

  lemma AbsorbTellsTails(h: Quad, tail: seq<bv8>, tail': seq<bv8>)
    requires |tail| == |tail'| < 16 && Absorb(h, tail) == Absorb(h, tail')
    ensures tail == tail'
  {
    hide AbsorbPart;
    AbsorbPartTells(1, h.w1, Part(tail, 1), Part(tail', 1));
    AbsorbPartTells(2, h.w2, Part(tail, 2), Part(tail', 2));
    AbsorbPartTells(3, h.w3, Part(tail, 3), Part(tail', 3));
    AbsorbPartTells(4, h.w4, Part(tail, 4), Part(tail', 4));
    PartsMakeTail(tail);
    PartsMakeTail(tail');
  }

  /** h1 += h2, h3, h4, and the sum to all the others. */
  function Spread(h: Quad): Quad {
    var h1 := Plus32(Plus32(Plus32(h.w1, h.w2), h.w3), h.w4);
    Quad(h1, Plus32(h.w2, h1), Plus32(h.w3, h1), Plus32(h.w4, h1))
  }

  function Unspread(h: Quad): Quad {
    var h2, h3, h4 := Minus32(h.w2, h.w1), Minus32(h.w3, h.w1), Minus32(h.w4, h.w1);
    Quad(Minus32(Minus32(Minus32(h.w1, h4), h3), h2), h2, h3, h4)
  }

  lemma SpreadUndone(h: Quad)
    ensures Unspread(Spread(h)) == h && Spread(Unspread(h)) == h
  {
    hide Plus32, Minus32;
    var g, u := Spread(h), Unspread(h);
    Minus32Undoes(h.w1, h.w2);
    Minus32Undoes(Plus32(h.w1, h.w2), h.w3);
    Minus32Undoes(Plus32(Plus32(h.w1, h.w2), h.w3), h.w4);
    Minus32Undoes(h.w2, g.w1);
    Minus32Undoes(h.w3, g.w1);
    Minus32Undoes(h.w4, g.w1);
    Plus32Undoes(h.w1, u.w4);
    Plus32Undoes(Minus32(h.w1, u.w4), u.w3);
    Plus32Undoes(Minus32(Minus32(h.w1, u.w4), u.w3), u.w2);
    Plus32Undoes(h.w2, h.w1);
    Plus32Undoes(h.w3, h.w1);
    Plus32Undoes(h.w4, h.w1);
  }

  function XorAll(h: Quad, n: bv32): Quad {
    Quad(Xor32(h.w1, n), Xor32(h.w2, n), Xor32(h.w3, n), Xor32(h.w4, n))
  }

  lemma XorAllUndone(h: Quad, n: bv32)
    ensures XorAll(XorAll(h, n), n) == h
  {
    hide Xor32;
    Xor32Undone(h.w1, n);
    Xor32Undone(h.w2, n);
    Xor32Undone(h.w3, n);
    Xor32Undone(h.w4, n);
  }

  function FmixAll(h: Quad): Quad {
    Quad(Fmix32(h.w1), Fmix32(h.w2), Fmix32(h.w3), Fmix32(h.w4))
  }

  function UnfmixAll(h: Quad): Quad {
    Quad(Unfmix32(h.w1), Unfmix32(h.w2), Unfmix32(h.w3), Unfmix32(h.w4))
  }

  lemma FmixAllUndone(h: Quad)
    ensures UnfmixAll(FmixAll(h)) == h && FmixAll(UnfmixAll(h)) == h
  {
    hide Fmix32, Unfmix32;
    Fmix32Undone(h.w1);
    Fmix32Undone(h.w2);
    Fmix32Undone(h.w3);
    Fmix32Undone(h.w4);
  }

  function Finish(h: Quad, length: bv32): Quad {
    Spread(FmixAll(Spread(XorAll(h, length))))
  }

  function Unfinish(digest: Quad, length: bv32): Quad {
    XorAll(Unspread(UnfmixAll(Unspread(digest))), length)
  }

  lemma FinishUndone(h: Quad, length: bv32)
    ensures Unfinish(Finish(h, length), length) == h && Finish(Unfinish(h, length), length) == h
  {
    hide Spread, Unspread, FmixAll, UnfmixAll, XorAll;
    var x := XorAll(h, length);
    XorAllUndone(h, length);
    SpreadUndone(x);
    FmixAllUndone(Spread(x));
    SpreadUndone(FmixAll(Spread(x)));
    var y := Unspread(h);
    SpreadUndone(h);
    FmixAllUndone(y);
    SpreadUndone(UnfmixAll(y));
    XorAllUndone(Unspread(UnfmixAll(y)), length);
  }

  // ----- the hash -----

  /** The four words of 16 bytes, as a little-endian machine reads them. */
  function Load(block: seq<bv8>): Quad
    requires |block| == 16
  {
    Quad(Packed32(block[0..4], 0), Packed32(block[4..8], 0), Packed32(block[8..12], 0), Packed32(block[12..16], 0))
  }

  function Store(k: Quad): (block: seq<bv8>)
    ensures |block| == 16
  {
    Bytes32(k.w1) + Bytes32(k.w2) + Bytes32(k.w3) + Bytes32(k.w4)
  }

  lemma StoreLoads(k: Quad)
    ensures Load(Store(k)) == k
  {
    hide Packed32, Bytes32;
    var b := Store(k);
    assert b[0..4] == Bytes32(k.w1) && b[4..8] == Bytes32(k.w2);
    assert b[8..12] == Bytes32(k.w3) && b[12..16] == Bytes32(k.w4);
    PackedOfBytes32(k.w1);
    PackedOfBytes32(k.w2);
    PackedOfBytes32(k.w3);
    PackedOfBytes32(k.w4);
  }

  lemma LoadInjective(a: seq<bv8>, b: seq<bv8>)
    requires |a| == |b| == 16 && Load(a) == Load(b)
    ensures a == b
  {
    hide Packed32;
    Packed32Injective(a[0..4], b[0..4]);
    Packed32Injective(a[4..8], b[4..8]);
    Packed32Injective(a[8..12], b[8..12]);
    Packed32Injective(a[12..16], b[12..16]);
    assert a == a[0..4] + a[4..8] + a[8..12] + a[12..16];
    assert b == b[0..4] + b[4..8] + b[8..12] + b[12..16];
  }

  function QuadsOf(key: seq<bv8>): (blocks: seq<Quad>)
    ensures |blocks| == |key| / 16
  {
    seq(|key| / 16, i requires 0 <= i < |key| / 16 => Load(Block(key, 16, i)))
  }

  function Length32(key: seq<bv8>): bv32
    requires |key| < 0x8000_0000
  {
    |key| as bv32
  }

  /** The digest of a key. */
  function Hash(key: seq<bv8>, seed: bv32): Quad
    requires |key| < 0x8000_0000
  {
    Finish(Absorb(Run(Step, QuadsOf(key), Quad(seed, seed, seed, seed)), Tail(key, 16)), Length32(key))
  }

  /** MurmurHash3_x86_128. */
  method MurmurHash3(key: seq<bv8>, seed: bv32, out: array<bv32>)
    requires |key| < 0x8000_0000 && out.Length >= 4
    modifies out
    ensures Quad(out[0], out[1], out[2], out[3]) == Hash(key, seed)
    ensures forall i :: 4 <= i < out.Length ==> out[i] == old(out[i])
  {
    hide Step, Load, Length32, Block, Tail, Absorb, Finish;
    var nblocks := |key| / 16;
    var h1, h2, h3, h4 := seed, seed, seed, seed;
    var i := -nblocks;
    ghost var blocks := QuadsOf(key);
    while i != 0
      invariant -nblocks <= i <= 0
      invariant Quad(h1, h2, h3, h4) == Run(Step, blocks[..nblocks + i], Quad(seed, seed, seed, seed))
      modifies {}
    {
      ghost var n := nblocks + i;
      assert blocks[..n + 1][..n] == blocks[..n];
      var k := Load(Block(key, 16, nblocks + i));
      h1, h2, h3, h4 := MixBlock(h1, h2, h3, h4, k);
      i := i + 1;
    }
    assert blocks[..nblocks] == blocks;
    h1, h2, h3, h4 := AddTail(h1, h2, h3, h4, Tail(key, 16));
    h1, h2, h3, h4 := Finalize(h1, h2, h3, h4, Length32(key));
    out[0] := h1;
    out[1] := h2;
    out[2] := h3;
    out[3] := h4;
  }

  /** The body of the loop. */
  method MixBlock(a: bv32, b: bv32, c: bv32, d: bv32, k: Quad) returns (h1: bv32, h2: bv32, h3: bv32, h4: bv32)
    ensures Quad(h1, h2, h3, h4) == Step(Quad(a, b, c, d), k)
  {
    hide TimesFive, Rotl32, Xor32, Plus32, Lane;
    h1, h2, h3, h4 := a, b, c, d;
    h1 := Xor32(h1, Lane(1, k.w1));
    h1 := Rotl32(h1, 19);
    h1 := Plus32(h1, h2);
    h1 := Plus32(TimesFive(h1), 0x561ccd1b);
    h2 := Xor32(h2, Lane(2, k.w2));
    h2 := Rotl32(h2, 17);
    h2 := Plus32(h2, h3);
    h2 := Plus32(TimesFive(h2), 0x0bcaa747);
    h3 := Xor32(h3, Lane(3, k.w3));
    h3 := Rotl32(h3, 15);
    h3 := Plus32(h3, h4);
    h3 := Plus32(TimesFive(h3), 0x96cd1c35);
    h4 := Xor32(h4, Lane(4, k.w4));
    h4 := Rotl32(h4, 13);
    h4 := Plus32(h4, h1);
    h4 := Plus32(TimesFive(h4), 0x32ac3b17);
  }

  /** The cases of the switch that belong to one lane, from its highest byte on. */
  method AddPart(i: nat, h: bv32, part: seq<bv8>) returns (g: bv32)
    requires 1 <= i <= 4 && |part| <= 4
    ensures g == AbsorbPart(i, h, part)
  {
    hide Xor32, Place32, Lane;
    g := h;
    var k: bv32 := 0;
    if |part| >= 4 {
      k := Xor32(k, Place32(part[3], 3));
    }
    assert k == if |part| >= 3 then Packed32(part, 3) else 0;
    if |part| >= 3 {
      k := Xor32(k, Place32(part[2], 2));
    }
    assert k == if |part| >= 2 then Packed32(part, 2) else 0;
    if |part| >= 2 {
      k := Xor32(k, Place32(part[1], 1));
    }
    assert k == if |part| >= 1 then Packed32(part, 1) else 0;
    if |part| >= 1 {
      k := Xor32(k, Place32(part[0], 0));
      g := Xor32(g, Lane(i, k));
    }
  }

  /** The switch, which falls through from the fourth lane to the first. */
  method AddTail(h1: bv32, h2: bv32, h3: bv32, h4: bv32, tail: seq<bv8>)
    returns (g1: bv32, g2: bv32, g3: bv32, g4: bv32)
    ensures Quad(g1, g2, g3, g4) == Absorb(Quad(h1, h2, h3, h4), tail)
  {
    hide AbsorbPart, Part;
    g4 := AddPart(4, h4, Part(tail, 4));
    g3 := AddPart(3, h3, Part(tail, 3));
    g2 := AddPart(2, h2, Part(tail, 2));
    g1 := AddPart(1, h1, Part(tail, 1));
  }

  method Finalize(a: bv32, b: bv32, c: bv32, d: bv32, length: bv32)
    returns (h1: bv32, h2: bv32, h3: bv32, h4: bv32)
    ensures Quad(h1, h2, h3, h4) == Finish(Quad(a, b, c, d), length)
  {
    hide Plus32, Xor32, Fmix32;
    h1, h2, h3, h4 := Xor32(a, length), Xor32(b, length), Xor32(c, length), Xor32(d, length);
    h1, h2, h3, h4 := SpreadSums(h1, h2, h3, h4);
    h1 := Fmix32(h1);
    h2 := Fmix32(h2);
    h3 := Fmix32(h3);
    h4 := Fmix32(h4);
    h1, h2, h3, h4 := SpreadSums(h1, h2, h3, h4);
  }

  method SpreadSums(a: bv32, b: bv32, c: bv32, d: bv32) returns (h1: bv32, h2: bv32, h3: bv32, h4: bv32)
    ensures Quad(h1, h2, h3, h4) == Spread(Quad(a, b, c, d))
  {
    hide Plus32;
    h1 := Plus32(a, b);
    h1 := Plus32(h1, c);
    h1 := Plus32(h1, d);
    h2 := Plus32(b, h1);
    h3 := Plus32(c, h1);
    h4 := Plus32(d, h1);
  }

  // ----- no collisions -----

  /** For every key, different seeds give different digests. */
  lemma SeedsNeverCollide(key: seq<bv8>, s: bv32, t: bv32)
    requires |key| < 0x8000_0000 && Hash(key, s) == Hash(key, t)
    ensures s == t
  {
    hide Finish, Unfinish, Absorb, Step, Length32, QuadsOf, Tail;
    StepProperties();
    var x, y := Quad(s, s, s, s), Quad(t, t, t, t);
    var g, h := Run(Step, QuadsOf(key), x), Run(Step, QuadsOf(key), y);
    FinishUndone(Absorb(g, Tail(key, 16)), Length32(key));
    FinishUndone(Absorb(h, Tail(key, 16)), Length32(key));
    AbsorbUndone(g, Tail(key, 16));
    AbsorbUndone(h, Tail(key, 16));
    RunKeepsStates(Step, QuadsOf(key), x, y);
  }

  /** The 16-byte key that has a given digest. */
  function KeyOf(seed: bv32, digest: Quad): (key: seq<bv8>)
    ensures |key| == 16
  {
    Store(BlockBetween(Quad(seed, seed, seed, seed), Unfinish(digest, 16)))
  }

  lemma NothingAbsorbed(h: Quad)
    ensures Absorb(h, []) == h
  {
  }

  lemma HashOfSixteen(key: seq<bv8>, seed: bv32)
    requires |key| == 16
    ensures Hash(key, seed) == Finish(Step(Quad(seed, seed, seed, seed), Load(key)), 16)
  {
    hide Finish, Step, Load, AbsorbPart;
    var blocks := QuadsOf(key);
    assert Block(key, 16, 0) == key;
    assert blocks[..0] == [];
    assert Run(Step, blocks[..0], Quad(seed, seed, seed, seed)) == Quad(seed, seed, seed, seed);
    assert Length32(key) == 16;
    assert Tail(key, 16) == [];
    NothingAbsorbed(Run(Step, blocks, Quad(seed, seed, seed, seed)));
  }

  /** For every seed the hash is a permutation of the 16-byte keys. */
  lemma SixteenByteKeysPermuted(seed: bv32, key: seq<bv8>, digest: Quad)
    requires |key| == 16
    ensures KeyOf(seed, Hash(key, seed)) == key
    ensures Hash(KeyOf(seed, digest), seed) == digest
  {
    hide Finish, Unfinish, Step, BlockBetween, Load, Store, Hash;
    var h, k := Quad(seed, seed, seed, seed), Load(key);
    HashOfSixteen(key, seed);
    FinishUndone(Step(h, k), 16);
    StepUndone(h, k);
    StoreLoads(k);
    LoadInjective(Store(k), key);
    HashOfSixteen(KeyOf(seed, digest), seed);
    StoreLoads(BlockBetween(h, Unfinish(digest, 16)));
    StepReaches(h, Unfinish(digest, 16));
    FinishUndone(digest, 16);
  }

  lemma QuadsDiffer(a: seq<bv8>, b: seq<bv8>, j: nat)
    requires OneBlockDiffers(a, b, 16, j) && 16 * j + 16 <= |a|
    ensures DifferOnlyAt(QuadsOf(a), QuadsOf(b), j)
  {
    hide Load, Block;
    OtherBlock(a, b, 16, j);
    forall i | 0 <= i < |a| / 16
      ensures i != j <==> QuadsOf(a)[i] == QuadsOf(b)[i]
    {
      if i != j {
        SameBlock(a, b, 16, j, i);
      } else if QuadsOf(a)[j] == QuadsOf(b)[j] {
        LoadInjective(Block(a, 16, j), Block(b, 16, j));
      }
    }
  }

  lemma QuadsSame(a: seq<bv8>, b: seq<bv8>, j: nat)
    requires OneBlockDiffers(a, b, 16, j) && 16 * j + 16 > |a|
    ensures QuadsOf(a) == QuadsOf(b)
  {
    hide Load, Block;
    forall i | 0 <= i < |a| / 16
      ensures QuadsOf(a)[i] == QuadsOf(b)[i]
    {
      SameBlock(a, b, 16, j, i);
    }
  }

  /** Two keys of one length that differ in only one block, or only in the tail, never collide. */
  lemma OneBlockNeverCollides(a: seq<bv8>, b: seq<bv8>, j: nat, seed: bv32)
    requires |a| < 0x8000_0000 && OneBlockDiffers(a, b, 16, j)
    ensures Hash(a, seed) != Hash(b, seed)
  {
    hide Finish, Unfinish, Absorb, Step, Length32, QuadsOf, Tail;
    StepProperties();
    var start := Quad(seed, seed, seed, seed);
    var x, y := Run(Step, QuadsOf(a), start), Run(Step, QuadsOf(b), start);
    var s, t := Absorb(x, Tail(a, 16)), Absorb(y, Tail(b, 16));
    if 16 * j + 16 <= |a| {
      QuadsDiffer(a, b, j);
      SameTail(a, b, 16, j);
      OneBlockMatters(Step, QuadsOf(a), QuadsOf(b), j, start);
      AbsorbUndone(x, Tail(a, 16));
      AbsorbUndone(y, Tail(b, 16));
    } else {
      QuadsSame(a, b, j);
      OtherTail(a, b, 16, j);
      if s == t {
        AbsorbTellsTails(x, Tail(a, 16), Tail(b, 16));
      }
    }
    SameLength(a, b);
    FinishUndone(s, Length32(a));
    FinishUndone(t, Length32(a));
  }

  lemma SameLength(a: seq<bv8>, b: seq<bv8>)
    requires |a| == |b| < 0x8000_0000
    ensures Length32(a) == Length32(b)
  {
  }

  /** Keys of different lengths that are the same blocks, and reach the same state, never collide. */
  lemma LengthMatters(a: seq<bv8>, b: seq<bv8>, seed: bv32)
    requires |a| < 0x8000_0000 && |b| < 0x8000_0000 && |a| != |b| && QuadsOf(a) == QuadsOf(b)
    requires var h := Run(Step, QuadsOf(a), Quad(seed, seed, seed, seed));
             Absorb(h, Tail(a, 16)) == Absorb(h, Tail(b, 16))
    ensures Hash(a, seed) != Hash(b, seed)
  {
    hide Finish, Absorb, Step, Length32, QuadsOf, Tail;
    var h := Absorb(Run(Step, QuadsOf(a), Quad(seed, seed, seed, seed)), Tail(a, 16));
    if Finish(h, Length32(a)) == Finish(h, Length32(b)) {
      FinishTells(h, Length32(a), Length32(b));
      LengthsDiffer(a, b);
    }
  }

  lemma LengthsDiffer(a: seq<bv8>, b: seq<bv8>)
    requires |a| < 0x8000_0000 && |b| < 0x8000_0000 && Length32(a) == Length32(b)
    ensures |a| == |b|
  {
    NumberWordsDiffer(|a|, |b|);
  }

  lemma FinishTells(h: Quad, m: bv32, n: bv32)
    requires Finish(h, m) == Finish(h, n)
    ensures m == n
  {
    hide Spread, Unspread, FmixAll, UnfmixAll, Xor32;
    SpreadUndone(FmixAll(Spread(XorAll(h, m))));
    SpreadUndone(FmixAll(Spread(XorAll(h, n))));
    FmixAllUndone(Spread(XorAll(h, m)));
    FmixAllUndone(Spread(XorAll(h, n)));
    SpreadUndone(XorAll(h, m));
    SpreadUndone(XorAll(h, n));
    Xor32Undone(h.w1, m);
    Xor32Undone(h.w1, n);
  }
}
