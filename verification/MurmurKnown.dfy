/**
 * Known digests of murmur3.c, worked out statement by statement: they fix the constants, rotations and
 * byte orders, and that blocks, tail, length and seed go where the code puts them.
 */
module MurmurKnown {
  import opened Chains
  import opened KeyBlocks
  import opened MurmurFactors
  import opened MurmurMix
  import opened Words
  import M32 = Murmur32
  import M64 = Murmur64
  import M128 = Murmur128

  // ----- x86_32 -----

  lemma PackFour()
    ensures Packed32([97, 98, 99, 100], 0) == 0x64636261
  {
  }

  lemma PackThree()
    ensures Packed32([101, 102, 103], 0) == 0x00676665
  {
  }

  lemma TurnAndTail()
    ensures M32.Step(0x9747b28c, 0x64636261) == 0x1719cb66
    ensures M32.Lane(0x00676665) == 0xbd611b72
    ensures Xor32(0x1719cb66, 0xbd611b72) == 0xaa78d014
  {
  }

  lemma FmixSevenStages()
    ensures Shifted32(0xaa78d013, 16) == 0xaa787a6b && TimesF1(0xaa787a6b) == 0x482c98b9
    ensures Shifted32(0x482c98b9, 13) == 0x482ed9dd && TimesF2(0x482ed9dd) == 0xbf7150c1
    ensures Shifted32(0xbf7150c1, 16) == 0xbf71efb0
  {
  }

  lemma FmixSeven()
    ensures Fmix32(0xaa78d013) == 0xbf71efb0
  {
    hide Shifted32, TimesF1, TimesF2;
    FmixSevenStages();
  }

  lemma FinishSeven()
    ensures M32.Finish(0xaa78d014, 7) == 0xbf71efb0
  {
    hide Fmix32;
    FmixSeven();
  }

  lemma SevenWords()
    ensures M32.WordsOf([97, 98, 99, 100, 101, 102, 103]) == [Packed32([97, 98, 99, 100], 0)]
    ensures Tail([97, 98, 99, 100, 101, 102, 103], 4) == [101, 102, 103]
    ensures M32.Length32([97, 98, 99, 100, 101, 102, 103]) == 7
  {
    hide Packed32;
    var key: seq<bv8> := [97, 98, 99, 100, 101, 102, 103];
    assert key[0..4] == [97, 98, 99, 100] && key[4..] == [101, 102, 103];
  }

  /** The text "abcdefg", with a seed. */
  lemma SevenLetters()
    ensures M32.Hash([97, 98, 99, 100, 101, 102, 103], 0x9747b28c) == 0xbf71efb0
  {
    SevenWords();
    hide M32.Step, M32.Lane, M32.Finish, Packed32, Xor32, M32.WordsOf, Tail, M32.Length32;
    PackFour();
    PackThree();
    TurnAndTail();
    FinishSeven();
    OneTurn<bv32, bv32>(M32.Step, 0x9747b28c, 0x64636261);
  }

  lemma OneTurn<S, B>(step: (S, B) -> S, s: S, b: B)
    ensures Run(step, [b], s) == step(s, b)
  {
    assert [b][..0] == [];
    assert Run(step, [b][..0], s) == s;
  }

  lemma FmixOneStages()
    ensures Shifted32(0x00000001, 16) == 0x00000001 && TimesF1(0x00000001) == 0x85ebca6b
    ensures Shifted32(0x85ebca6b, 13) == 0x85efe535 && TimesF2(0x85efe535) == 0x514e79f9
    ensures Shifted32(0x514e79f9, 16) == 0x514e28b7
  {
  }

  lemma FmixOne()
    ensures Fmix32(0x00000001) == 0x514e28b7
  {
    hide Shifted32, TimesF1, TimesF2;
    FmixOneStages();
  }

  lemma FinishOne()
    ensures M32.Finish(1, 0) == 0x514e28b7
  {
    hide Fmix32;
    FmixOne();
  }

  /** The empty key with the seed 1. */
  lemma EmptyKey()
    ensures M32.Hash([], 1) == 0x514e28b7
  {
    FinishOne();
  }

  // ----- x86_128 and x64_128 -----

  /** The letters from 'a' to 'z' and the digits from '0' to '4': a block, and fifteen more bytes. */
  const KEY: seq<bv8> := [97, 98, 99, 100, 101, 102, 103, 104, 105, 106, 107, 108, 109, 110, 111, 112,
                          113, 114, 115, 116, 117, 118, 119, 120, 121, 122, 48, 49, 50, 51, 52]

  lemma KeyParts()
    ensures |KEY| == 31 && Block(KEY, 16, 0) == KEY[..16] && Tail(KEY, 16) == KEY[16..]
    ensures KEY[..16] == [97, 98, 99, 100, 101, 102, 103, 104, 105, 106, 107, 108, 109, 110, 111, 112]
    ensures KEY[16..] == [113, 114, 115, 116, 117, 118, 119, 120, 121, 122, 48, 49, 50, 51, 52]
  {
  }

  lemma QuartersOfBlock(b: seq<bv8>)
    requires b == [97, 98, 99, 100, 101, 102, 103, 104, 105, 106, 107, 108, 109, 110, 111, 112]
    ensures b[0..4] == [97, 98, 99, 100] && b[4..8] == [101, 102, 103, 104]
    ensures b[8..12] == [105, 106, 107, 108] && b[12..16] == [109, 110, 111, 112]
  {
  }

  lemma QuartersOfTail(t: seq<bv8>)
    requires t == [113, 114, 115, 116, 117, 118, 119, 120, 121, 122, 48, 49, 50, 51, 52]
    ensures M128.Part(t, 1) == [113, 114, 115, 116] && M128.Part(t, 2) == [117, 118, 119, 120]
    ensures M128.Part(t, 3) == [121, 122, 48, 49] && M128.Part(t, 4) == [50, 51, 52]
  {
    assert t[0..4] == [113, 114, 115, 116] && t[4..8] == [117, 118, 119, 120];
    assert t[8..12] == [121, 122, 48, 49] && t[12..] == [50, 51, 52];
  }

  lemma BlockPacked()
    ensures Packed32([97, 98, 99, 100], 0) == 0x64636261
    ensures Packed32([101, 102, 103, 104], 0) == 0x68676665
    ensures Packed32([105, 106, 107, 108], 0) == 0x6c6b6a69
    ensures Packed32([109, 110, 111, 112], 0) == 0x706f6e6d
  {
  }

  lemma TailPacked()
    ensures Packed32([113, 114, 115, 116], 0) == 0x74737271
    ensures Packed32([117, 118, 119, 120], 0) == 0x78777675
    ensures Packed32([121, 122, 48, 49], 0) == 0x31307a79
    ensures Packed32([50, 51, 52], 0) == 0x00343332
  {
  }

  lemma BlockLanes()
    ensures M128.Lane(1, 0x64636261) == 0x7255abd5
    ensures M128.Lane(2, 0x68676665) == 0x2a7d0525
    ensures M128.Lane(3, 0x6c6b6a69) == 0x04940a85
    ensures M128.Lane(4, 0x706f6e6d) == 0x53690c56
  {
  }

  lemma TailLanes()
    ensures M128.Lane(1, 0x74737271) == 0x5aed1e6b
    ensures M128.Lane(2, 0x78777675) == 0x3749bb9f
    ensures M128.Lane(3, 0x31307a79) == 0xd18996ad
    ensures M128.Lane(4, 0x00343332) == 0xfe3afb9a
  {
  }

  lemma BlockStirred()
    ensures Xor32(0x9747b28c, 0x7255abd5) == 0xe5121959
    ensures M128.Stir(0xe5121959, 0x9747b28c, 19, 0x561ccd1b) == 0x408f14a7
    ensures Xor32(0x9747b28c, 0x2a7d0525) == 0xbd3ab7a9
    ensures M128.Stir(0xbd3ab7a9, 0x9747b28c, 17, 0x0bcaa747) == 0x2cd2884c
    ensures Xor32(0x9747b28c, 0x04940a85) == 0x93d3b809
    ensures M128.Stir(0x93d3b809, 0x9747b28c, 15, 0x96cd1c35) == 0xd74b8a7e
    ensures Xor32(0x9747b28c, 0x53690c56) == 0xc42ebeda
    ensures M128.Stir(0xc42ebeda, 0x408f14a7, 13, 0x32ac3b17) == 0xacc05cf3
  {
  }

  lemma BlockTurned()
    ensures M128.Step(M128.Quad(0x9747b28c, 0x9747b28c, 0x9747b28c, 0x9747b28c),
                      M128.Quad(0x64636261, 0x68676665, 0x6c6b6a69, 0x706f6e6d)) ==
            M128.Quad(0x408f14a7, 0x2cd2884c, 0xd74b8a7e, 0xacc05cf3)
  {
    hide M128.Lane, M128.Stir, Xor32;
    BlockLanes();
    BlockStirred();
  }

  lemma TailXored()
    ensures Xor32(0x408f14a7, 0x5aed1e6b) == 0x1a620acc
    ensures Xor32(0x2cd2884c, 0x3749bb9f) == 0x1b9b33d3
    ensures Xor32(0xd74b8a7e, 0xd18996ad) == 0x06c21cd3
    ensures Xor32(0xacc05cf3, 0xfe3afb9a) == 0x52faa769
  {
  }

  lemma TailAbsorbed(t: seq<bv8>)
    requires t == [113, 114, 115, 116, 117, 118, 119, 120, 121, 122, 48, 49, 50, 51, 52]
    ensures M128.Absorb(M128.Quad(0x408f14a7, 0x2cd2884c, 0xd74b8a7e, 0xacc05cf3), t) ==
            M128.Quad(0x1a620acc, 0x1b9b33d3, 0x06c21cd3, 0x52faa769)
  {
    hide M128.Lane, M128.Part, Packed32, Xor32;
    QuartersOfTail(t);
    TailPacked();
    TailLanes();
    TailXored();
  }

  lemma Fmix1Stages()
    ensures Shifted32(0x8fba02e1, 16) == 0x8fba8d5b && TimesF1(0x8fba8d5b) == 0x500be309
    ensures Shifted32(0x500be309, 13) == 0x50096356 && TimesF2(0x50096356) == 0x314204ce
    ensures Shifted32(0x314204ce, 16) == 0x3142358c
  {
  }

  lemma Fmix1()
    ensures Fmix32(0x8fba02e1) == 0x3142358c
  {
    hide Shifted32, TimesF1, TimesF2;
    Fmix1Stages();
  }

  lemma Fmix2Stages()
    ensures Shifted32(0xab5536ad, 16) == 0xab559df8 && TimesF1(0xab559df8) == 0x0616b6a8
    ensures Shifted32(0x0616b6a8, 13) == 0x0616861d && TimesF2(0x0616861d) == 0xcbfb7a01
    ensures Shifted32(0xcbfb7a01, 16) == 0xcbfbb1fa
  {
  }

  lemma Fmix2()
    ensures Fmix32(0xab5536ad) == 0xcbfbb1fa
  {
    hide Shifted32, TimesF1, TimesF2;
    Fmix2Stages();
  }

  lemma Fmix3Stages()
    ensures Shifted32(0x967c1fad, 16) == 0x967c89d1 && TimesF1(0x967c89d1) == 0x42a7845b
    ensures Shifted32(0x42a7845b, 13) == 0x42a59167 && TimesF2(0x42a59167) == 0x7cb91c53
    ensures Shifted32(0x7cb91c53, 16) == 0x7cb960ea
  {
  }

  lemma Fmix3()
    ensures Fmix32(0x967c1fad) == 0x7cb960ea
  {
    hide Shifted32, TimesF1, TimesF2;
    Fmix3Stages();
  }

  lemma Fmix4Stages()
    ensures Shifted32(0xe2b4aa57, 16) == 0xe2b448e3 && TimesF1(0xe2b448e3) == 0xda3e94e1
    ensures Shifted32(0xda3e94e1, 13) == 0xda384515 && TimesF2(0xda384515) == 0x5f349359
    ensures Shifted32(0x5f349359, 16) == 0x5f34cc6d
  {
  }

  lemma Fmix4()
    ensures Fmix32(0xe2b4aa57) == 0x5f34cc6d
  {
    hide Shifted32, TimesF1, TimesF2;
    Fmix4Stages();
  }

  lemma FinishSums()
    ensures M128.XorAll(M128.Quad(0x1a620acc, 0x1b9b33d3, 0x06c21cd3, 0x52faa769), 31) ==
            M128.Quad(0x1a620ad3, 0x1b9b33cc, 0x06c21ccc, 0x52faa776)
    ensures M128.Spread(M128.Quad(0x1a620ad3, 0x1b9b33cc, 0x06c21ccc, 0x52faa776)) ==
            M128.Quad(0x8fba02e1, 0xab5536ad, 0x967c1fad, 0xe2b4aa57)
    ensures M128.Spread(M128.Quad(0x3142358c, 0xcbfbb1fa, 0x7cb960ea, 0x5f34cc6d)) ==
            M128.Quad(0xd92c14dd, 0xa527c6d7, 0x55e575c7, 0x3860e14a)
  {
  }

  lemma QuadFinished()
    ensures M128.Finish(M128.Quad(0x1a620acc, 0x1b9b33d3, 0x06c21cd3, 0x52faa769), 31) ==
            M128.Quad(0xd92c14dd, 0xa527c6d7, 0x55e575c7, 0x3860e14a)
  {
    hide M128.XorAll, M128.Spread, Fmix32;
    FinishSums();
    Fmix1();
    Fmix2();
    Fmix3();
    Fmix4();
  }

  lemma KeyQuads()
    ensures M128.QuadsOf(KEY) == [M128.Load(KEY[..16])] && M128.Length32(KEY) == 31
  {
    hide M128.Load;
    KeyParts();
  }

  lemma KeyLoaded(b: seq<bv8>)
    requires b == [97, 98, 99, 100, 101, 102, 103, 104, 105, 106, 107, 108, 109, 110, 111, 112]
    ensures M128.Load(b) == M128.Quad(0x64636261, 0x68676665, 0x6c6b6a69, 0x706f6e6d)
  {
    hide Packed32;
    QuartersOfBlock(b);
    BlockPacked();
  }

  /** x86_128 of these 31 bytes, with a seed. */
  lemma QuadDigest()
    ensures M128.Hash(KEY, 0x9747b28c) == M128.Quad(0xd92c14dd, 0xa527c6d7, 0x55e575c7, 0x3860e14a)
  {
    hide *;
    KeyParts();
    KeyQuads();
    KeyLoaded(KEY[..16]);
    BlockTurned();
    TailAbsorbed(KEY[16..]);
    QuadFinished();
    OneTurn<M128.Quad, M128.Quad>(M128.Step, M128.Quad(0x9747b28c, 0x9747b28c, 0x9747b28c, 0x9747b28c),
                                  M128.Quad(0x64636261, 0x68676665, 0x6c6b6a69, 0x706f6e6d));
    QuadHashIs(KEY, 0x9747b28c);
  }

  lemma QuadHashIs(key: seq<bv8>, seed: bv32)
    requires |key| < 0x8000_0000
    ensures M128.Hash(key, seed) ==
            M128.Finish(M128.Absorb(Run(M128.Step, M128.QuadsOf(key), M128.Quad(seed, seed, seed, seed)),
                                    Tail(key, 16)), M128.Length32(key))
  {
  }

  lemma HalvesOfBlock(b: seq<bv8>)
    requires b == [97, 98, 99, 100, 101, 102, 103, 104, 105, 106, 107, 108, 109, 110, 111, 112]
    ensures b[0..8] == [97, 98, 99, 100, 101, 102, 103, 104] && b[8..16] == [105, 106, 107, 108, 109, 110, 111, 112]
  {
  }

  lemma HalvesOfTail(t: seq<bv8>)
    requires t == [113, 114, 115, 116, 117, 118, 119, 120, 121, 122, 48, 49, 50, 51, 52]
    ensures M64.Part(t, 1) == [113, 114, 115, 116, 117, 118, 119, 120]
    ensures M64.Part(t, 2) == [121, 122, 48, 49, 50, 51, 52]
  {
    assert t[0..8] == [113, 114, 115, 116, 117, 118, 119, 120] && t[8..] == [121, 122, 48, 49, 50, 51, 52];
  }

  lemma PackedFirstLater()
    ensures Packed64([97, 98, 99, 100, 101, 102, 103, 104], 4) == 0x6867666500000000
  {
  }

  lemma PackedFirst()
    ensures Packed64([97, 98, 99, 100, 101, 102, 103, 104], 0) == 0x6867666564636261
  {
    PackedFirstLater();
  }

  lemma PackedSecondLater()
    ensures Packed64([105, 106, 107, 108, 109, 110, 111, 112], 4) == 0x706f6e6d00000000
  {
  }

  lemma PackedSecond()
    ensures Packed64([105, 106, 107, 108, 109, 110, 111, 112], 0) == 0x706f6e6d6c6b6a69
  {
    PackedSecondLater();
  }

  lemma PackedThirdLater()
    ensures Packed64([113, 114, 115, 116, 117, 118, 119, 120], 4) == 0x7877767500000000
  {
  }

  lemma PackedThird()
    ensures Packed64([113, 114, 115, 116, 117, 118, 119, 120], 0) == 0x7877767574737271
  {
    PackedThirdLater();
  }

  lemma PackedLastLater()
    ensures Packed64([121, 122, 48, 49, 50, 51, 52], 4) == 0x0034333200000000
  {
  }

  lemma PackedLast()
    ensures Packed64([121, 122, 48, 49, 50, 51, 52], 0) == 0x0034333231307a79
  {
    PackedLastLater();
  }

  lemma LaneOfFirstStages()
    ensures TimesE1(0x6867666564636261) == 0x397be1018d984db5
    ensures Rotl64(0x397be1018d984db5, 31) == 0xc6cc26da9cbdf080
    ensures TimesE2(0xc6cc26da9cbdf080) == 0x2c206eca25d3cf80
  {
  }

  lemma LaneOfFirst()
    ensures M64.Lane(1, 0x6867666564636261) == 0x2c206eca25d3cf80
  {
    hide TimesE1, TimesE2, Rotl64;
    LaneOfFirstStages();
  }

  lemma LaneOfSecondStages()
    ensures TimesE2(0x706f6e6d6c6b6a69) == 0x2c36022f24b11517
    ensures Rotl64(0x2c36022f24b11517, 33) == 0x49622a2e586c045e
    ensures TimesE1(0x49622a2e586c045e) == 0xb70dba9bf5861c36
  {
  }

  lemma LaneOfSecond()
    ensures M64.Lane(2, 0x706f6e6d6c6b6a69) == 0xb70dba9bf5861c36
  {
    hide TimesE1, TimesE2, Rotl64;
    LaneOfSecondStages();
  }

  lemma LaneOfThirdStages()
    ensures TimesE1(0x7877767574737271) == 0x7e4471d9544adb05
    ensures Rotl64(0x7e4471d9544adb05, 31) == 0xaa256d82bf2238ec
    ensures TimesE2(0xaa256d82bf2238ec) == 0x06178446c445c114
  {
  }

  lemma LaneOfThird()
    ensures M64.Lane(1, 0x7877767574737271) == 0x06178446c445c114
  {
    hide TimesE1, TimesE2, Rotl64;
    LaneOfThirdStages();
  }

  lemma LaneOfLastStages()
    ensures TimesE2(0x0034333231307a79) == 0x4991af89aefd3d07
    ensures Rotl64(0x4991af89aefd3d07, 33) == 0x5dfa7a0e93235f13
    ensures TimesE1(0x5dfa7a0e93235f13) == 0x9cb18b06aa2743cf
  {
  }

  lemma LaneOfLast()
    ensures M64.Lane(2, 0x0034333231307a79) == 0x9cb18b06aa2743cf
  {
    hide TimesE1, TimesE2, Rotl64;
    LaneOfLastStages();
  }

  lemma PairStirred()
    ensures Xor64(0x000000009747b28c, 0x2c206eca25d3cf80) == 0x2c206ecab2947d0c
    ensures M64.Stir(0x2c206ecab2947d0c, 0x000000009747b28c, 27, 0x52dce729) == 0xabe7338d2e287533
    ensures Xor64(0x000000009747b28c, 0xb70dba9bf5861c36) == 0xb70dba9b62c1aeba
    ensures M64.Stir(0xb70dba9b62c1aeba, 0xabe7338d2e287533, 31, 0x38495ab5) == 0xd2683694e8b5f735
  {
  }

  lemma PairTurned()
    ensures M64.Step(M64.Pair(0x000000009747b28c, 0x000000009747b28c),
                     M64.Pair(0x6867666564636261, 0x706f6e6d6c6b6a69)) ==
            M64.Pair(0xabe7338d2e287533, 0xd2683694e8b5f735)
  {
    hide M64.Lane, M64.Stir, Xor64;
    LaneOfFirst();
    LaneOfSecond();
    PairStirred();
  }

  lemma PairTailXored()
    ensures Xor64(0xabe7338d2e287533, 0x06178446c445c114) == 0xadf0b7cbea6db427
    ensures Xor64(0xd2683694e8b5f735, 0x9cb18b06aa2743cf) == 0x4ed9bd924292b4fa
  {
  }

  lemma PairTailAbsorbed(t: seq<bv8>)
    requires t == [113, 114, 115, 116, 117, 118, 119, 120, 121, 122, 48, 49, 50, 51, 52]
    ensures M64.Absorb(M64.Pair(0xabe7338d2e287533, 0xd2683694e8b5f735), t) ==
            M64.Pair(0xadf0b7cbea6db427, 0x4ed9bd924292b4fa)
  {
    hide M64.Lane, M64.Part, Packed64, Xor64;
    HalvesOfTail(t);
    PackedThird();
    PackedLast();
    LaneOfThird();
    LaneOfLast();
    PairTailXored();
  }

  lemma WideFmix1Stages()
    ensures Shifted64(0xfcca755e2d00691d, 33) == 0xfcca755e536553b2
    ensures TimesG1(0xfcca755e536553b2) == 0x897809c2c6035d8a
    ensures Shifted64(0x897809c2c6035d8a, 33) == 0x897809c282bf596b
    ensures TimesG2(0x897809c282bf596b) == 0xefd2e2411d0fa1b1
    ensures Shifted64(0xefd2e2411d0fa1b1, 33) == 0xefd2e2416ae6d091
  {
  }

  lemma WideFmix1()
    ensures Fmix64(0xfcca755e2d00691d) == 0xefd2e2416ae6d091
  {
    hide Shifted64, TimesG1, TimesG2;
    WideFmix1Stages();
  }

  lemma WideFmix2Stages()
    ensures Shifted64(0x4ba432f06f931e02, 33) == 0x4ba432f04a41077a
    ensures TimesG1(0x4ba432f04a41077a) == 0x7132bc0073abb4b2
    ensures Shifted64(0x7132bc0073abb4b2, 33) == 0x7132bc004b32eab2
    ensures TimesG2(0x7132bc004b32eab2) == 0xb7e8f55154582fb6
    ensures Shifted64(0xb7e8f55154582fb6, 33) == 0xb7e8f5510fac551e
  {
  }

  lemma WideFmix2()
    ensures Fmix64(0x4ba432f06f931e02) == 0xb7e8f5510fac551e
  {
    hide Shifted64, TimesG1, TimesG2;
    WideFmix2Stages();
  }

  lemma PairSums()
    ensures M64.XorBoth(M64.Pair(0xadf0b7cbea6db427, 0x4ed9bd924292b4fa), 31) ==
            M64.Pair(0xadf0b7cbea6db438, 0x4ed9bd924292b4e5)
    ensures M64.Spread(M64.Pair(0xadf0b7cbea6db438, 0x4ed9bd924292b4e5)) ==
            M64.Pair(0xfcca755e2d00691d, 0x4ba432f06f931e02)
    ensures M64.Spread(M64.Pair(0xefd2e2416ae6d091, 0xb7e8f5510fac551e)) ==
            M64.Pair(0xa7bbd7927a9325af, 0x5fa4cce38a3f7acd)
  {
  }

  lemma PairFinished()
    ensures M64.Finish(M64.Pair(0xadf0b7cbea6db427, 0x4ed9bd924292b4fa), 31) ==
            M64.Pair(0xa7bbd7927a9325af, 0x5fa4cce38a3f7acd)
  {
    hide M64.XorBoth, M64.Spread, Fmix64;
    PairSums();
    WideFmix1();
    WideFmix2();
  }

  lemma KeyPairs()
    ensures M64.PairsOf(KEY) == [M64.Load(KEY[..16])] && M64.Length64(KEY) == 31
    ensures M64.Start(0x9747b28c) == M64.Pair(0x000000009747b28c, 0x000000009747b28c)
  {
    hide M64.Load;
    KeyParts();
  }

  lemma KeyPairLoaded(b: seq<bv8>)
    requires b == [97, 98, 99, 100, 101, 102, 103, 104, 105, 106, 107, 108, 109, 110, 111, 112]
    ensures M64.Load(b) == M64.Pair(0x6867666564636261, 0x706f6e6d6c6b6a69)
  {
    hide Packed64;
    HalvesOfBlock(b);
    PackedFirst();
    PackedSecond();
  }

  /** x64_128 of the same bytes and seed. */
  lemma PairDigest()
    ensures M64.Hash(KEY, 0x9747b28c) == M64.Pair(0xa7bbd7927a9325af, 0x5fa4cce38a3f7acd)
  {
    hide *;
    KeyParts();
    KeyPairs();
    KeyPairLoaded(KEY[..16]);
    PairTurned();
    PairTailAbsorbed(KEY[16..]);
    PairFinished();
    OneTurn<M64.Pair, M64.Pair>(M64.Step, M64.Pair(0x000000009747b28c, 0x000000009747b28c),
                                M64.Pair(0x6867666564636261, 0x706f6e6d6c6b6a69));
    PairHashIs(KEY, 0x9747b28c);
  }

  lemma PairHashIs(key: seq<bv8>, seed: bv32)
    requires |key| < 0x8000_0000
    ensures M64.Hash(key, seed) ==
            M64.Finish(M64.Absorb(Run(M64.Step, M64.PairsOf(key), M64.Start(seed)), Tail(key, 16)), M64.Length64(key))
  {
  }
}
