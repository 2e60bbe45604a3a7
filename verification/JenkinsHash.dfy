/**
 * hash_bytes and its variants: all code paths compute one function, and keys that differ in one
 * chunk only never end in the same three words.
 */
module JenkinsHash {
  import opened Chains
  import opened Jenkins
  import opened KeyBlocks
  import opened Words

  // ----- the last bytes, added one by one -----

  function Position(i: nat, offset: nat, big: bool): (p: nat)
    requires i + offset < 4
    ensures p < 4
  {
    if big then 3 - i else i + offset
  }

  /** `h` with the bytes of `part` from `i` on added to it, the last byte first. */
  function Added(h: bv32, part: seq<bv8>, i: nat, offset: nat, big: bool): bv32
    requires i <= |part| && |part| + offset <= 4
    decreases |part| - i
  {
    if i == |part| then h
    else Plus32(Added(h, part, i + 1, offset, big), Place32(part[i], Position(i, offset, big)))
  }

  /** What byte `i` adds, which is nothing if it is missing. */
  function Share(part: seq<bv8>, i: nat, offset: nat, big: bool): bv32
    requires |part| + offset <= 4
  {
    if i < |part| then Place32(part[i], Position(i, offset, big)) else 0
  }

  lemma AddedShare(h: bv32, part: seq<bv8>, i: nat, offset: nat, big: bool)
    requires i < 4 && |part| + offset <= 4
    ensures Added(h, part, if i < |part| then i else |part|, offset, big) ==
            Plus32(Added(h, part, if i + 1 < |part| then i + 1 else |part|, offset, big), Share(part, i, offset, big))
  {
    hide Plus32, Place32;
    if i >= |part| {
      PlusZero(h);
    }
  }

  lemma AddedShares(h: bv32, part: seq<bv8>, offset: nat, big: bool)
    requires |part| + offset <= 4
    ensures Added(h, part, 0, offset, big) ==
            Plus32(Plus32(Plus32(Plus32(h, Share(part, 3, offset, big)), Share(part, 2, offset, big)),
                          Share(part, 1, offset, big)), Share(part, 0, offset, big))
  {
    hide Plus32, Share;
    AddedShare(h, part, 0, offset, big);
    AddedShare(h, part, 1, offset, big);
    AddedShare(h, part, 2, offset, big);
    AddedShare(h, part, 3, offset, big);
  }

  lemma PlaceZero(i: nat)
    requires i < 4
    ensures Place32(0, i) == 0
  {
  }

  lemma ShareIs(part: seq<bv8>, i: nat, offset: nat, big: bool)
    requires i + offset < 4 && |part| + offset <= 4
    ensures Share(part, i, offset, big) == Place32(Get(part, i), Position(i, offset, big))
  {
    hide Place32;
    PlaceZero(Position(i, offset, big));
  }

  lemma GetMissing(part: seq<bv8>, i: nat)
    requires i >= |part|
    ensures Get(part, i) == 0
  {
  }

  /** Adding the bytes one by one adds the word they make. */
  lemma AddedIsWord(h: bv32, part: seq<bv8>, offset: nat, big: bool)
    requires offset <= 1 && |part| + offset <= 4
    ensures Added(h, part, 0, offset, big) == Plus32(h, Native(part, offset, big))
  {
    hide Plus32, Place32, Word4, Sum4, Get, Added;
    var x0, x1, x2, x3 := Get(part, 0), Get(part, 1), Get(part, 2), Get(part, 3);
    AddedShares(h, part, offset, big);
    ShareIs(part, 0, offset, big);
    ShareIs(part, 1, offset, big);
    ShareIs(part, 2, offset, big);
    if offset == 0 {
      ShareIs(part, 3, offset, big);
      if big {
        Upward(h, Place32(x3, 0), Place32(x2, 1), Place32(x1, 2), Place32(x0, 3));
        Sum4IsWord4(x3, x2, x1, x0);
      } else {
        Downward(h, Place32(x0, 0), Place32(x1, 1), Place32(x2, 2), Place32(x3, 3));
        Sum4IsWord4(x0, x1, x2, x3);
      }
    } else {
      GetMissing(part, 3);
      PlusZero(h);
      PlaceZero(0);
      if big {
        Upward(h, Place32(x3, 0), Place32(x2, 1), Place32(x1, 2), Place32(x0, 3));
        Sum4IsWord4(x3, x2, x1, x0);
      } else {
        Downward(h, Place32(0, 0), Place32(x0, 1), Place32(x1, 2), Place32(x2, 3));
        Sum4IsWord4(0, x0, x1, x2);
        PlusZero(Plus32(Plus32(Plus32(h, Place32(x2, 3)), Place32(x1, 2)), Place32(x0, 1)));
      }
    }
  }

  /** The cases of a switch over the last bytes that belong to one word. */
  method AddBytes(h: bv32, part: seq<bv8>, offset: nat, big: bool) returns (g: bv32)
    requires offset <= 1 && |part| + offset <= 4
    ensures g == Plus32(h, Native(part, offset, big))
  {
    hide Plus32, Place32, Native, Position;
    g := h;
    if |part| >= 4 {
      g := Plus32(g, Place32(part[3], Position(3, offset, big)));
    }
    assert g == if |part| >= 3 then Added(h, part, 3, offset, big) else h;
    if |part| >= 3 {
      g := Plus32(g, Place32(part[2], Position(2, offset, big)));
    }
    assert g == if |part| >= 2 then Added(h, part, 2, offset, big) else h;
    if |part| >= 2 {
      g := Plus32(g, Place32(part[1], Position(1, offset, big)));
    }
    assert g == if |part| >= 1 then Added(h, part, 1, offset, big) else h;
    if |part| >= 1 {
      g := Plus32(g, Place32(part[0], Position(0, offset, big)));
    }
    AddedIsWord(h, part, offset, big);
  }

  // ----- steps -----

  function Add(s: Triple, w: Triple): Triple {
    Triple(Plus32(s.a, w.a), Plus32(s.b, w.b), Plus32(s.c, w.c))
  }

  function Subtract(s: Triple, w: Triple): Triple {
    Triple(Minus32(s.a, w.a), Minus32(s.b, w.b), Minus32(s.c, w.c))
  }

  lemma AddUndone(s: Triple, w: Triple)
    ensures Subtract(Add(s, w), w) == s && Add(Subtract(s, w), w) == s
  {
    hide Plus32, Minus32;
    Minus32Undoes(s.a, w.a);
    Minus32Undoes(s.b, w.b);
    Minus32Undoes(s.c, w.c);
    Plus32Undoes(s.a, w.a);
    Plus32Undoes(s.b, w.b);
    Plus32Undoes(s.c, w.c);
  }

  lemma AddCommutative(s: Triple, w: Triple)
    ensures Add(s, w) == Add(w, s)
  {
    hide Plus32;
    PlusCommutative(s.a, w.a);
    PlusCommutative(s.b, w.b);
    PlusCommutative(s.c, w.c);
  }

  /** One chunk of twelve bytes. */
  function Step(s: Triple, w: Triple): Triple {
    Mix(Add(s, w))
  }

  function Unstep(s: Triple, w: Triple): Triple {
    Subtract(Unmix(s), w)
  }

  lemma AddCancels(s: Triple, v: Triple, w: Triple)
    requires Add(s, v) == Add(s, w)
    ensures v == w
  {
    hide Add, Subtract;
    AddCommutative(s, v);
    AddCommutative(s, w);
    AddUndone(v, s);
    AddUndone(w, s);
  }

  lemma StepProperties()
    ensures Undoes(Step, Unstep) && KeepsStates(Step) && TellsBlocks(Step)
  {
    hide Mix, Unmix, Add, Subtract;
    forall s, w
      ensures Unstep(Step(s, w), w) == s && Step(Unstep(s, w), w) == s
    {
      MixReversible(Add(s, w));
      MixReversible(s);
      AddUndone(s, w);
      AddUndone(Unmix(s), w);
    }
    assert Undoes(Step, Unstep);
    UndoneKeepsStates(Step, Unstep);
    forall s, v, w | Step(s, v) == Step(s, w)
      ensures v == w
    {
      MixReversible(Add(s, v));
      MixReversible(Add(s, w));
      AddCancels(s, v, w);
    }
  }

  // ----- the hash -----

  /** The bytes of `t` that belong to word `i`. */
  function Part(t: seq<bv8>, i: nat): (part: seq<bv8>)
    requires i < 3
    ensures |part| <= 4 && (|t| < 12 && i == 2 ==> |part| <= 3)
  {
    var at := 4 * i;
    if |t| <= at then [] else if |t| >= at + 4 then t[at..at + 4] else t[at..]
  }

  lemma PartsMakeWhole(t: seq<bv8>)
    requires |t| <= 12
    ensures t == Part(t, 0) + Part(t, 1) + Part(t, 2)
  {
  }

  /** The three words of a chunk. */
  function Load(chunk: seq<bv8>, big: bool): Triple
    requires |chunk| == 12
  {
    Triple(Native(chunk[0..4], 0, big), Native(chunk[4..8], 0, big), Native(chunk[8..12], 0, big))
  }

  /** The three words of the last bytes; the lowest byte of c is reserved for the length. */
  function TailWords(tail: seq<bv8>, big: bool): Triple
    requires |tail| < 12
  {
    Triple(Native(Part(tail, 0), 0, big), Native(Part(tail, 1), 0, big), Native(Part(tail, 2), 1, big))
  }

  function Chunks(key: seq<bv8>, big: bool): (chunks: seq<Triple>)
    ensures |chunks| == |key| / 12
  {
    seq(|key| / 12, i requires 0 <= i < |key| / 12 => Load(Block(key, 12, i), big))
  }

  function InitialWord(len: nat): bv32
    requires len < 0x8000_0000
  {
    0x9e3779b9 + (len as bv32) + 3923095
  }

  function Initial(len: nat): Triple
    requires len < 0x8000_0000
  {
    Triple(InitialWord(len), InitialWord(len), InitialWord(len))
  }

  function High(seed: bv64): bv32 {
    (seed >> 32) as bv32
  }

  function LowHalf(seed: bv64): bv32 {
    (seed & 0xffff_ffff) as bv32
  }

  /** A seed perturbs the initial state; 0 means no seed. */
  function Seeded(s: Triple, seed: bv64): Triple {
    if seed == 0 then s else Mix(Triple(Plus32(s.a, High(seed)), Plus32(s.b, LowHalf(seed)), s.c))
  }

  /** The chunks and the last bytes of a key, from a given state on. */
  function AbsorbKey(s: Triple, key: seq<bv8>, big: bool): Triple {
    Add(Run(Step, Chunks(key, big), s), TailWords(Tail(key, 12), big))
  }

  /** (a, b, c) at the end. */
  function End(key: seq<bv8>, seed: bv64, big: bool): Triple
    requires |key| < 0x8000_0000
  {
    Final(AbsorbKey(Seeded(Initial(|key|), seed), key, big))
  }

  function Digest(key: seq<bv8>, big: bool): bv32
    requires |key| < 0x8000_0000
  {
    End(key, 0, big).c
  }

  function Join(b: bv32, c: bv32): bv64 {
    ((b as bv64) << 32) | (c as bv64)
  }

  function WideDigest(key: seq<bv8>, seed: bv64, big: bool): bv64
    requires |key| < 0x8000_0000
  {
    var e := End(key, seed, big);
    Join(e.b, e.c)
  }

  // ----- the code, path by path -----

  /** A word of an aligned key, read as the machine reads it. */
  function ReadWord(key: seq<bv8>, k: nat, big: bool): bv32
    requires k + 4 <= |key|
  {
    Native(key[k..k + 4], 0, big)
  }

  /** A word of an unaligned key, put together from its bytes. */
  method GatherWord(key: seq<bv8>, k: nat, big: bool) returns (w: bv32)
    requires k + 4 <= |key|
    ensures w == ReadWord(key, k, big)
  {
    hide Plus32, Place32, Word4;
    var t := key[k..k + 4];
    if big {
      w := Plus32(Plus32(Plus32(Place32(key[k + 3], 0), Place32(key[k + 2], 1)), Place32(key[k + 1], 2)),
                  Place32(key[k], 3));
      Sum4Reversed(Place32(t[3], 0), Place32(t[2], 1), Place32(t[1], 2), Place32(t[0], 3));
      Sum4IsWord4(t[3], t[2], t[1], t[0]);
    } else {
      w := Plus32(Plus32(Plus32(Place32(key[k], 0), Place32(key[k + 1], 1)), Place32(key[k + 2], 2)),
                  Place32(key[k + 3], 3));
      Sum4Reversed(Place32(t[0], 0), Place32(t[1], 1), Place32(t[2], 2), Place32(t[3], 3));
      Sum4IsWord4(t[0], t[1], t[2], t[3]);
    }
  }

  /** The switch of the aligned paths: whole words where there are any. */
  method AddTailAligned(s: Triple, tail: seq<bv8>, big: bool) returns (a: bv32, b: bv32, c: bv32)
    requires |tail| < 12
    ensures Triple(a, b, c) == Add(s, TailWords(tail, big))
  {
    hide Plus32, Native;
    a, b, c := s.a, s.b, s.c;
    if |tail| >= 8 {
      c := AddBytes(c, tail[8..], 1, big);
      b := Plus32(b, ReadWord(tail, 4, big));
      a := Plus32(a, ReadWord(tail, 0, big));
    } else if |tail| >= 4 {
      b := AddBytes(b, tail[4..], 0, big);
      a := Plus32(a, ReadWord(tail, 0, big));
      NothingAdded(c, 1, big);
    } else {
      a := AddBytes(a, tail, 0, big);
      NothingAdded(b, 0, big);
      NothingAdded(c, 1, big);
    }
  }

  lemma NothingAdded(h: bv32, offset: nat, big: bool)
    requires offset <= 1
    ensures Plus32(h, Native([], offset, big)) == h
  {
    hide Plus32, Native;
    AddedIsWord(h, [], offset, big);
  }

  /** The switch of the unaligned paths, which falls through byte by byte. */
  method AddTailBytes(s: Triple, tail: seq<bv8>, big: bool) returns (a: bv32, b: bv32, c: bv32)
    requires |tail| < 12
    ensures Triple(a, b, c) == Add(s, TailWords(tail, big))
  {
    hide Plus32, Native;
    c := AddBytes(s.c, Part(tail, 2), 1, big);
    b := AddBytes(s.b, Part(tail, 1), 0, big);
    a := AddBytes(s.a, Part(tail, 0), 0, big);
  }

  /** The part hash_bytes and hash_bytes_extended share: four code paths, one result. */
  method AbsorbBytes(s: Triple, key: seq<bv8>, aligned: bool, big: bool) returns (a: bv32, b: bv32, c: bv32)
    ensures Triple(a, b, c) == AbsorbKey(s, key, big)
  {
    hide Mix, Native, Plus32, Tail, TailWords, Final;
    a, b, c := s.a, s.b, s.c;
    ghost var chunks := Chunks(key, big);
    var k, len := 0, |key|;
    var i := 0;
    while len >= 12
      invariant k == 12 * i && len == |key| - k && i <= |key| / 12
      invariant Triple(a, b, c) == Run(Step, chunks[..i], s)
      decreases len
    {
      assert chunks[..i + 1][..i] == chunks[..i];
      ChunkWords(key, i, big);
      var w0, w1, w2;
      if aligned {
        w0, w1, w2 := ReadWord(key, k, big), ReadWord(key, k + 4, big), ReadWord(key, k + 8, big);
      } else {
        w0 := GatherWord(key, k, big);
        w1 := GatherWord(key, k + 4, big);
        w2 := GatherWord(key, k + 8, big);
      }
      a := Plus32(a, w0);
      b := Plus32(b, w1);
      c := Plus32(c, w2);
      a, b, c := MixWords(Triple(a, b, c));
      k := k + 12;
      len := len - 12;
      i := i + 1;
    }
    assert chunks[..i] == chunks;
    TailIs(key, k);
    if aligned {
      a, b, c := AddTailAligned(Triple(a, b, c), key[k..], big);
    } else {
      a, b, c := AddTailBytes(Triple(a, b, c), key[k..], big);
    }
  }

  lemma ChunkWords(key: seq<bv8>, i: nat, big: bool)
    requires 12 * i + 12 <= |key|
    ensures i < |key| / 12
    ensures Chunks(key, big)[i] ==
            Triple(ReadWord(key, 12 * i, big), ReadWord(key, 12 * i + 4, big), ReadWord(key, 12 * i + 8, big))
  {
    hide Native;
    var k, chunk := 12 * i, Block(key, 12, i);
    assert chunk[0..4] == key[k..k + 4];
    assert chunk[4..8] == key[k + 4..k + 8];
    assert chunk[8..12] == key[k + 8..k + 12];
  }

  lemma TailIs(key: seq<bv8>, k: nat)
    requires k == 12 * (|key| / 12)
    ensures k <= |key| && key[k..] == Tail(key, 12) && |key[k..]| < 12
  {
  }

  /** hash_bytes: the same for aligned and unaligned keys. */
  method HashBytes(key: seq<bv8>, aligned: bool, big: bool) returns (h: bv32)
    requires |key| < 0x8000_0000
    ensures h == Digest(key, big)
  {
    hide AbsorbKey, Final, Initial;
    var s := Initial(|key|);
    var a, b, c := AbsorbBytes(s, key, aligned, big);
    a, b, c := FinalWords(Triple(a, b, c));
    return c;
  }

  /** hash_bytes_extended. */
  method HashBytesExtended(key: seq<bv8>, seed: bv64, aligned: bool, big: bool) returns (h: bv64)
    requires |key| < 0x8000_0000
    ensures h == WideDigest(key, seed, big)
  {
    hide AbsorbKey, Final, Initial, Mix, Plus32, High, LowHalf, Join;
    var s := Initial(|key|);
    var a, b, c := s.a, s.b, s.c;
    if seed != 0 {
      a := Plus32(a, High(seed));
      b := Plus32(b, LowHalf(seed));
      a, b, c := MixWords(Triple(a, b, c));
    }
    a, b, c := AbsorbBytes(Triple(a, b, c), key, aligned, big);
    a, b, c := FinalWords(Triple(a, b, c));
    return Join(b, c);
  }

  // ----- four bytes -----

  /** The four bytes of a word in memory. */
  function NativeBytes(k: bv32, big: bool): (t: seq<bv8>)
    ensures |t| == 4
  {
    if big then [Byte32(k, 3), Byte32(k, 2), Byte32(k, 1), Byte32(k, 0)]
    else [Byte32(k, 0), Byte32(k, 1), Byte32(k, 2), Byte32(k, 3)]
  }

  lemma Word4OfBytes(k: bv32)
    ensures Word4(Byte32(k, 0), Byte32(k, 1), Byte32(k, 2), Byte32(k, 3)) == k
  {
  }

  lemma NativeOfBytes(k: bv32, big: bool)
    ensures Native(NativeBytes(k, big), 0, big) == k
  {
    hide Word4, Byte32;
    Word4OfBytes(k);
  }

  lemma AbsorbFour(s: Triple, key: seq<bv8>, big: bool)
    requires |key| == 4
    ensures AbsorbKey(s, key, big) == Triple(Plus32(s.a, Native(key, 0, big)), s.b, s.c)
  {
    hide Plus32, Native, Mix;
    assert Chunks(key, big) == [] && Tail(key, 12) == key;
    assert Part(key, 0) == key;
    NothingAdded(s.b, 0, big);
    NothingAdded(s.c, 1, big);
  }

  /** hash_bytes_uint32: the digest of the four bytes of `k`, in whichever order they stand in memory. */
  method HashBytesUint32(k: bv32) returns (h: bv32)
    ensures forall big :: h == Digest(NativeBytes(k, big), big)
  {
    hide AbsorbKey, Final, Initial, Native, Plus32;
    var s := Initial(4);
    var a := Plus32(s.a, k);
    var b, c;
    a, b, c := FinalWords(Triple(a, s.b, s.c));
    h := c;
    forall big
      ensures h == Digest(NativeBytes(k, big), big)
    {
      AbsorbFour(s, NativeBytes(k, big), big);
      NativeOfBytes(k, big);
    }
  }

  /** hash_bytes_uint32_extended. */
  method HashBytesUint32Extended(k: bv32, seed: bv64) returns (h: bv64)
    ensures forall big :: h == WideDigest(NativeBytes(k, big), seed, big)
  {
    hide AbsorbKey, Final, Initial, Native, Plus32, Mix, High, LowHalf, Join;
    var s := Initial(4);
    var a, b, c := s.a, s.b, s.c;
    if seed != 0 {
      a := Plus32(a, High(seed));
      b := Plus32(b, LowHalf(seed));
      a, b, c := MixWords(Triple(a, b, c));
    }
    ghost var seeded := Triple(a, b, c);
    a := Plus32(a, k);
    a, b, c := FinalWords(Triple(a, b, c));
    h := Join(b, c);
    forall big
      ensures h == WideDigest(NativeBytes(k, big), seed, big)
    {
      AbsorbFour(seeded, NativeBytes(k, big), big);
      NativeOfBytes(k, big);
    }
  }

  /** tag_hash, for any key size. */
  method TagHash(key: seq<bv8>, aligned: bool, big: bool) returns (h: bv32)
    requires |key| < 0x8000_0000
    ensures h == Digest(key, big)
  {
    h := HashBytes(key, aligned, big);
  }

  /** uint32_hash, which reads the key as one word: the same as tag_hash. */
  method Uint32Hash(key: seq<bv8>, big: bool) returns (h: bv32)
    requires |key| == 4
    ensures h == Digest(key, big)
  {
    hide Digest;
    var k := ReadWord(key, 0, big);
    h := HashBytesUint32(k);
    BytesReadBack(key, big);
  }

  lemma BytesReadBack(key: seq<bv8>, big: bool)
    requires |key| == 4
    ensures NativeBytes(ReadWord(key, 0, big), big) == key
  {
    hide Word4, Byte32;
    assert key[0..4] == key;
    if big {
      BytesOfWord4(key[3], key[2], key[1], key[0]);
    } else {
      BytesOfWord4(key[0], key[1], key[2], key[3]);
    }
  }

  // ----- the theorems -----

  /** The low word of the extended hash with seed 0 is the plain hash. */
  lemma ExtendedExtends(key: seq<bv8>, big: bool)
    requires |key| < 0x8000_0000
    ensures LowHalf(WideDigest(key, 0, big)) == Digest(key, big)
  {
    hide End, LowHalf, Join;
    LowOfJoin(End(key, 0, big).b, End(key, 0, big).c);
  }

  lemma LowOfJoin(b: bv32, c: bv32)
    ensures LowHalf(Join(b, c)) == c && High(Join(b, c)) == b
  {
  }

  lemma SeededIsStep(s: Triple, seed: bv64)
    requires seed != 0
    ensures Seeded(s, seed) == Step(s, Triple(High(seed), LowHalf(seed), 0))
  {
    hide Mix, Plus32, High, LowHalf;
    PlusZero(s.c);
  }

  /** A seed that is not 0 counts as one more chunk, padded with four zero bytes. */
  lemma SeedIsChunk(key: seq<bv8>, seed: bv64, big: bool)
    requires |key| < 0x8000_0000 && seed != 0
    ensures var chunks := [Triple(High(seed), LowHalf(seed), 0)] + Chunks(key, big);
            End(key, seed, big) == Final(Add(Run(Step, chunks, Initial(|key|)), TailWords(Tail(key, 12), big)))
  {
    hide Mix, Final, Plus32, Initial, TailWords, Chunks, Tail, High, LowHalf, Add;
    var s, w := Initial(|key|), Triple(High(seed), LowHalf(seed), 0);
    SeededIsStep(s, seed);
    RunFirst(s, w, Chunks(key, big));
  }

  lemma {:induction false} RunFirst(s: Triple, w: Triple, chunks: seq<Triple>)
    ensures Run(Step, [w] + chunks, s) == Run(Step, chunks, Step(s, w))
    decreases |chunks|
  {
    hide Step;
    if |chunks| == 0 {
      assert [w] + chunks == [w] && [w][..0] == [];
      assert Run(Step, [w][..0], s) == s;
    } else {
      var n := |chunks| - 1;
      assert ([w] + chunks)[..n + 1] == [w] + chunks[..n];
      RunFirst(s, w, chunks[..n]);
    }
  }

  lemma LoadInjective(x: seq<bv8>, y: seq<bv8>, big: bool)
    requires |x| == |y| == 12 && Load(x, big) == Load(y, big)
    ensures x == y
  {
    hide Native;
    NativeInjective(x[0..4], y[0..4], 0, big);
    NativeInjective(x[4..8], y[4..8], 0, big);
    NativeInjective(x[8..12], y[8..12], 0, big);
    assert x == x[0..4] + x[4..8] + x[8..12] && y == y[0..4] + y[4..8] + y[8..12];
  }

  lemma TailWordsInjective(x: seq<bv8>, y: seq<bv8>, big: bool)
    requires |x| == |y| < 12 && TailWords(x, big) == TailWords(y, big)
    ensures x == y
  {
    hide Native;
    NativeInjective(Part(x, 0), Part(y, 0), 0, big);
    NativeInjective(Part(x, 1), Part(y, 1), 0, big);
    NativeInjective(Part(x, 2), Part(y, 2), 1, big);
    PartsMakeWhole(x);
    PartsMakeWhole(y);
  }

  lemma ChunksDiffer(x: seq<bv8>, y: seq<bv8>, j: nat, big: bool)
    requires OneBlockDiffers(x, y, 12, j) && 12 * j + 12 <= |x|
    ensures DifferOnlyAt(Chunks(x, big), Chunks(y, big), j)
  {
    hide Load, Block;
    OtherBlock(x, y, 12, j);
    forall i | 0 <= i < |x| / 12
      ensures i != j <==> Chunks(x, big)[i] == Chunks(y, big)[i]
    {
      if i != j {
        SameBlock(x, y, 12, j, i);
      } else if Chunks(x, big)[j] == Chunks(y, big)[j] {
        LoadInjective(Block(x, 12, j), Block(y, 12, j), big);
      }
    }
  }

  lemma ChunksSame(x: seq<bv8>, y: seq<bv8>, j: nat, big: bool)
    requires OneBlockDiffers(x, y, 12, j) && 12 * j + 12 > |x|
    ensures Chunks(x, big) == Chunks(y, big)
  {
    hide Load, Block;
    forall i | 0 <= i < |x| / 12
      ensures Chunks(x, big)[i] == Chunks(y, big)[i]
    {
      SameBlock(x, y, 12, j, i);
    }
  }

  /**
   * Two keys of one length that differ in only one chunk of twelve bytes, or only in the last ones,
   * end in different (a, b, c).
   */
  lemma OneChunkMatters(x: seq<bv8>, y: seq<bv8>, j: nat, seed: bv64, big: bool)
    requires |x| < 0x8000_0000 && OneBlockDiffers(x, y, 12, j)
    ensures End(x, seed, big) != End(y, seed, big)
  {
    hide Final, Unfinal, Add, Subtract, Step, TailWords, Chunks, Tail, Seeded;
    StepProperties();
    var s := Seeded(Initial(|x|), seed);
    var v, w := Run(Step, Chunks(x, big), s), Run(Step, Chunks(y, big), s);
    var t, u := TailWords(Tail(x, 12), big), TailWords(Tail(y, 12), big);
    if 12 * j + 12 <= |x| {
      ChunksDiffer(x, y, j, big);
      SameTail(x, y, 12, j);
      OneBlockMatters(Step, Chunks(x, big), Chunks(y, big), j, s);
      AddUndone(v, t);
      AddUndone(w, t);
    } else {
      ChunksSame(x, y, j, big);
      OtherTail(x, y, 12, j);
      if Add(v, t) == Add(w, u) {
        AddCancels(v, t, u);
        TailWordsInjective(Tail(x, 12), Tail(y, 12), big);
      }
    }
    FinalReversible(Add(v, t));
    FinalReversible(Add(w, u));
  }

  lemma SummandsDiffer(v: bv32, w: bv32)
    requires 0x9e3779b9 + v + 3923095 == 0x9e3779b9 + w + 3923095
    ensures v == w
  {
  }

  lemma InitialWordsDiffer(m: nat, n: nat)
    requires m < 0x8000_0000 && n < 0x8000_0000 && InitialWord(m) == InitialWord(n)
    ensures m == n
  {
    SummandsDiffer(m as bv32, n as bv32);
    NumberWordsDiffer(m, n);
  }

  /**
   * Keys of different lengths that are the same words, as when zero bytes are added at the end, end
   * in different (a, b, c).
   */
  lemma LengthMatters(x: seq<bv8>, y: seq<bv8>, seed: bv64, big: bool)
    requires |x| < 0x8000_0000 && |y| < 0x8000_0000 && |x| != |y|
    requires Chunks(x, big) == Chunks(y, big) && TailWords(Tail(x, 12), big) == TailWords(Tail(y, 12), big)
    ensures End(x, seed, big) != End(y, seed, big)
  {
    hide Final, Unfinal, Add, Subtract, Step, TailWords, Chunks, Tail, Seeded, InitialWord;
    StepProperties();
    if InitialWord(|x|) == InitialWord(|y|) {
      InitialWordsDiffer(|x|, |y|);
    }
    var s, t := Seeded(Initial(|x|), seed), Seeded(Initial(|y|), seed);
    if s == t {
      SeededKeeps(Initial(|x|), Initial(|y|), seed);
    }
    var words := TailWords(Tail(x, 12), big);
    var v, w := Run(Step, Chunks(x, big), s), Run(Step, Chunks(y, big), t);
    if v == w {
      RunKeepsStates(Step, Chunks(x, big), s, t);
    }
    AddUndone(v, words);
    AddUndone(w, words);
    FinalReversible(Add(v, words));
    FinalReversible(Add(w, words));
  }

  lemma StepKeeps(s: Triple, t: Triple, w: Triple)
    requires Step(s, w) == Step(t, w)
    ensures s == t
  {
    hide Step;
    StepProperties();
  }

  lemma SeededKeeps(s: Triple, t: Triple, seed: bv64)
    requires Seeded(s, seed) == Seeded(t, seed)
    ensures s == t
  {
    if seed != 0 {
      hide *;
      SeededIsStep(s, seed);
      SeededIsStep(t, seed);
      StepKeeps(s, t, Triple(High(seed), LowHalf(seed), 0));
    }
  }

  /** Zero bytes added to the last bytes of a key change its digest words. */
  lemma ZerosMatter(x: seq<bv8>, zeros: seq<bv8>, seed: bv64, big: bool)
    requires |zeros| > 0 && |x| % 12 + |zeros| < 12 && |x| + |zeros| < 0x8000_0000
    requires forall i :: 0 <= i < |zeros| ==> zeros[i] == 0
    ensures End(x + zeros, seed, big) != End(x, seed, big)
  {
    hide End;
    var y := x + zeros;
    assert |y| / 12 == |x| / 12;
    forall i | 0 <= i < |x| / 12
      ensures Chunks(y, big)[i] == Chunks(x, big)[i]
    {
      assert Block(y, 12, i) == Block(x, 12, i);
    }
    assert Chunks(y, big) == Chunks(x, big);
    assert Tail(y, 12) == Tail(x, 12) + zeros;
    ZerosAddNothing(Tail(x, 12), zeros, big);
    LengthMatters(x, y, seed, big);
  }

  lemma ZerosAddNothing(t: seq<bv8>, zeros: seq<bv8>, big: bool)
    requires |t| + |zeros| < 12 && forall i :: 0 <= i < |zeros| ==> zeros[i] == 0
    ensures TailWords(t + zeros, big) == TailWords(t, big)
  {
    hide Native;
    SamePart(t, zeros, 0);
    SamePart(t, zeros, 1);
    SamePart(t, zeros, 2);
    SameNative(Part(t + zeros, 0), Part(t, 0), 0, big);
    SameNative(Part(t + zeros, 1), Part(t, 1), 0, big);
    SameNative(Part(t + zeros, 2), Part(t, 2), 1, big);
  }

  predicate SameBytes(p: seq<bv8>, q: seq<bv8>) {
    Get(p, 0) == Get(q, 0) && Get(p, 1) == Get(q, 1) && Get(p, 2) == Get(q, 2) && Get(p, 3) == Get(q, 3)
  }

  lemma SamePart(t: seq<bv8>, zeros: seq<bv8>, i: nat)
    requires i < 3 && |t| + |zeros| < 12 && forall k :: 0 <= k < |zeros| ==> zeros[k] == 0
    ensures SameBytes(Part(t + zeros, i), Part(t, i))
  {
  }

  lemma SameNative(p: seq<bv8>, q: seq<bv8>, offset: nat, big: bool)
    requires SameBytes(p, q)
    ensures Native(p, offset, big) == Native(q, offset, big)
  {
    hide Get, Word4;
  }
}
