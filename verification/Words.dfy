/** Machine words: the operations hash functions are made of, and how each of them is undone. */
module Words {
  function Xor32(a: bv32, b: bv32): bv32 {
    a ^ b
  }

  function Plus32(a: bv32, b: bv32): bv32 {
    a + b
  }

  function Minus32(a: bv32, b: bv32): bv32 {
    a - b
  }

  function Rotl32(x: bv32, r: nat): bv32
    requires 0 < r < 32
  {
    (x << r) | (x >> (32 - r))
  }

  /** h ^= h >> r. */
  function Shifted32(x: bv32, r: nat): bv32
    requires 0 < r < 32
  {
    x ^ (x >> r)
  }

  function Xor64(a: bv64, b: bv64): bv64 {
    a ^ b
  }

  function Plus64(a: bv64, b: bv64): bv64 {
    a + b
  }

  function Minus64(a: bv64, b: bv64): bv64 {
    a - b
  }

  function Rotl64(x: bv64, r: nat): bv64
    requires 0 < r < 64
  {
    (x << r) | (x >> (64 - r))
  }

  function Shifted64(x: bv64, r: nat): bv64
    requires 0 < r < 64
  {
    x ^ (x >> r)
  }

  // ----- undoing them -----

  lemma MinusOfSum32(a: bv32, b: bv32)
    ensures Minus32(a + b, b) == a
  {
  }

  lemma SumOfMinus32(a: bv32, b: bv32)
    ensures Plus32(a - b, b) == a
  {
  }

  lemma Minus32Undoes(a: bv32, b: bv32)
    ensures Minus32(Plus32(a, b), b) == a
  {
    hide Minus32;
    MinusOfSum32(a, b);
  }

  lemma Plus32Undoes(a: bv32, b: bv32)
    ensures Plus32(Minus32(a, b), b) == a
  {
    hide Plus32;
    SumOfMinus32(a, b);
  }

  lemma Xor32Undone(a: bv32, b: bv32)
    ensures Xor32(Xor32(a, b), b) == a && Xor32(a, Xor32(a, b)) == b
  {
  }

  lemma MinusOfSum64(a: bv64, b: bv64)
    ensures Minus64(a + b, b) == a
  {
  }

  lemma SumOfMinus64(a: bv64, b: bv64)
    ensures Plus64(a - b, b) == a
  {
  }

  lemma Minus64Undoes(a: bv64, b: bv64)
    ensures Minus64(Plus64(a, b), b) == a
  {
    hide Minus64;
    MinusOfSum64(a, b);
  }

  lemma Plus64Undoes(a: bv64, b: bv64)
    ensures Plus64(Minus64(a, b), b) == a
  {
    hide Plus64;
    SumOfMinus64(a, b);
  }

  lemma Xor64Undone(a: bv64, b: bv64)
    ensures Xor64(Xor64(a, b), b) == a && Xor64(a, Xor64(a, b)) == b
  {
  }

  lemma Rotl32By13Undone(x: bv32)
    ensures Rotl32(Rotl32(x, 13), 19) == x && Rotl32(Rotl32(x, 19), 13) == x
  {
  }

  lemma Rotl32By15Undone(x: bv32)
    ensures Rotl32(Rotl32(x, 15), 17) == x && Rotl32(Rotl32(x, 17), 15) == x
  {
  }

  lemma Rotl32By16Undone(x: bv32)
    ensures Rotl32(Rotl32(x, 16), 16) == x && Rotl32(Rotl32(x, 16), 16) == x
  {
  }

  lemma Rotl32By17Undone(x: bv32)
    ensures Rotl32(Rotl32(x, 17), 15) == x && Rotl32(Rotl32(x, 15), 17) == x
  {
  }

  lemma Rotl32By18Undone(x: bv32)
    ensures Rotl32(Rotl32(x, 18), 14) == x && Rotl32(Rotl32(x, 14), 18) == x
  {
  }

  lemma Rotl32By19Undone(x: bv32)
    ensures Rotl32(Rotl32(x, 19), 13) == x && Rotl32(Rotl32(x, 13), 19) == x
  {
  }

  lemma Rotl32Undone(x: bv32, r: nat)
    requires r in {13, 15, 16, 17, 18, 19}
    ensures Rotl32(Rotl32(x, r), 32 - r) == x && Rotl32(Rotl32(x, 32 - r), r) == x
  {
    hide Rotl32;
    match r
    case 13 => Rotl32By13Undone(x);
    case 15 => Rotl32By15Undone(x);
    case 16 => Rotl32By16Undone(x);
    case 17 => Rotl32By17Undone(x);
    case 18 => Rotl32By18Undone(x);
    case _ => Rotl32By19Undone(x);
  }

  lemma Rotl64By27Undone(x: bv64)
    ensures Rotl64(Rotl64(x, 27), 37) == x && Rotl64(Rotl64(x, 37), 27) == x
  {
  }

  lemma Rotl64By31Undone(x: bv64)
    ensures Rotl64(Rotl64(x, 31), 33) == x && Rotl64(Rotl64(x, 33), 31) == x
  {
  }

  lemma Rotl64By33Undone(x: bv64)
    ensures Rotl64(Rotl64(x, 33), 31) == x && Rotl64(Rotl64(x, 31), 33) == x
  {
  }

  lemma Rotl64Undone(x: bv64, r: nat)
    requires r in {27, 31, 33}
    ensures Rotl64(Rotl64(x, r), 64 - r) == x && Rotl64(Rotl64(x, 64 - r), r) == x
  {
    hide Rotl64;
    match r
    case 27 => Rotl64By27Undone(x);
    case 31 => Rotl64By31Undone(x);
    case _ => Rotl64By33Undone(x);
  }

  lemma ShiftedOf16(x: bv32)
    ensures Shifted32(x ^ (x >> 16), 16) == x
  {
  }

  lemma Shifted32By16Undone(x: bv32)
    ensures Shifted32(Shifted32(x, 16), 16) == x
  {
    ShiftedOf16(x);
    assert x ^ (x >> 16) == Shifted32(x, 16);
  }

  lemma ShiftedOf33(x: bv64)
    ensures Shifted64(x ^ (x >> 33), 33) == x
  {
  }

  lemma Shifted64By33Undone(x: bv64)
    ensures Shifted64(Shifted64(x, 33), 33) == x
  {
    ShiftedOf33(x);
    assert x ^ (x >> 33) == Shifted64(x, 33);
  }

  /** Undoes Shifted32(_, 13). */
  function Unshifted13(x: bv32): bv32 {
    x ^ (x >> 13) ^ (x >> 26)
  }

  lemma UnshiftedOf13(x: bv32)
    ensures Unshifted13(x ^ (x >> 13)) == x
  {
  }

  lemma Shifted32By13Undone(x: bv32)
    ensures Unshifted13(Shifted32(x, 13)) == x
  {
    hide Unshifted13;
    UnshiftedOf13(x);
  }

  lemma ShiftedOf13(x: bv32)
    ensures Shifted32(x ^ (x >> 13) ^ (x >> 26), 13) == x
  {
  }

  lemma Unshifted13Undone(x: bv32)
    ensures Shifted32(Unshifted13(x), 13) == x
  {
    hide Shifted32;
    ShiftedOf13(x);
  }

  // ----- bytes of words, the lowest first -----

  function Place32(b: bv8, i: nat): bv32
    requires i < 4
  {
    match i
    case 0 => b as bv32
    case 1 => (b as bv32) << 8
    case 2 => (b as bv32) << 16
    case _ => (b as bv32) << 24
  }

  function Byte32(w: bv32, i: nat): bv8
    requires i < 4
  {
    match i
    case 0 => (w & 255) as bv8
    case 1 => ((w >> 8) & 255) as bv8
    case 2 => ((w >> 16) & 255) as bv8
    case _ => ((w >> 24) & 255) as bv8
  }

  /** The bytes of `t` from `i` on, the highest put in first; from 0 on, the little-endian word. */
  function Packed32(t: seq<bv8>, i: nat): bv32
    requires i <= |t| <= 4
    decreases |t| - i
  {
    if i == |t| then 0 else Xor32(Packed32(t, i + 1), Place32(t[i], i))
  }

  function Place64(b: bv8, i: nat): bv64
    requires i < 8
  {
    match i
    case 0 => b as bv64
    case 1 => (b as bv64) << 8
    case 2 => (b as bv64) << 16
    case 3 => (b as bv64) << 24
    case 4 => (b as bv64) << 32
    case 5 => (b as bv64) << 40
    case 6 => (b as bv64) << 48
    case _ => (b as bv64) << 56
  }

  function Byte64(w: bv64, i: nat): bv8
    requires i < 8
  {
    match i
    case 0 => (w & 255) as bv8
    case 1 => ((w >> 8) & 255) as bv8
    case 2 => ((w >> 16) & 255) as bv8
    case 3 => ((w >> 24) & 255) as bv8
    case 4 => ((w >> 32) & 255) as bv8
    case 5 => ((w >> 40) & 255) as bv8
    case 6 => ((w >> 48) & 255) as bv8
    case _ => ((w >> 56) & 255) as bv8
  }

  function Packed64(t: seq<bv8>, i: nat): bv64
    requires i <= |t| <= 8
    decreases |t| - i
  {
    if i == |t| then 0 else Xor64(Packed64(t, i + 1), Place64(t[i], i))
  }

  function XorByte(a: bv8, b: bv8): bv8 {
    a ^ b
  }

  lemma XorByteZero(a: bv8)
    ensures XorByte(a, 0) == a && XorByte(0, a) == a
  {
  }

  lemma XorByte0Of32(x: bv32, y: bv32)
    ensures Byte32(x ^ y, 0) == XorByte(Byte32(x, 0), Byte32(y, 0))
  {
    assert ((x ^ y) & 255) as bv8 == ((x & 255) as bv8) ^ ((y & 255) as bv8);
  }

  lemma XorByte1Of32(x: bv32, y: bv32)
    ensures Byte32(x ^ y, 1) == XorByte(Byte32(x, 1), Byte32(y, 1))
  {
    assert (((x ^ y) >> 8) & 255) as bv8 == (((x >> 8) & 255) as bv8) ^ (((y >> 8) & 255) as bv8);
  }

  lemma XorByte2Of32(x: bv32, y: bv32)
    ensures Byte32(x ^ y, 2) == XorByte(Byte32(x, 2), Byte32(y, 2))
  {
    assert (((x ^ y) >> 16) & 255) as bv8 == (((x >> 16) & 255) as bv8) ^ (((y >> 16) & 255) as bv8);
  }

  lemma XorByte3Of32(x: bv32, y: bv32)
    ensures Byte32(x ^ y, 3) == XorByte(Byte32(x, 3), Byte32(y, 3))
  {
    assert (((x ^ y) >> 24) & 255) as bv8 == (((x >> 24) & 255) as bv8) ^ (((y >> 24) & 255) as bv8);
  }

  lemma Byte32OfXor(x: bv32, y: bv32, j: nat)
    requires j < 4
    ensures Byte32(Xor32(x, y), j) == XorByte(Byte32(x, j), Byte32(y, j))
  {
    hide Byte32, XorByte;
    match j
    case 0 => XorByte0Of32(x, y);
    case 1 => XorByte1Of32(x, y);
    case 2 => XorByte2Of32(x, y);
    case _ => XorByte3Of32(x, y);
  }

  lemma Byte32OfPlace(b: bv8, i: nat, j: nat)
    requires i < 4 && j < 4
    ensures Byte32(Place32(b, i), j) == if i == j then b else 0
  {
  }

  lemma Byte32OfZero(j: nat)
    requires j < 4
    ensures Byte32(0, j) == 0
  {
  }

  /** The bytes can be read back from the word. */
  lemma {:induction false} Byte32OfPacked(t: seq<bv8>, i: nat, j: nat)
    requires i <= |t| <= 4 && j < 4
    ensures Byte32(Packed32(t, i), j) == if i <= j < |t| then t[j] else 0
    decreases |t| - i
  {
    hide Byte32, Place32, XorByte, Xor32;
    if i == |t| {
      Byte32OfZero(j);
    } else {
      Byte32OfPacked(t, i + 1, j);
      Byte32OfXor(Packed32(t, i + 1), Place32(t[i], i), j);
      Byte32OfPlace(t[i], i, j);
      XorByteZero(t[i]);
      XorByteZero(Byte32(Packed32(t, i + 1), j));
    }
  }

  lemma XorByte0Of64(x: bv64, y: bv64)
    ensures Byte64(x ^ y, 0) == XorByte(Byte64(x, 0), Byte64(y, 0))
  {
    assert ((x ^ y) & 255) as bv8 == ((x & 255) as bv8) ^ ((y & 255) as bv8);
  }

  lemma XorByte1Of64(x: bv64, y: bv64)
    ensures Byte64(x ^ y, 1) == XorByte(Byte64(x, 1), Byte64(y, 1))
  {
    assert (((x ^ y) >> 8) & 255) as bv8 == (((x >> 8) & 255) as bv8) ^ (((y >> 8) & 255) as bv8);
  }

  lemma XorByte2Of64(x: bv64, y: bv64)
    ensures Byte64(x ^ y, 2) == XorByte(Byte64(x, 2), Byte64(y, 2))
  {
    assert (((x ^ y) >> 16) & 255) as bv8 == (((x >> 16) & 255) as bv8) ^ (((y >> 16) & 255) as bv8);
  }

  lemma XorByte3Of64(x: bv64, y: bv64)
    ensures Byte64(x ^ y, 3) == XorByte(Byte64(x, 3), Byte64(y, 3))
  {
    assert (((x ^ y) >> 24) & 255) as bv8 == (((x >> 24) & 255) as bv8) ^ (((y >> 24) & 255) as bv8);
  }

  lemma XorByte4Of64(x: bv64, y: bv64)
    ensures Byte64(x ^ y, 4) == XorByte(Byte64(x, 4), Byte64(y, 4))
  {
    assert (((x ^ y) >> 32) & 255) as bv8 == (((x >> 32) & 255) as bv8) ^ (((y >> 32) & 255) as bv8);
  }

  lemma XorByte5Of64(x: bv64, y: bv64)
    ensures Byte64(x ^ y, 5) == XorByte(Byte64(x, 5), Byte64(y, 5))
  {
    assert (((x ^ y) >> 40) & 255) as bv8 == (((x >> 40) & 255) as bv8) ^ (((y >> 40) & 255) as bv8);
  }

  lemma XorByte6Of64(x: bv64, y: bv64)
    ensures Byte64(x ^ y, 6) == XorByte(Byte64(x, 6), Byte64(y, 6))
  {
    assert (((x ^ y) >> 48) & 255) as bv8 == (((x >> 48) & 255) as bv8) ^ (((y >> 48) & 255) as bv8);
  }

  lemma XorByte7Of64(x: bv64, y: bv64)
    ensures Byte64(x ^ y, 7) == XorByte(Byte64(x, 7), Byte64(y, 7))
  {
    assert (((x ^ y) >> 56) & 255) as bv8 == (((x >> 56) & 255) as bv8) ^ (((y >> 56) & 255) as bv8);
  }

  lemma Byte64OfXor(x: bv64, y: bv64, j: nat)
    requires j < 8
    ensures Byte64(Xor64(x, y), j) == XorByte(Byte64(x, j), Byte64(y, j))
  {
    hide Byte64, XorByte;
    match j
    case 0 => XorByte0Of64(x, y);
    case 1 => XorByte1Of64(x, y);
    case 2 => XorByte2Of64(x, y);
    case 3 => XorByte3Of64(x, y);
    case 4 => XorByte4Of64(x, y);
    case 5 => XorByte5Of64(x, y);
    case 6 => XorByte6Of64(x, y);
    case _ => XorByte7Of64(x, y);
  }

  lemma Byte64OfPlace(b: bv8, i: nat, j: nat)
    requires i < 8 && j < 8
    ensures Byte64(Place64(b, i), j) == if i == j then b else 0
  {
  }

  lemma Byte64OfZero(j: nat)
    requires j < 8
    ensures Byte64(0, j) == 0
  {
  }

  lemma {:induction false} Byte64OfPacked(t: seq<bv8>, i: nat, j: nat)
    requires i <= |t| <= 8 && j < 8
    ensures Byte64(Packed64(t, i), j) == if i <= j < |t| then t[j] else 0
    decreases |t| - i
  {
    hide Byte64, Place64, XorByte, Xor64;
    if i == |t| {
      Byte64OfZero(j);
    } else {
      Byte64OfPacked(t, i + 1, j);
      Byte64OfXor(Packed64(t, i + 1), Place64(t[i], i), j);
      Byte64OfPlace(t[i], i, j);
      XorByteZero(t[i]);
      XorByteZero(Byte64(Packed64(t, i + 1), j));
    }
  }

  lemma Packed32Injective(t: seq<bv8>, u: seq<bv8>)
    requires |t| == |u| <= 4 && Packed32(t, 0) == Packed32(u, 0)
    ensures t == u
  {
    hide Packed32, Byte32;
    forall j | 0 <= j < |t|
      ensures t[j] == u[j]
    {
      Byte32OfPacked(t, 0, j);
      Byte32OfPacked(u, 0, j);
    }
  }

  lemma Packed64Injective(t: seq<bv8>, u: seq<bv8>)
    requires |t| == |u| <= 8 && Packed64(t, 0) == Packed64(u, 0)
    ensures t == u
  {
    hide Packed64, Byte64;
    forall j | 0 <= j < |t|
      ensures t[j] == u[j]
    {
      Byte64OfPacked(t, 0, j);
      Byte64OfPacked(u, 0, j);
    }
  }

  function Bytes32(w: bv32): (t: seq<bv8>)
    ensures |t| == 4
  {
    [Byte32(w, 0), Byte32(w, 1), Byte32(w, 2), Byte32(w, 3)]
  }

  function Bytes64(w: bv64): (t: seq<bv8>)
    ensures |t| == 8
  {
    [Byte64(w, 0), Byte64(w, 1), Byte64(w, 2), Byte64(w, 3), Byte64(w, 4), Byte64(w, 5), Byte64(w, 6), Byte64(w, 7)]
  }

  lemma SameBytes32(v: bv32, w: bv32)
    requires forall j :: 0 <= j < 4 ==> Byte32(v, j) == Byte32(w, j)
    ensures v == w
  {
    assert Byte32(v, 0) == Byte32(w, 0) && Byte32(v, 1) == Byte32(w, 1);
    assert Byte32(v, 2) == Byte32(w, 2) && Byte32(v, 3) == Byte32(w, 3);
  }

  lemma SameBytes64(v: bv64, w: bv64)
    requires forall j :: 0 <= j < 8 ==> Byte64(v, j) == Byte64(w, j)
    ensures v == w
  {
    assert Byte64(v, 0) == Byte64(w, 0) && Byte64(v, 1) == Byte64(w, 1);
    assert Byte64(v, 2) == Byte64(w, 2) && Byte64(v, 3) == Byte64(w, 3);
    assert Byte64(v, 4) == Byte64(w, 4) && Byte64(v, 5) == Byte64(w, 5);
    assert Byte64(v, 6) == Byte64(w, 6) && Byte64(v, 7) == Byte64(w, 7);
  }

  lemma PackedOfBytes32(w: bv32)
    ensures Packed32(Bytes32(w), 0) == w
  {
    hide Packed32, Byte32;
    forall j: nat | j < 4
      ensures Byte32(Packed32(Bytes32(w), 0), j) == Byte32(w, j)
    {
      Byte32OfPacked(Bytes32(w), 0, j);
    }
    SameBytes32(Packed32(Bytes32(w), 0), w);
  }

  lemma PackedOfBytes64(w: bv64)
    ensures Packed64(Bytes64(w), 0) == w
  {
    hide Packed64, Byte64;
    forall j: nat | j < 8
      ensures Byte64(Packed64(Bytes64(w), 0), j) == Byte64(w, j)
    {
      Byte64OfPacked(Bytes64(w), 0, j);
    }
    SameBytes64(Packed64(Bytes64(w), 0), w);
  }

  // ----- lengths as words -----

  lemma FitsInHalf(w: bv32)
    requires w as int < 0x8000_0000
    ensures w < 0x8000_0000
  {
  }

  lemma Doubled(w: bv32)
    requires w < 0x8000_0000
    ensures (w << 1) as int == 2 * w as int
    ensures ((w << 1) | 1) as int == 2 * w as int + 1
  {
  }

  /** The word of a number, bit by bit. */
  function WordOf(n: nat): (w: bv32)
    requires n < 0x1_0000_0000
    ensures w as int == n
  {
    if n == 0 then 0 else
      var half := WordOf(n / 2);
      FitsInHalf(half);
      Doubled(half);
      if n % 2 == 0 then half << 1 else (half << 1) | 1
  }

  lemma ThereAndBack(w: bv32)
    ensures (w as int) as bv32 == w
  {
  }

  /** Different numbers are different words. */
  lemma NumberWordsDiffer(m: nat, n: nat)
    requires m < 0x1_0000_0000 && n < 0x1_0000_0000 && m as bv32 == n as bv32
    ensures m == n
  {
    ThereAndBack(WordOf(m));
    ThereAndBack(WordOf(n));
  }

  lemma WideFitsInHalf(w: bv64)
    requires w as int < 0x8000_0000_0000_0000
    ensures w < 0x8000_0000_0000_0000
  {
  }

  lemma WideDoubled(w: bv64)
    requires w < 0x8000_0000_0000_0000
    ensures (w << 1) as int == 2 * w as int
    ensures ((w << 1) | 1) as int == 2 * w as int + 1
  {
  }

  function WideWordOf(n: nat): (w: bv64)
    requires n < 0x1_0000_0000_0000_0000
    ensures w as int == n
  {
    if n == 0 then 0 else
      var half := WideWordOf(n / 2);
      WideFitsInHalf(half);
      WideDoubled(half);
      if n % 2 == 0 then half << 1 else (half << 1) | 1
  }

  lemma WideThereAndBack(w: bv64)
    ensures (w as int) as bv64 == w
  {
  }

  lemma WideNumberWordsDiffer(m: nat, n: nat)
    requires m < 0x1_0000_0000_0000_0000 && n < 0x1_0000_0000_0000_0000 && m as bv64 == n as bv64
    ensures m == n
  {
    WideThereAndBack(WideWordOf(m));
    WideThereAndBack(WideWordOf(n));
  }
}
