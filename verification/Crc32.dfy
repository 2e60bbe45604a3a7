/**
 * xcrc32: the table loop is bit-at-a-time division, its result is the remainder of a polynomial
 * division over GF(2), and it detects every burst of up to 32 bits.
 */
module Crc32 {
  import opened Crc32Table

  // ----- the loop over bytes -----

  function UpdateByte(crc: bv32, b: bv8): bv32 {
    (crc << 8) ^ Table((((crc >> 24) ^ (b as bv32)) & 255) as bv8)
  }

  function Crc(buf: seq<bv8>, init: bv32): bv32 {
    if |buf| == 0 then init else UpdateByte(Crc(buf[..|buf| - 1], init), buf[|buf| - 1])
  }

  method Xcrc32(buf: seq<bv8>, init: bv32) returns (crc: bv32)
    ensures crc == Crc(buf, init)
  {
    hide UpdateByte;
    crc := init;
    var len := |buf|;
    var p := 0;
    while len > 0
      invariant 0 <= len && p + len == |buf|
      invariant crc == Crc(buf[..p], init)
    {
      assert buf[..p + 1][..p] == buf[..p];
      crc := UpdateByte(crc, buf[p]);
      p := p + 1;
      len := len - 1;
    }
    assert buf[..p] == buf;
  }

  /** Entry `i` of the table. */
  function Entry(i: nat): bv32
    requires i < 256
  {
    Table(i as bv8)
  }

  function EntryStart(i: nat): bv32
    requires i < 256
  {
    (i as bv8) as bv32 << 24
  }

  lemma EntryIs(i: nat)
    requires i < 256
    ensures EightSteps(EntryStart(i)) == Entry(i)
  {
    hide EightSteps, Table;
    TableIsEightSteps(i as bv8);
  }

  /** The generator program that made the table. */
  method GenerateTable() returns (table: array<bv32>)
    ensures fresh(table) && table.Length == 256
    ensures forall i :: 0 <= i < 256 ==> table[i] == Entry(i)
  {
    hide Entry, EntryStart, Step, EightSteps;
    table := new bv32[256];
    var i := 0;
    while i < 256
      invariant 0 <= i <= 256
      invariant forall k :: 0 <= k < i ==> table[k] == Entry(k)
    {
      var c := EntryStart(i);
      ghost var start := c;
      var j := 8;
      while j > 0
        invariant 0 <= j <= 8
        invariant c == StepTimes(start, 8 - j)
        modifies {}
      {
        StepIs(c);
        c := if c & TOP != 0 then (c << 1) ^ POLY else c << 1;
        j := j - 1;
      }
      EightTimes(start);
      EntryIs(i);
      table[i] := c;
      i := i + 1;
    }
  }

  lemma StepIs(c: bv32)
    ensures Step(c) == if c & TOP != 0 then (c << 1) ^ POLY else c << 1
  {
  }

  function StepTimes(c: bv32, n: nat): bv32 {
    if n == 0 then c else Step(StepTimes(c, n - 1))
  }

  lemma EightTimes(c: bv32)
    ensures StepTimes(c, 8) == EightSteps(c)
  {
    hide Step;
    assert StepTimes(c, 1) == Step(c) && StepTimes(c, 2) == Step(StepTimes(c, 1));
    assert StepTimes(c, 3) == Step(StepTimes(c, 2)) && StepTimes(c, 4) == Step(StepTimes(c, 3));
    assert StepTimes(c, 5) == Step(StepTimes(c, 4)) && StepTimes(c, 6) == Step(StepTimes(c, 5));
    assert StepTimes(c, 7) == Step(StepTimes(c, 6)) && StepTimes(c, 8) == Step(StepTimes(c, 7));
  }

  /** Data may be split over several buffers, the result of one call being the start of the next. */
  lemma {:induction false} Compose(a: seq<bv8>, b: seq<bv8>, init: bv32)
    ensures Crc(a + b, init) == Crc(b, Crc(a, init))
  {
    if |b| == 0 {
      assert a + b == a;
    } else {
      var n := |b| - 1;
      assert (a + b)[..|a + b| - 1] == a + b[..n];
      Compose(a, b[..n], init);
    }
  }

  // ----- addition of polynomials, and the step as a sum -----

  function Plus(a: bv32, b: bv32): bv32 {
    a ^ b
  }

  lemma PlusAssociative(a: bv32, b: bv32, c: bv32)
    ensures Plus(Plus(a, b), c) == Plus(a, Plus(b, c))
  {
  }

  lemma PlusCommutative(a: bv32, b: bv32)
    ensures Plus(a, b) == Plus(b, a)
  {
  }

  lemma PlusZero(a: bv32)
    ensures Plus(a, 0) == a && Plus(0, a) == a && Plus(a, a) == 0
  {
  }

  lemma Interchange(a: bv32, b: bv32, c: bv32, d: bv32)
    ensures Plus(Plus(a, b), Plus(c, d)) == Plus(Plus(a, c), Plus(b, d))
  {
    hide Plus;
    PlusAssociative(a, b, Plus(c, d));
    PlusAssociative(b, c, d);
    PlusCommutative(b, c);
    PlusAssociative(c, b, d);
    PlusAssociative(a, c, Plus(b, d));
  }

  function Shift(c: bv32): bv32 {
    c << 1
  }

  predicate Top(c: bv32) {
    c & TOP != 0
  }

  function If(bit: bool, word: bv32): bv32 {
    if bit then word else 0
  }

  lemma StepBranches(c: bv32)
    ensures Step(c) == if Top(c) then Plus(Shift(c), POLY) else Shift(c)
  {
  }

  lemma StepSplit(c: bv32)
    ensures Step(c) == Plus(Shift(c), If(Top(c), POLY))
  {
    hide Step, Plus, Shift, Top;
    StepBranches(c);
    PlusZero(Shift(c));
  }

  lemma ShiftPlus(a: bv32, b: bv32)
    ensures Shift(Plus(a, b)) == Plus(Shift(a), Shift(b))
  {
  }

  lemma TopPlus(a: bv32, b: bv32)
    ensures Top(Plus(a, b)) == (Top(a) != Top(b))
  {
  }

  lemma IfPlus(s: bool, t: bool, word: bv32)
    ensures Plus(If(s, word), If(t, word)) == If(s != t, word)
  {
    hide Plus;
    PlusZero(word);
    PlusZero(0);
  }

  /** The step is linear over GF(2). */
  lemma StepPlus(a: bv32, b: bv32)
    ensures Step(Plus(a, b)) == Plus(Step(a), Step(b))
  {
    hide Step, Plus, Shift, Top, If;
    StepSplit(a);
    StepSplit(b);
    StepSplit(Plus(a, b));
    ShiftPlus(a, b);
    TopPlus(a, b);
    IfPlus(Top(a), Top(b), POLY);
    Interchange(Shift(a), If(Top(a), POLY), Shift(b), If(Top(b), POLY));
  }

  lemma {:induction false} StepTimesPlus(a: bv32, b: bv32, n: nat)
    ensures StepTimes(Plus(a, b), n) == Plus(StepTimes(a, n), StepTimes(b, n))
  {
    hide Step, Plus;
    if n == 0 {
    } else {
      StepTimesPlus(a, b, n - 1);
      StepPlus(StepTimes(a, n - 1), StepTimes(b, n - 1));
    }
  }

  lemma EightStepsPlus(a: bv32, b: bv32)
    ensures EightSteps(Plus(a, b)) == Plus(EightSteps(a), EightSteps(b))
  {
    hide EightSteps, StepTimes, Plus;
    StepTimesPlus(a, b, 8);
    EightTimes(a);
    EightTimes(b);
    EightTimes(Plus(a, b));
  }

  // ----- one table look-up is eight steps -----

  function TopByte(crc: bv32, b: bv8): bv8 {
    (((crc >> 24) ^ (b as bv32)) & 255) as bv8
  }

  function AtTop(i: bv8): bv32 {
    (i as bv32) << 24
  }

  function Low(crc: bv32): bv32 {
    crc & 0x00ffffff
  }

  function ShiftByte(crc: bv32): bv32 {
    crc << 8
  }

  function TopOf(crc: bv32): bv8 {
    ((crc >> 24) & 255) as bv8
  }

  function PlusByte(a: bv8, b: bv8): bv8 {
    a ^ b
  }

  lemma SplitWord(crc: bv32)
    ensures crc == Plus(AtTop(TopOf(crc)), Low(crc))
  {
  }

  lemma TopByteIs(crc: bv32, b: bv8)
    ensures TopByte(crc, b) == PlusByte(TopOf(crc), b)
  {
  }

  lemma AtTopPlus(a: bv8, b: bv8)
    ensures AtTop(PlusByte(a, b)) == Plus(AtTop(a), AtTop(b))
  {
  }

  /** The state with a byte added is its top byte and the rest, which is what a shift by eight keeps. */
  lemma SplitTop(crc: bv32, b: bv8)
    ensures Plus(crc, AtTop(b)) == Plus(AtTop(TopByte(crc, b)), Low(crc))
  {
    hide Plus, AtTop, TopByte, TopOf, Low;
    SplitWord(crc);
    TopByteIs(crc, b);
    AtTopPlus(TopOf(crc), b);
    PlusAssociative(AtTop(TopOf(crc)), Low(crc), AtTop(b));
    PlusCommutative(Low(crc), AtTop(b));
    PlusAssociative(AtTop(TopOf(crc)), AtTop(b), Low(crc));
  }

  lemma EightStepsShift(low: bv32)
    requires low & 0xff000000 == 0
    ensures EightSteps(low) == low << 8
  {
  }

  lemma EightStepsOfLow(crc: bv32)
    ensures EightSteps(Low(crc)) == ShiftByte(crc)
  {
    hide EightSteps;
    EightStepsShift(Low(crc));
  }

  lemma UpdateByteIs(crc: bv32, b: bv8)
    ensures UpdateByte(crc, b) == Plus(ShiftByte(crc), Table(TopByte(crc, b)))
  {
    hide Table;
  }

  lemma EntryOfByte(i: bv8)
    ensures EightSteps(AtTop(i)) == Table(i)
  {
    hide EightSteps, Table;
    TableIsEightSteps(i);
  }

  /** One table look-up does eight bits of the division. */
  lemma ByteIsEightSteps(crc: bv32, b: bv8)
    ensures UpdateByte(crc, b) == EightSteps(Plus(crc, AtTop(b)))
  {
    hide EightSteps, Table, TopByte, UpdateByte, Low, AtTop, Plus, ShiftByte;
    UpdateByteIs(crc, b);
    SplitTop(crc, b);
    EightStepsPlus(AtTop(TopByte(crc, b)), Low(crc));
    EntryOfByte(TopByte(crc, b));
    EightStepsOfLow(crc);
    PlusCommutative(Table(TopByte(crc, b)), ShiftByte(crc));
  }

  // ----- one bit at a time -----

  function BitStep(c: bv32, bit: bool): bv32 {
    Step(Plus(c, If(bit, TOP)))
  }

  function CrcBits(bits: seq<bool>, init: bv32): bv32 {
    if |bits| == 0 then init else BitStep(CrcBits(bits[..|bits| - 1], init), bits[|bits| - 1])
  }

  function ByteBits(b: bv8): (bits: seq<bool>)
    ensures |bits| == 8
  {
    [b & 0x80 != 0, b & 0x40 != 0, b & 0x20 != 0, b & 0x10 != 0,
     b & 8 != 0, b & 4 != 0, b & 2 != 0, b & 1 != 0]
  }

  /** The bits of a message, the most significant bit of each byte first. */
  function Bits(buf: seq<bv8>): (bits: seq<bool>)
    ensures |bits| == 8 * |buf|
  {
    if |buf| == 0 then [] else Bits(buf[..|buf| - 1]) + ByteBits(buf[|buf| - 1])
  }

  lemma {:induction false} CrcBitsConcat(a: seq<bool>, b: seq<bool>, init: bv32)
    ensures CrcBits(a + b, init) == CrcBits(b, CrcBits(a, init))
    decreases |b|
  {
    hide BitStep;
    if |b| == 0 {
      assert a + b == a;
    } else {
      var n := |b| - 1;
      assert (a + b)[..|a + b| - 1] == a + b[..n];
      CrcBitsConcat(a, b[..n], init);
    }
  }

  // ----- eight bits that meet the state one by one can be added to it beforehand -----

  function Place(k: nat): bv32
    requires k < 8
  {
    match k
    case 0 => 0x80000000
    case 1 => 0x40000000
    case 2 => 0x20000000
    case 3 => 0x10000000
    case 4 => 0x08000000
    case 5 => 0x04000000
    case 6 => 0x02000000
    case _ => 0x01000000
  }

  /** Up to eight bits, the first one in the highest place of a word. */
  function Placed(bits: seq<bool>): bv32
    requires |bits| <= 8
  {
    if |bits| == 0 then 0 else
      var n := |bits| - 1;
      Plus(Placed(bits[..n]), If(bits[n], Place(n)))
  }

  lemma StepPlace(k: nat)
    requires 0 < k < 8
    ensures Step(Place(k)) == Place(k - 1)
    ensures Place(0) == TOP
  {
  }

  lemma StepNone()
    ensures Step(0) == 0
  {
  }

  /** A bit placed k places down reaches the top after k steps. */
  lemma {:induction false} StepsPlace(bit: bool, k: nat, n: nat)
    requires n <= k < 8
    ensures StepTimes(If(bit, Place(k)), n) == If(bit, Place(k - n))
  {
    hide Step, Place;
    if n == 0 {
    } else {
      StepsPlace(bit, k, n - 1);
      StepPlace(k - n + 1);
      StepNone();
    }
  }

  lemma {:induction false} BitsArePlaced(bits: seq<bool>, c: bv32)
    requires |bits| <= 8
    ensures CrcBits(bits, c) == StepTimes(Plus(c, Placed(bits)), |bits|)
  {
    hide Step, Place, Plus, If;
    if |bits| == 0 {
      PlusZero(c);
    } else {
      var n := |bits| - 1;
      var p, q := Placed(bits[..n]), If(bits[n], Place(n));
      BitsArePlaced(bits[..n], c);
      StepPlace(1);
      StepsPlace(bits[n], n, n);
      StepTimesPlus(Plus(c, p), q, n);
      PlusAssociative(c, p, q);
    }
  }

  lemma PlacedStep(w: seq<bool>, n: nat)
    requires |w| == 8 && n < 8
    ensures Placed(w[..n + 1]) == Plus(Placed(w[..n]), If(w[n], Place(n)))
  {
    hide Plus, If, Place;
    assert w[..n + 1][..n] == w[..n];
  }

  function PlacedByte(w: seq<bool>): bv32
    requires |w| == 8
  {
    Plus(Plus(Plus(Plus(Plus(Plus(Plus(Plus(0, If(w[0], Place(0))), If(w[1], Place(1))), If(w[2], Place(2))),
      If(w[3], Place(3))), If(w[4], Place(4))), If(w[5], Place(5))), If(w[6], Place(6))), If(w[7], Place(7)))
  }

  lemma PlacesOfByte(b: bv8)
    ensures PlacedByte(ByteBits(b)) == AtTop(b)
  {
  }

  lemma PlacedIsPlacedByte(w: seq<bool>)
    requires |w| == 8
    ensures Placed(w) == PlacedByte(w)
  {
    hide Placed, Place, If, Plus;
    assert Placed(w[..0]) == 0 by { PlacedNone(w); }
    PlacedStep(w, 0);
    PlacedStep(w, 1);
    PlacedStep(w, 2);
    PlacedStep(w, 3);
    PlacedStep(w, 4);
    PlacedStep(w, 5);
    PlacedStep(w, 6);
    PlacedStep(w, 7);
    assert w[..8] == w;
  }

  lemma PlacedNone(w: seq<bool>)
    ensures Placed(w[..0]) == 0
  {
  }

  lemma EightBits(c: bv32, b: bv8)
    ensures CrcBits(ByteBits(b), c) == EightSteps(Plus(c, AtTop(b)))
  {
    hide EightSteps, ByteBits, AtTop, BitStep, Placed, PlacedByte, Plus, StepTimes;
    BitsArePlaced(ByteBits(b), c);
    PlacedIsPlacedByte(ByteBits(b));
    PlacesOfByte(b);
    EightTimes(Plus(c, AtTop(b)));
  }

  lemma EightBitsOfByte(c: bv32, b: bv8)
    ensures UpdateByte(c, b) == CrcBits(ByteBits(b), c)
  {
    hide EightSteps, ByteBits, AtTop, UpdateByte, CrcBits, Plus;
    ByteIsEightSteps(c, b);
    EightBits(c, b);
  }

  /** The loop over bytes and look-ups is the loop over bits and steps. */
  lemma {:induction false} CrcIsBitwise(buf: seq<bv8>, init: bv32)
    ensures Crc(buf, init) == CrcBits(Bits(buf), init)
  {
    hide UpdateByte, BitStep, ByteBits, CrcBits;
    if |buf| == 0 {
      NoBits(init);
    } else {
      var n := |buf| - 1;
      CrcIsBitwise(buf[..n], init);
      CrcBitsConcat(Bits(buf[..n]), ByteBits(buf[n]), init);
      EightBitsOfByte(Crc(buf[..n], init), buf[n]);
    }
  }

  lemma NoBits(init: bv32)
    ensures CrcBits([], init) == init
  {
  }

  // ----- linearity -----

  function PlusBytes(a: seq<bv8>, b: seq<bv8>): (s: seq<bv8>)
    requires |a| == |b|
    ensures |s| == |a|
  {
    if |a| == 0 then [] else
      var n := |a| - 1;
      PlusBytes(a[..n], b[..n]) + [PlusByte(a[n], b[n])]
  }

  lemma UpdateBytePlus(c: bv32, d: bv32, a: bv8, b: bv8)
    ensures UpdateByte(Plus(c, d), PlusByte(a, b)) == Plus(UpdateByte(c, a), UpdateByte(d, b))
  {
    hide EightSteps, UpdateByte, AtTop, Plus, PlusByte;
    ByteIsEightSteps(c, a);
    ByteIsEightSteps(d, b);
    ByteIsEightSteps(Plus(c, d), PlusByte(a, b));
    AtTopPlus(a, b);
    Interchange(c, d, AtTop(a), AtTop(b));
    EightStepsPlus(Plus(c, AtTop(a)), Plus(d, AtTop(b)));
  }

  /** The check of a sum is the sum of the checks. */
  lemma {:induction false} CrcLinear(a: seq<bv8>, b: seq<bv8>, i: bv32, j: bv32)
    requires |a| == |b|
    ensures Crc(PlusBytes(a, b), Plus(i, j)) == Plus(Crc(a, i), Crc(b, j))
  {
    hide UpdateByte, Plus, PlusByte;
    if |a| == 0 {
    } else {
      var n := |a| - 1;
      CrcLinear(a[..n], b[..n], i, j);
      UpdateBytePlus(Crc(a[..n], i), Crc(b[..n], j), a[n], b[n]);
      assert PlusBytes(a, b)[..n] == PlusBytes(a[..n], b[..n]);
    }
  }

  lemma DigitsUpdate()
    ensures UpdateByte(0xffffffff, 49) == 0x9efbcf93
    ensures UpdateByte(0x9efbcf93, 50) == 0x3fec5e6a
    ensures UpdateByte(0x3fec5e6a, 51) == 0xd952f164
    ensures UpdateByte(0xd952f164, 52) == 0xa695c4aa
    ensures UpdateByte(0xa695c4aa, 53) == 0xbd9ab747
    ensures UpdateByte(0xbd9ab747, 54) == 0xd8f06c8f
    ensures UpdateByte(0xd8f06c8f, 55) == 0x0d8a14c4
    ensures UpdateByte(0x0d8a14c4, 56) == 0x49e3c2fb
    ensures UpdateByte(0x49e3c2fb, 57) == 0x0376e6e7
  {
  }

  /** The check value of this CRC: that of the digits from '1' to '9', from all ones. */
  lemma CheckValue()
    ensures Crc([49, 50, 51, 52, 53, 54, 55, 56, 57], 0xffffffff) == 0x0376e6e7
  {
    hide UpdateByte;
    DigitsUpdate();
    Appended([], 49, [49], 0xffffffff);
    Appended([49], 50, [49, 50], 0xffffffff);
    Appended([49, 50], 51, [49, 50, 51], 0xffffffff);
    Appended([49, 50, 51], 52, [49, 50, 51, 52], 0xffffffff);
    Appended([49, 50, 51, 52], 53, [49, 50, 51, 52, 53], 0xffffffff);
    Appended([49, 50, 51, 52, 53], 54, [49, 50, 51, 52, 53, 54], 0xffffffff);
    Appended([49, 50, 51, 52, 53, 54], 55, [49, 50, 51, 52, 53, 54, 55], 0xffffffff);
    Appended([49, 50, 51, 52, 53, 54, 55], 56, [49, 50, 51, 52, 53, 54, 55, 56], 0xffffffff);
    Appended([49, 50, 51, 52, 53, 54, 55, 56], 57, [49, 50, 51, 52, 53, 54, 55, 56, 57], 0xffffffff);
  }

  lemma Appended(prefix: seq<bv8>, b: bv8, buf: seq<bv8>, init: bv32)
    requires buf == prefix + [b]
    ensures Crc(buf, init) == UpdateByte(Crc(prefix, init), b)
  {
    assert buf[..|prefix|] == prefix;
  }
}
