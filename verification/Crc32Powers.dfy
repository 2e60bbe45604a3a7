/** Powers of x modulo the polynomial of the CRC, and those that decide its order. */
module Crc32Powers {
  import opened Crc32
  import opened Crc32Poly
  import opened Crc32Table

  /** 2^32 - 1, which is 3 * 5 * 17 * 257 * 65537. */
  const ORDER: nat := 0xFFFFFFFF

  /** The remainder of x^n. */
  function Power(n: nat): bv32 {
    StepTimes(1, n)
  }

  lemma {:induction false} StepTimesAdd(c: bv32, a: nat, b: nat)
    ensures StepTimes(c, a + b) == StepTimes(StepTimes(c, a), b)
  {
    hide Step;
    if b == 0 {
    } else {
      StepTimesAdd(c, a, b - 1);
    }
  }

  lemma StepOfNone(c: bv32)
    requires Step(c) == 0
    ensures c == 0
  {
  }

  lemma SumIsNone(a: bv32, b: bv32)
    ensures Plus(a, b) == 0 <==> a == b
  {
  }

  lemma StepInjective(a: bv32, b: bv32)
    requires Step(a) == Step(b)
    ensures a == b
  {
    hide Step, Plus;
    StepPlus(a, b);
    SumIsNone(Step(a), Step(b));
    StepOfNone(Plus(a, b));
    SumIsNone(a, b);
  }

  lemma {:induction false} StepTimesInjective(a: bv32, b: bv32, n: nat)
    requires StepTimes(a, n) == StepTimes(b, n)
    ensures a == b
  {
    hide Step;
    if n == 0 {
    } else {
      StepInjective(StepTimes(a, n - 1), StepTimes(b, n - 1));
      StepTimesInjective(a, b, n - 1);
    }
  }

  // ----- the sixteenth power, which is linear -----

  function SixteenSteps(c: bv32): bv32 {
    EightSteps(EightSteps(c))
  }

  /** The remainder of x^(16i). */
  function Power16(i: nat): bv32 {
    if i == 0 then 1 else SixteenSteps(Power16(i - 1))
  }

  /** `word` if `c` has a term under `mask`. */
  function Part(c: bv32, mask: bv32, word: bv32): bv32 {
    if c & mask != 0 then word else 0
  }

  /** The sixteenth power of the lowest `n` terms: that of x^i is x^(16i). */
  function RaiseTerms(c: bv32, n: nat): bv32
    requires n <= 32
  {
    if n == 0 then 0 else Plus(RaiseTerms(c, n - 1), Part(c, Mask(32 - n), Power16(n - 1)))
  }

  function Octet0(t: bv32, c: bv32): bv32 {
    Plus(Plus(Plus(Plus(Plus(Plus(Plus(Plus(t,
      Part(c, 0x00000001, 0x00000001)), Part(c, 0x00000002, 0x00010000)),
      Part(c, 0x00000004, 0x04c11db7)), Part(c, 0x00000008, 0x01d8ac87)),
      Part(c, 0x00000010, 0x490d678d)), Part(c, 0x00000020, 0x4f576811)),
      Part(c, 0x00000040, 0xf200aa66)), Part(c, 0x00000080, 0xf9ac87ee))
  }

  function Octet1(t: bv32, c: bv32): bv32 {
    Plus(Plus(Plus(Plus(Plus(Plus(Plus(Plus(t,
      Part(c, 0x00000100, 0xe8a45605)), Part(c, 0x00000200, 0xdd0fe172)),
      Part(c, 0x00000400, 0x17d3315d)), Part(c, 0x00000800, 0x0a1b8859)),
      Part(c, 0x00001000, 0xc5b9cd4c)), Part(c, 0x00002000, 0x064c29d0)),
      Part(c, 0x00004000, 0xcd8c54b5)), Part(c, 0x00008000, 0xd60a6c79))
  }

  function Octet2(t: bv32, c: bv32): bv32 {
    Plus(Plus(Plus(Plus(Plus(Plus(Plus(Plus(t,
      Part(c, 0x00010000, 0x75be46b7)), Part(c, 0x00020000, 0x218e0c78)),
      Part(c, 0x00040000, 0xab40b71e)), Part(c, 0x00080000, 0xd9148248)),
      Part(c, 0x00100000, 0x569700e5)), Part(c, 0x00200000, 0x8f7e2362)),
      Part(c, 0x00400000, 0xc053585d)), Part(c, 0x00800000, 0xee43390a))
  }

  function Octet3(t: bv32, c: bv32): bv32 {
    Plus(Plus(Plus(Plus(Plus(Plus(Plus(Plus(t,
      Part(c, 0x01000000, 0x8c3828a8)), Part(c, 0x02000000, 0x97723a4b)),
      Part(c, 0x04000000, 0x766f1b78)), Part(c, 0x08000000, 0x1bf005f5)),
      Part(c, 0x10000000, 0x64bf7a9b)), Part(c, 0x20000000, 0xdb2b4b00)),
      Part(c, 0x40000000, 0xd3504ec7)), Part(c, 0x80000000, 0x9720db13))
  }

  /** The sixteenth power, written out. */
  function Raise(c: bv32): bv32 {
    Octet3(Octet2(Octet1(Octet0(0, c), c), c), c)
  }

  lemma OneTerm(c: bv32, n: nat)
    requires n < 32
    ensures RaiseTerms(c, n + 1) == Plus(RaiseTerms(c, n), Part(c, Mask(31 - n), Power16(n)))
  {
    hide Plus, Part, Mask, Power16;
  }

  lemma NextPower(i: nat, c: bv32, up: bv32)
    requires Power16(i) == c && up == SixteenSteps(c)
    ensures Power16(i + 1) == up
  {
    hide SixteenSteps;
  }

  lemma OctetMasks0()
    ensures Mask(31) == 0x00000001 && Mask(30) == 0x00000002
    ensures Mask(29) == 0x00000004 && Mask(28) == 0x00000008
    ensures Mask(27) == 0x00000010 && Mask(26) == 0x00000020
    ensures Mask(25) == 0x00000040 && Mask(24) == 0x00000080
  {
  }

  lemma OctetPowers0()
    requires Power16(0) == 0x00000001
    ensures Power16(1) == 0x00010000 && Power16(2) == 0x04c11db7
    ensures Power16(3) == 0x01d8ac87 && Power16(4) == 0x490d678d
    ensures Power16(5) == 0x4f576811 && Power16(6) == 0xf200aa66
    ensures Power16(7) == 0xf9ac87ee && Power16(8) == 0xe8a45605
  {
    hide Power16;
    NextPower(0, 0x00000001, 0x00010000);
    NextPower(1, 0x00010000, 0x04c11db7);
    NextPower(2, 0x04c11db7, 0x01d8ac87);
    NextPower(3, 0x01d8ac87, 0x490d678d);
    NextPower(4, 0x490d678d, 0x4f576811);
    NextPower(5, 0x4f576811, 0xf200aa66);
    NextPower(6, 0xf200aa66, 0xf9ac87ee);
    NextPower(7, 0xf9ac87ee, 0xe8a45605);
  }

  lemma OctetIs0(c: bv32)
    requires Power16(0) == 0x00000001
    ensures RaiseTerms(c, 8) == Octet0(RaiseTerms(c, 0), c)
  {
    hide Plus, Part, Mask, Power16, RaiseTerms;
    OctetMasks0();
    OctetPowers0();
    OneTerm(c, 0); OneTerm(c, 1); OneTerm(c, 2); OneTerm(c, 3);
    OneTerm(c, 4); OneTerm(c, 5); OneTerm(c, 6); OneTerm(c, 7);
  }

  lemma OctetMasks1()
    ensures Mask(23) == 0x00000100 && Mask(22) == 0x00000200
    ensures Mask(21) == 0x00000400 && Mask(20) == 0x00000800
    ensures Mask(19) == 0x00001000 && Mask(18) == 0x00002000
    ensures Mask(17) == 0x00004000 && Mask(16) == 0x00008000
  {
  }

  lemma OctetPowers1()
    requires Power16(8) == 0xe8a45605
    ensures Power16(9) == 0xdd0fe172 && Power16(10) == 0x17d3315d
    ensures Power16(11) == 0x0a1b8859 && Power16(12) == 0xc5b9cd4c
    ensures Power16(13) == 0x064c29d0 && Power16(14) == 0xcd8c54b5
    ensures Power16(15) == 0xd60a6c79 && Power16(16) == 0x75be46b7
  {
    hide Power16;
    NextPower(8, 0xe8a45605, 0xdd0fe172);
    NextPower(9, 0xdd0fe172, 0x17d3315d);
    NextPower(10, 0x17d3315d, 0x0a1b8859);
    NextPower(11, 0x0a1b8859, 0xc5b9cd4c);
    NextPower(12, 0xc5b9cd4c, 0x064c29d0);
    NextPower(13, 0x064c29d0, 0xcd8c54b5);
    NextPower(14, 0xcd8c54b5, 0xd60a6c79);
    NextPower(15, 0xd60a6c79, 0x75be46b7);
  }

  lemma OctetIs1(c: bv32)
    requires Power16(8) == 0xe8a45605
    ensures RaiseTerms(c, 16) == Octet1(RaiseTerms(c, 8), c)
  {
    hide Plus, Part, Mask, Power16, RaiseTerms;
    OctetMasks1();
    OctetPowers1();
    OneTerm(c, 8); OneTerm(c, 9); OneTerm(c, 10); OneTerm(c, 11);
    OneTerm(c, 12); OneTerm(c, 13); OneTerm(c, 14); OneTerm(c, 15);
  }

  lemma OctetMasks2()
    ensures Mask(15) == 0x00010000 && Mask(14) == 0x00020000
    ensures Mask(13) == 0x00040000 && Mask(12) == 0x00080000
    ensures Mask(11) == 0x00100000 && Mask(10) == 0x00200000
    ensures Mask(9) == 0x00400000 && Mask(8) == 0x00800000
  {
  }

  lemma OctetPowers2()
    requires Power16(16) == 0x75be46b7
    ensures Power16(17) == 0x218e0c78 && Power16(18) == 0xab40b71e
    ensures Power16(19) == 0xd9148248 && Power16(20) == 0x569700e5
    ensures Power16(21) == 0x8f7e2362 && Power16(22) == 0xc053585d
    ensures Power16(23) == 0xee43390a && Power16(24) == 0x8c3828a8
  {
    hide Power16;
    NextPower(16, 0x75be46b7, 0x218e0c78);
    NextPower(17, 0x218e0c78, 0xab40b71e);
    NextPower(18, 0xab40b71e, 0xd9148248);
    NextPower(19, 0xd9148248, 0x569700e5);
    NextPower(20, 0x569700e5, 0x8f7e2362);
    NextPower(21, 0x8f7e2362, 0xc053585d);
    NextPower(22, 0xc053585d, 0xee43390a);
    NextPower(23, 0xee43390a, 0x8c3828a8);
  }

  lemma OctetIs2(c: bv32)
    requires Power16(16) == 0x75be46b7
    ensures RaiseTerms(c, 24) == Octet2(RaiseTerms(c, 16), c)
  {
    hide Plus, Part, Mask, Power16, RaiseTerms;
    OctetMasks2();
    OctetPowers2();
    OneTerm(c, 16); OneTerm(c, 17); OneTerm(c, 18); OneTerm(c, 19);
    OneTerm(c, 20); OneTerm(c, 21); OneTerm(c, 22); OneTerm(c, 23);
  }

  lemma OctetMasks3()
    ensures Mask(7) == 0x01000000 && Mask(6) == 0x02000000
    ensures Mask(5) == 0x04000000 && Mask(4) == 0x08000000
    ensures Mask(3) == 0x10000000 && Mask(2) == 0x20000000
    ensures Mask(1) == 0x40000000 && Mask(0) == 0x80000000
  {
  }

  lemma OctetPowers3()
    requires Power16(24) == 0x8c3828a8
    ensures Power16(25) == 0x97723a4b && Power16(26) == 0x766f1b78
    ensures Power16(27) == 0x1bf005f5 && Power16(28) == 0x64bf7a9b
    ensures Power16(29) == 0xdb2b4b00 && Power16(30) == 0xd3504ec7
    ensures Power16(31) == 0x9720db13
  {
    hide Power16;
    NextPower(24, 0x8c3828a8, 0x97723a4b);
    NextPower(25, 0x97723a4b, 0x766f1b78);
    NextPower(26, 0x766f1b78, 0x1bf005f5);
    NextPower(27, 0x1bf005f5, 0x64bf7a9b);
    NextPower(28, 0x64bf7a9b, 0xdb2b4b00);
    NextPower(29, 0xdb2b4b00, 0xd3504ec7);
    NextPower(30, 0xd3504ec7, 0x9720db13);
  }

  lemma OctetIs3(c: bv32)
    requires Power16(24) == 0x8c3828a8
    ensures RaiseTerms(c, 32) == Octet3(RaiseTerms(c, 24), c)
  {
    hide Plus, Part, Mask, Power16, RaiseTerms;
    OctetMasks3();
    OctetPowers3();
    OneTerm(c, 24); OneTerm(c, 25); OneTerm(c, 26); OneTerm(c, 27);
    OneTerm(c, 28); OneTerm(c, 29); OneTerm(c, 30); OneTerm(c, 31);
  }

  lemma RaiseIs(c: bv32)
    ensures Raise(c) == RaiseTerms(c, 32)
  {
    NoTerms(c);
    hide RaiseTerms, Octet0, Octet1, Octet2, Octet3, Power16;
    OctetPowers0();
    OctetPowers1();
    OctetPowers2();
    OctetIs0(c);
    OctetIs1(c);
    OctetIs2(c);
    OctetIs3(c);
  }

  lemma NoTerms(c: bv32)
    ensures RaiseTerms(c, 0) == 0 && Power16(0) == 1
  {
  }

  lemma PartIs(c: bv32, mask: bv32, word: bv32)
    ensures Part(c, mask, word) == If(Bit(c, mask), word)
  {
  }

  lemma PartPlus(a: bv32, b: bv32, i: nat, word: bv32)
    requires i < 32
    ensures Part(Plus(a, b), Mask(i), word) == Plus(Part(a, Mask(i), word), Part(b, Mask(i), word))
  {
    hide Plus, Part, Mask, If, Bit;
    PartIs(a, Mask(i), word);
    PartIs(b, Mask(i), word);
    PartIs(Plus(a, b), Mask(i), word);
    MaskIsPower(i);
    BitPlus(a, b, Mask(i));
    IfPlus(Bit(a, Mask(i)), Bit(b, Mask(i)), word);
  }

  lemma {:induction false} RaiseTermsPlus(a: bv32, b: bv32, n: nat)
    requires n <= 32
    ensures RaiseTerms(Plus(a, b), n) == Plus(RaiseTerms(a, n), RaiseTerms(b, n))
  {
    hide Plus, Part, Mask, Power16;
    if n == 0 {
      PlusZero(0);
    } else {
      RaiseTermsPlus(a, b, n - 1);
      PartPlus(a, b, 32 - n, Power16(n - 1));
      Interchange(RaiseTerms(a, n - 1), RaiseTerms(b, n - 1),
                  Part(a, Mask(32 - n), Power16(n - 1)), Part(b, Mask(32 - n), Power16(n - 1)));
    }
  }

  lemma RaisePlus(a: bv32, b: bv32)
    ensures Raise(Plus(a, b)) == Plus(Raise(a), Raise(b))
  {
    hide Plus, Raise, RaiseTerms;
    RaiseIs(a);
    RaiseIs(b);
    RaiseIs(Plus(a, b));
    RaiseTermsPlus(a, b, 32);
  }

  // ----- x^(16n) is the sixteenth power of x^n -----

  lemma SixteenTimes(c: bv32)
    ensures StepTimes(c, 16) == SixteenSteps(c)
  {
    hide StepTimes, EightSteps;
    StepTimesAdd(c, 8, 8);
    EightTimes(c);
    EightTimes(EightSteps(c));
  }

  lemma SixteenPlus(a: bv32, b: bv32)
    ensures SixteenSteps(Plus(a, b)) == Plus(SixteenSteps(a), SixteenSteps(b))
  {
    hide EightSteps, Plus;
    EightStepsPlus(a, b);
    EightStepsPlus(EightSteps(a), EightSteps(b));
  }

  lemma PartShifts(c: bv32, i: nat, word: bv32)
    requires i < 31
    ensures Part(Shift(c), Mask(i), word) == Part(c, Mask(i + 1), word)
    ensures Part(Shift(c), Mask(31), word) == 0
  {
    hide Part, Shift, Mask, Bit;
    MaskShifts(i + 1);
    MaskEnds();
    BitShift(c, Mask(i + 1));
    BitShift(c, 0);
    PartIs(Shift(c), Mask(i), word);
    PartIs(c, Mask(i + 1), word);
    PartIs(Shift(c), Mask(31), word);
  }

  lemma StepsOfPart(c: bv32, mask: bv32, word: bv32)
    ensures SixteenSteps(Part(c, mask, word)) == Part(c, mask, SixteenSteps(word))
  {
    NoneRaised();
    hide EightSteps;
  }

  lemma NoneRaised()
    ensures SixteenSteps(0) == 0
  {
  }

  /** Shifting takes every term to the next one. */
  lemma {:induction false} ShiftRaised(c: bv32, n: nat)
    requires n <= 31
    ensures RaiseTerms(Shift(c), n + 1) == SixteenSteps(RaiseTerms(c, n))
  {
    hide SixteenSteps, Plus, Part, Mask, Shift;
    if n == 0 {
      PartShifts(c, 0, Power16(0));
      PlusZero(0);
      NoneRaised();
    } else {
      ShiftRaised(c, n - 1);
      PartShifts(c, 31 - n, Power16(n));
      StepsOfPart(c, Mask(32 - n), Power16(n - 1));
      SixteenPlus(RaiseTerms(c, n - 1), Part(c, Mask(32 - n), Power16(n - 1)));
    }
  }

  lemma PolyRaised()
    requires Power16(31) == 0x9720db13
    ensures Raise(POLY) == SixteenSteps(Power16(31)) && Raise(0) == 0
  {
    hide Power16;
  }

  lemma TopTerm(c: bv32)
    ensures Raise(If(Top(c), POLY)) == SixteenSteps(Part(c, Mask(0), Power16(31)))
  {
    NoTerms(c);
    hide Raise, SixteenSteps, Power16, Part, Mask, Bit, Top;
    OctetPowers0();
    OctetPowers1();
    OctetPowers2();
    OctetPowers3();
    PolyRaised();
    StepsOfPart(c, Mask(0), Power16(31));
    PartIs(c, Mask(0), SixteenSteps(Power16(31)));
    MaskEnds();
    TopIsBit(c);
  }

  lemma StepRaised(c: bv32)
    ensures Raise(Step(c)) == SixteenSteps(Raise(c))
  {
    hide Raise, Step, SixteenSteps, RaiseTerms, Plus, If, Shift, Part, Mask, Power16;
    StepSplit(c);
    RaisePlus(Shift(c), If(Top(c), POLY));
    RaiseIs(Shift(c));
    ShiftRaised(c, 31);
    TopTerm(c);
    RaiseIs(c);
    OneTerm(c, 31);
    SixteenPlus(RaiseTerms(c, 31), Part(c, Mask(0), Power16(31)));
  }

  lemma OneRaised()
    ensures Raise(1) == 1
  {
  }

  lemma {:induction false} PowerRaised(n: nat)
    ensures Power(16 * n) == Raise(Power(n))
  {
    hide Raise, Step, SixteenSteps;
    if n == 0 {
      OneRaised();
    } else {
      PowerRaised(n - 1);
      StepTimesAdd(1, 16 * (n - 1), 16);
      SixteenTimes(Power(16 * (n - 1)));
      StepRaised(Power(n - 1));
    }
  }

  // ----- powers computed digit by digit -----

  function Up3(c: bv32): bv32 {
    Step(Step(Step(c)))
  }

  function Up5(c: bv32): bv32 {
    Step(Step(Up3(c)))
  }

  function Up15(c: bv32): bv32 {
    Step(Step(Up5(EightSteps(c))))
  }

  lemma Ups(c: bv32)
    ensures StepTimes(c, 0) == c && StepTimes(c, 3) == Up3(c) && StepTimes(c, 5) == Up5(c)
  {
    hide Step;
    assert StepTimes(c, 1) == Step(c) && StepTimes(c, 2) == Step(StepTimes(c, 1));
    assert StepTimes(c, 3) == Step(StepTimes(c, 2)) && StepTimes(c, 4) == Step(StepTimes(c, 3));
  }

  lemma UpFifteen(c: bv32)
    ensures StepTimes(c, 15) == Up15(c)
  {
    hide Step, EightSteps, Up5;
    StepTimesAdd(c, 8, 7);
    EightTimes(c);
    var e := EightSteps(c);
    StepTimesAdd(e, 5, 2);
    Ups(e);
    assert StepTimes(Up5(e), 1) == Step(Up5(e)) && StepTimes(Up5(e), 2) == Step(StepTimes(Up5(e), 1));
  }

  /** One more hexadecimal digit 0, 3, 5 or 15 of the exponent. */
  function Up(c: bv32, d: nat): bv32 {
    if d == 0 then c else if d == 3 then Up3(c) else if d == 5 then Up5(c) else Up15(c)
  }

  lemma Digit(n: nat, d: nat, c: bv32, raised: bv32)
    requires Power(n) == c && Raise(c) == raised && (d == 0 || d == 3 || d == 5 || d == 15)
    ensures Power(16 * n + d) == Up(raised, d)
  {
    hide StepTimes, Raise, Up3, Up5, Up15;
    PowerRaised(n);
    StepTimesAdd(1, 16 * n, d);
    Ups(raised);
    UpFifteen(raised);
  }

  lemma FirstDigits()
    ensures Power(0) == 1 && Power(3) == 8 && Power(5) == 32 && Power(15) == 0x8000
  {
    hide StepTimes, Up3, Up5, Up15;
    Ups(1);
    UpFifteen(1);
    FirstWords();
  }

  lemma FirstWords()
    ensures Up3(1) == 8 && Up5(1) == 32 && Up15(1) == 0x8000
  {
  }

  lemma LowHalfUps()
    ensures Up(0xd60a6c79, 15) == 0xb8bfad80
    ensures Up(0xfe0ca72f, 15) == 0x852231e3
    ensures Up(0xac2c30d8, 15) == 0xfa3ade3b
  {
  }

  lemma LowHalfRaised0()
    ensures Raise(0x00008000) == 0xd60a6c79
    ensures Raise(0xb8bfad80) == 0xfe0ca72f
    ensures Raise(0x852231e3) == 0xac2c30d8
  {
  }

  lemma LowHalf()
    requires Power(0xf) == 0x8000
    ensures Power(0xff) == 0xb8bfad80 && Power(0xffff) == 0xfa3ade3b
  {
    hide Power, Raise, Up;
    LowHalfUps();
    LowHalfRaised0();
    Digit(0xf, 15, 0x00008000, 0xd60a6c79);
    Digit(0xff, 15, 0xb8bfad80, 0xfe0ca72f);
    Digit(0xfff, 15, 0x852231e3, 0xac2c30d8);
  }

  lemma HighHalfUps()
    ensures Up(0x4f6e38aa, 15) == 0xa8409527
    ensures Up(0x30fb7e71, 15) == 0xf458c375
    ensures Up(0x1ced5230, 15) == 0x3cb4aca1
    ensures Up(0x359491d6, 15) == 0x00000001
  {
  }

  lemma HighHalfRaised0()
    ensures Raise(0xfa3ade3b) == 0x4f6e38aa
    ensures Raise(0xa8409527) == 0x30fb7e71
    ensures Raise(0xf458c375) == 0x1ced5230
  {
  }

  lemma HighHalfRaised1()
    ensures Raise(0x3cb4aca1) == 0x359491d6
  {
  }

  lemma HighHalf()
    requires Power(0xffff) == 0xfa3ade3b
    ensures Power(0xffffffff) == 1
  {
    hide Power, Raise, Up;
    HighHalfUps();
    HighHalfRaised0();
    HighHalfRaised1();
    Digit(0xffff, 15, 0xfa3ade3b, 0x4f6e38aa);
    Digit(0xfffff, 15, 0xa8409527, 0x30fb7e71);
    Digit(0xffffff, 15, 0xf458c375, 0x1ced5230);
    Digit(0xfffffff, 15, 0x3cb4aca1, 0x359491d6);
  }

  lemma Over257Ups()
    ensures Up(0xb086cbe6, 15) == 0x8769e2a3
    ensures Up(0x6fbd72d8, 15) == 0x934438ac
  {
  }

  lemma Over257Raised0()
    ensures Raise(0xb8bfad80) == 0xfe0ca72f
    ensures Raise(0xfe0ca72f) == 0xcb2caf7c
    ensures Raise(0xcb2caf7c) == 0xb086cbe6
  {
  }

  lemma Over257Raised1()
    ensures Raise(0x8769e2a3) == 0x6fbd72d8
  {
  }

  lemma Over257()
    requires Power(0xff) == 0xb8bfad80
    ensures Power(0xff00ff) == 0x934438ac
  {
    hide Power, Raise, Up3, Up5, Up15;
    Over257Ups();
    Over257Raised0();
    Over257Raised1();
    Digit(0xff, 0, 0xb8bfad80, 0xfe0ca72f);
    Digit(0xff0, 0, 0xfe0ca72f, 0xcb2caf7c);
    Digit(0xff00, 15, 0xcb2caf7c, 0xb086cbe6);
    Digit(0xff00f, 15, 0x8769e2a3, 0x6fbd72d8);
  }

  lemma Over17Ups()
    ensures Up(0x1ac28d51, 15) == 0xf3b9f807
    ensures Up(0x74dda0f3, 15) == 0x5a1a96f5
    ensures Up(0xf178ede5, 15) == 0x053c1431
  {
  }

  lemma Over17Raised0()
    ensures Raise(0x00008000) == 0xd60a6c79
    ensures Raise(0xd60a6c79) == 0x1ac28d51
    ensures Raise(0xf3b9f807) == 0xad062161
  {
  }

  lemma Over17Raised1()
    ensures Raise(0xad062161) == 0x74dda0f3
    ensures Raise(0x5a1a96f5) == 0x4538cb8f
    ensures Raise(0x4538cb8f) == 0xf178ede5
  {
  }

  lemma Over17()
    requires Power(0xf) == 0x00008000
    ensures Power(0xf0f0f0f) == 0x053c1431
  {
    hide Power, Raise, Up3, Up5, Up15;
    Over17Ups();
    Over17Raised0();
    Over17Raised1();
    Digit(0xf, 0, 0x00008000, 0xd60a6c79);
    Digit(0xf0, 15, 0xd60a6c79, 0x1ac28d51);
    Digit(0xf0f, 0, 0xf3b9f807, 0xad062161);
    Digit(0xf0f0, 15, 0xad062161, 0x74dda0f3);
    Digit(0xf0f0f, 0, 0x5a1a96f5, 0x4538cb8f);
    Digit(0xf0f0f0, 15, 0x4538cb8f, 0xf178ede5);
  }

  lemma Over5LowUps()
    ensures Up(0x01d8ac87, 3) == 0x0ec56438
    ensures Up(0xd1925b1b, 3) == 0x9614956a
    ensures Up(0xbf1f9fdd, 3) == 0xef399583
  {
  }

  lemma Over5LowRaised0()
    ensures Raise(0x00000008) == 0x01d8ac87
    ensures Raise(0x0ec56438) == 0xd1925b1b
    ensures Raise(0x9614956a) == 0xbf1f9fdd
  {
  }

  lemma Over5Low()
    requires Power(3) == 8
    ensures Power(0x3333) == 0xef399583
  {
    hide Power, Raise, Up;
    Over5LowUps();
    Over5LowRaised0();
    Digit(0x3, 3, 0x00000008, 0x01d8ac87);
    Digit(0x33, 3, 0x0ec56438, 0xd1925b1b);
    Digit(0x333, 3, 0x9614956a, 0xbf1f9fdd);
  }

  lemma Over5HighUps()
    ensures Up(0x89a47440, 3) == 0x5e27d4dc
    ensures Up(0xb358f1c1, 3) == 0x8d02e563
    ensures Up(0x08e2557c, 3) == 0x4712abe0
    ensures Up(0x626174df, 3) == 0x1e488021
  {
  }

  lemma Over5HighRaised0()
    ensures Raise(0xef399583) == 0x89a47440
    ensures Raise(0x5e27d4dc) == 0xb358f1c1
    ensures Raise(0x8d02e563) == 0x08e2557c
  {
  }

  lemma Over5HighRaised1()
    ensures Raise(0x4712abe0) == 0x626174df
  {
  }

  lemma Over5High()
    requires Power(0x3333) == 0xef399583
    ensures Power(0x33333333) == 0x1e488021
  {
    hide Power, Raise, Up;
    Over5HighUps();
    Over5HighRaised0();
    Over5HighRaised1();
    Digit(0x3333, 3, 0xef399583, 0x89a47440);
    Digit(0x33333, 3, 0x5e27d4dc, 0xb358f1c1);
    Digit(0x333333, 3, 0x8d02e563, 0x08e2557c);
    Digit(0x3333333, 3, 0x4712abe0, 0x626174df);
  }

  lemma Over3LowUps()
    ensures Up(0x4f576811, 5) == 0xc824f22f
    ensures Up(0x348de05f, 5) == 0x8b3a4652
    ensures Up(0x0ab528c3, 5) == 0x526405d7
  {
  }

  lemma Over3LowRaised0()
    ensures Raise(0x00000020) == 0x4f576811
    ensures Raise(0xc824f22f) == 0x348de05f
    ensures Raise(0x8b3a4652) == 0x0ab528c3
  {
  }

  lemma Over3Low()
    requires Power(5) == 32
    ensures Power(0x5555) == 0x526405d7
  {
    hide Power, Raise, Up;
    Over3LowUps();
    Over3LowRaised0();
    Digit(0x5, 5, 0x00000020, 0x4f576811);
    Digit(0x55, 5, 0xc824f22f, 0x348de05f);
    Digit(0x555, 5, 0x8b3a4652, 0x0ab528c3);
  }

  lemma Over3HighUps()
    ensures Up(0x7de6f2dd, 5) == 0x8491e61d
    ensures Up(0xb727a8bc, 5) == 0xb2628142
    ensures Up(0x1dca379e, 5) == 0xb405d519
    ensures Up(0xe9b8598a, 5) == 0x4ad76ce3
  {
  }

  lemma Over3HighRaised0()
    ensures Raise(0x526405d7) == 0x7de6f2dd
    ensures Raise(0x8491e61d) == 0xb727a8bc
    ensures Raise(0xb2628142) == 0x1dca379e
  {
  }

  lemma Over3HighRaised1()
    ensures Raise(0xb405d519) == 0xe9b8598a
  {
  }

  lemma Over3High()
    requires Power(0x5555) == 0x526405d7
    ensures Power(0x55555555) == 0x4ad76ce3
  {
    hide Power, Raise, Up;
    Over3HighUps();
    Over3HighRaised0();
    Over3HighRaised1();
    Digit(0x5555, 5, 0x526405d7, 0x7de6f2dd);
    Digit(0x55555, 5, 0x8491e61d, 0xb727a8bc);
    Digit(0x555555, 5, 0xb2628142, 0x1dca379e);
    Digit(0x5555555, 5, 0xb405d519, 0xe9b8598a);
  }

  /** x^(2^32 - 1) is 1, and none of the powers for the largest proper divisors of 2^32 - 1 is. */
  lemma Powers()
    ensures Power(ORDER) == 1
    ensures Power(ORDER / 3) != 1 && Power(ORDER / 5) != 1 && Power(ORDER / 17) != 1
    ensures Power(ORDER / 257) != 1 && Power(ORDER / 65537) != 1
  {
    FirstDigits();
    hide Power;
    LowHalf();
    HighHalf();
    Over257();
    Over17();
    Over5Low();
    Over5High();
    Over3Low();
    Over3High();
  }
}
