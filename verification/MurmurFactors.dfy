/**
 * Multiplication by the constants of MurmurHash3. All of them are odd, so that each multiplication
 * is undone by another one.
 */
module MurmurFactors {
  function TimesFive(x: bv32): bv32 {
    x * 5
  }

  function OverFive(x: bv32): bv32 {
    x * 0xcccccccd
  }

  lemma OverFiveOfProduct(x: bv32)
    ensures OverFive(x * 5) == x
  {
  }

  lemma TimesFiveOfProduct(x: bv32)
    ensures TimesFive(x * 0xcccccccd) == x
  {
  }

  lemma TimesFiveUndone(x: bv32)
    ensures OverFive(TimesFive(x)) == x
  {
    hide OverFive;
    OverFiveOfProduct(x);
  }

  lemma OverFiveUndone(x: bv32)
    ensures TimesFive(OverFive(x)) == x
  {
    hide TimesFive;
    TimesFiveOfProduct(x);
  }

  function TimesF1(x: bv32): bv32 {
    x * 0x85ebca6b
  }

  function OverF1(x: bv32): bv32 {
    x * 0xa5cb9243
  }

  lemma OverF1OfProduct(x: bv32)
    ensures OverF1(x * 0x85ebca6b) == x
  {
  }

  lemma TimesF1OfProduct(x: bv32)
    ensures TimesF1(x * 0xa5cb9243) == x
  {
  }

  lemma TimesF1Undone(x: bv32)
    ensures OverF1(TimesF1(x)) == x
  {
    hide OverF1;
    OverF1OfProduct(x);
  }

  lemma OverF1Undone(x: bv32)
    ensures TimesF1(OverF1(x)) == x
  {
    hide TimesF1;
    TimesF1OfProduct(x);
  }

  function TimesF2(x: bv32): bv32 {
    x * 0xc2b2ae35
  }

  function OverF2(x: bv32): bv32 {
    x * 0x7ed1b41d
  }

  lemma OverF2OfProduct(x: bv32)
    ensures OverF2(x * 0xc2b2ae35) == x
  {
  }

  lemma TimesF2OfProduct(x: bv32)
    ensures TimesF2(x * 0x7ed1b41d) == x
  {
  }

  lemma TimesF2Undone(x: bv32)
    ensures OverF2(TimesF2(x)) == x
  {
    hide OverF2;
    OverF2OfProduct(x);
  }

  lemma OverF2Undone(x: bv32)
    ensures TimesF2(OverF2(x)) == x
  {
    hide TimesF2;
    TimesF2OfProduct(x);
  }

  function TimesA1(x: bv32): bv32 {
    x * 0xcc9e2d51
  }

  function OverA1(x: bv32): bv32 {
    x * 0xdee13bb1
  }

  lemma OverA1OfProduct(x: bv32)
    ensures OverA1(x * 0xcc9e2d51) == x
  {
  }

  lemma TimesA1OfProduct(x: bv32)
    ensures TimesA1(x * 0xdee13bb1) == x
  {
  }

  lemma TimesA1Undone(x: bv32)
    ensures OverA1(TimesA1(x)) == x
  {
    hide OverA1;
    OverA1OfProduct(x);
  }

  lemma OverA1Undone(x: bv32)
    ensures TimesA1(OverA1(x)) == x
  {
    hide TimesA1;
    TimesA1OfProduct(x);
  }

  function TimesA2(x: bv32): bv32 {
    x * 0x1b873593
  }

  function OverA2(x: bv32): bv32 {
    x * 0x56ed309b
  }

  lemma OverA2OfProduct(x: bv32)
    ensures OverA2(x * 0x1b873593) == x
  {
  }

  lemma TimesA2OfProduct(x: bv32)
    ensures TimesA2(x * 0x56ed309b) == x
  {
  }

  lemma TimesA2Undone(x: bv32)
    ensures OverA2(TimesA2(x)) == x
  {
    hide OverA2;
    OverA2OfProduct(x);
  }

  lemma OverA2Undone(x: bv32)
    ensures TimesA2(OverA2(x)) == x
  {
    hide TimesA2;
    TimesA2OfProduct(x);
  }

  function TimesB1(x: bv32): bv32 {
    x * 0x239b961b
  }

  function OverB1(x: bv32): bv32 {
    x * 0x89c95413
  }

  lemma OverB1OfProduct(x: bv32)
    ensures OverB1(x * 0x239b961b) == x
  {
  }

  lemma TimesB1OfProduct(x: bv32)
    ensures TimesB1(x * 0x89c95413) == x
  {
  }

  lemma TimesB1Undone(x: bv32)
    ensures OverB1(TimesB1(x)) == x
  {
    hide OverB1;
    OverB1OfProduct(x);
  }

  lemma OverB1Undone(x: bv32)
    ensures TimesB1(OverB1(x)) == x
  {
    hide TimesB1;
    TimesB1OfProduct(x);
  }

  function TimesB2(x: bv32): bv32 {
    x * 0xab0e9789
  }

  function OverB2(x: bv32): bv32 {
    x * 0xdf130eb9
  }

  lemma OverB2OfProduct(x: bv32)
    ensures OverB2(x * 0xab0e9789) == x
  {
  }

  lemma TimesB2OfProduct(x: bv32)
    ensures TimesB2(x * 0xdf130eb9) == x
  {
  }

  lemma TimesB2Undone(x: bv32)
    ensures OverB2(TimesB2(x)) == x
  {
    hide OverB2;
    OverB2OfProduct(x);
  }

  lemma OverB2Undone(x: bv32)
    ensures TimesB2(OverB2(x)) == x
  {
    hide TimesB2;
    TimesB2OfProduct(x);
  }

  function TimesB3(x: bv32): bv32 {
    x * 0x38b34ae5
  }

  function OverB3(x: bv32): bv32 {
    x * 0x747862ed
  }

  lemma OverB3OfProduct(x: bv32)
    ensures OverB3(x * 0x38b34ae5) == x
  {
  }

  lemma TimesB3OfProduct(x: bv32)
    ensures TimesB3(x * 0x747862ed) == x
  {
  }

  lemma TimesB3Undone(x: bv32)
    ensures OverB3(TimesB3(x)) == x
  {
    hide OverB3;
    OverB3OfProduct(x);
  }

  lemma OverB3Undone(x: bv32)
    ensures TimesB3(OverB3(x)) == x
  {
    hide TimesB3;
    TimesB3OfProduct(x);
  }

  function TimesB4(x: bv32): bv32 {
    x * 0xa1e38b93
  }

  function OverB4(x: bv32): bv32 {
    x * 0x58d64a9b
  }

  lemma OverB4OfProduct(x: bv32)
    ensures OverB4(x * 0xa1e38b93) == x
  {
  }

  lemma TimesB4OfProduct(x: bv32)
    ensures TimesB4(x * 0x58d64a9b) == x
  {
  }

  lemma TimesB4Undone(x: bv32)
    ensures OverB4(TimesB4(x)) == x
  {
    hide OverB4;
    OverB4OfProduct(x);
  }

  lemma OverB4Undone(x: bv32)
    ensures TimesB4(OverB4(x)) == x
  {
    hide TimesB4;
    TimesB4OfProduct(x);
  }

  function TimesWideFive(x: bv64): bv64 {
    x * 5
  }

  function OverWideFive(x: bv64): bv64 {
    x * 0xcccccccccccccccd
  }

  lemma OverWideFiveOfProduct(x: bv64)
    ensures OverWideFive(x * 5) == x
  {
  }

  lemma TimesWideFiveOfProduct(x: bv64)
    ensures TimesWideFive(x * 0xcccccccccccccccd) == x
  {
  }

  lemma TimesWideFiveUndone(x: bv64)
    ensures OverWideFive(TimesWideFive(x)) == x
  {
    hide OverWideFive;
    OverWideFiveOfProduct(x);
  }

  lemma OverWideFiveUndone(x: bv64)
    ensures TimesWideFive(OverWideFive(x)) == x
  {
    hide TimesWideFive;
    TimesWideFiveOfProduct(x);
  }

  function TimesG1(x: bv64): bv64 {
    x * 0xff51afd7ed558ccd
  }

  function OverG1(x: bv64): bv64 {
    x * 0x4f74430c22a54005
  }

  lemma OverG1OfProduct(x: bv64)
    ensures OverG1(x * 0xff51afd7ed558ccd) == x
  {
  }

  lemma TimesG1OfProduct(x: bv64)
    ensures TimesG1(x * 0x4f74430c22a54005) == x
  {
  }

  lemma TimesG1Undone(x: bv64)
    ensures OverG1(TimesG1(x)) == x
  {
    hide OverG1;
    OverG1OfProduct(x);
  }

  lemma OverG1Undone(x: bv64)
    ensures TimesG1(OverG1(x)) == x
  {
    hide TimesG1;
    TimesG1OfProduct(x);
  }

  function TimesG2(x: bv64): bv64 {
    x * 0xc4ceb9fe1a85ec53
  }

  function OverG2(x: bv64): bv64 {
    x * 0x9cb4b2f8129337db
  }

  lemma OverG2OfProduct(x: bv64)
    ensures OverG2(x * 0xc4ceb9fe1a85ec53) == x
  {
  }

  lemma TimesG2OfProduct(x: bv64)
    ensures TimesG2(x * 0x9cb4b2f8129337db) == x
  {
  }

  lemma TimesG2Undone(x: bv64)
    ensures OverG2(TimesG2(x)) == x
  {
    hide OverG2;
    OverG2OfProduct(x);
  }

  lemma OverG2Undone(x: bv64)
    ensures TimesG2(OverG2(x)) == x
  {
    hide TimesG2;
    TimesG2OfProduct(x);
  }

  function TimesE1(x: bv64): bv64 {
    x * 0x87c37b91114253d5
  }

  function OverE1(x: bv64): bv64 {
    x * 0xa98409e882ce4d7d
  }

  lemma OverE1OfProduct(x: bv64)
    ensures OverE1(x * 0x87c37b91114253d5) == x
  {
  }

  lemma TimesE1OfProduct(x: bv64)
    ensures TimesE1(x * 0xa98409e882ce4d7d) == x
  {
  }

  lemma TimesE1Undone(x: bv64)
    ensures OverE1(TimesE1(x)) == x
  {
    hide OverE1;
    OverE1OfProduct(x);
  }

  lemma OverE1Undone(x: bv64)
    ensures TimesE1(OverE1(x)) == x
  {
    hide TimesE1;
    TimesE1OfProduct(x);
  }

  function TimesE2(x: bv64): bv64 {
    x * 0x4cf5ad432745937f
  }

  function OverE2(x: bv64): bv64 {
    x * 0xa81e14edd9de2c7f
  }

  lemma OverE2OfProduct(x: bv64)
    ensures OverE2(x * 0x4cf5ad432745937f) == x
  {
  }

  lemma TimesE2OfProduct(x: bv64)
    ensures TimesE2(x * 0xa81e14edd9de2c7f) == x
  {
  }

  lemma TimesE2Undone(x: bv64)
    ensures OverE2(TimesE2(x)) == x
  {
    hide OverE2;
    OverE2OfProduct(x);
  }

  lemma OverE2Undone(x: bv64)
    ensures TimesE2(OverE2(x)) == x
  {
    hide TimesE2;
    TimesE2OfProduct(x);
  }
}
