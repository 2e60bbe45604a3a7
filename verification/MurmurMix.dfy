/** The finalizers of MurmurHash3, and multiplication by its constants, with their inverses. */
module MurmurMix {
  import opened MurmurFactors
  import opened Words

  /** The code of fmix32. */
  function Fmix32(h: bv32): bv32 {
    Shifted32(TimesF2(Shifted32(TimesF1(Shifted32(h, 16)), 13)), 16)
  }

  function Unfmix32(h: bv32): bv32 {
    Shifted32(OverF1(Unshifted13(OverF2(Shifted32(h, 16)))), 16)
  }

  /** fmix32 is a permutation. */
  lemma Fmix32Undone(h: bv32)
    ensures Unfmix32(Fmix32(h)) == h
    ensures Fmix32(Unfmix32(h)) == h
  {
    hide Shifted32, TimesF1, TimesF2, OverF1, OverF2, Unshifted13;
    var a := Shifted32(h, 16);
    var b := TimesF1(a);
    var c := Shifted32(b, 13);
    var d := TimesF2(c);
    Shifted32By16Undone(d);
    TimesF2Undone(c);
    Shifted32By13Undone(b);
    TimesF1Undone(a);
    Shifted32By16Undone(h);
    var u := OverF2(a);
    var v := Unshifted13(u);
    var w := OverF1(v);
    Shifted32By16Undone(w);
    OverF1Undone(v);
    Unshifted13Undone(u);
    OverF2Undone(a);
  }

  /** The code of fmix64. */
  function Fmix64(k: bv64): bv64 {
    Shifted64(TimesG2(Shifted64(TimesG1(Shifted64(k, 33)), 33)), 33)
  }

  function Unfmix64(k: bv64): bv64 {
    Shifted64(OverG1(Shifted64(OverG2(Shifted64(k, 33)), 33)), 33)
  }

  /** fmix64 is a permutation. */
  lemma Fmix64Undone(k: bv64)
    ensures Unfmix64(Fmix64(k)) == k
    ensures Fmix64(Unfmix64(k)) == k
  {
    hide Shifted64, TimesG1, TimesG2, OverG1, OverG2;
    var a := Shifted64(k, 33);
    var b := TimesG1(a);
    var c := Shifted64(b, 33);
    var d := TimesG2(c);
    Shifted64By33Undone(d);
    TimesG2Undone(c);
    Shifted64By33Undone(b);
    TimesG1Undone(a);
    Shifted64By33Undone(k);
    var u := OverG2(a);
    var v := Shifted64(u, 33);
    var w := OverG1(v);
    Shifted64By33Undone(w);
    OverG1Undone(v);
    Shifted64By33Undone(u);
    OverG2Undone(a);
  }
}
