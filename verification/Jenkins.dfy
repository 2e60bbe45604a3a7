/**
 * The hash functions of hashfn.c: mixing three words reversibly, and hashing keys on machines of
 * either byte order, whether or not the key is aligned.
 */
module Jenkins {
  import opened Chains
  import opened KeyBlocks
  import opened Words

  datatype Triple = Triple(a: bv32, b: bv32, c: bv32)

  // ----- mix -----

  /** A third of a line of mix: a -= c; a ^= rot(c, r); c += b. The roles then move on by one. */
  function Round(t: Triple, r: nat): Triple
    requires 0 < r < 32
  {
    Triple(t.b, Plus32(t.c, t.b), Xor32(Minus32(t.a, t.c), Rotl32(t.c, r)))
  }

  function Unround(t: Triple, r: nat): Triple
    requires 0 < r < 32
  {
    var c := Minus32(t.b, t.a);
    Triple(Plus32(Xor32(t.c, Rotl32(c, r)), c), t.a, c)
  }

  lemma RoundUndone(t: Triple, r: nat)
    requires 0 < r < 32
    ensures Unround(Round(t, r), r) == t
    ensures Round(Unround(t, r), r) == t
  {
    hide Plus32, Minus32, Xor32, Rotl32;
    Minus32Undoes(t.c, t.b);
    Xor32Undone(Minus32(t.a, t.c), Rotl32(t.c, r));
    Plus32Undoes(t.a, t.c);
    var c := Minus32(t.b, t.a);
    Plus32Undoes(t.b, t.a);
    Minus32Undoes(Xor32(t.c, Rotl32(c, r)), c);
    Xor32Undone(t.c, Rotl32(c, r));
  }

  function Mix(t: Triple): Triple {
    Round(Round(Round(Round(Round(Round(t, 4), 6), 8), 16), 19), 4)
  }

  function Unmix(t: Triple): Triple {
    Unround(Unround(Unround(Unround(Unround(Unround(t, 4), 19), 16), 8), 6), 4)
  }

  /** Any information in (a, b, c) before mix is still there afterwards. */
  lemma MixReversible(t: Triple)
    ensures Unmix(Mix(t)) == t
    ensures Mix(Unmix(t)) == t
  {
    hide Round, Unround;
    var t1 := Round(t, 4);
    var t2 := Round(t1, 6);
    var t3 := Round(t2, 8);
    var t4 := Round(t3, 16);
    var t5 := Round(t4, 19);
    RoundUndone(t, 4);
    RoundUndone(t1, 6);
    RoundUndone(t2, 8);
    RoundUndone(t3, 16);
    RoundUndone(t4, 19);
    RoundUndone(t5, 4);
    var u1 := Unround(t, 4);
    var u2 := Unround(u1, 19);
    var u3 := Unround(u2, 16);
    var u4 := Unround(u3, 8);
    var u5 := Unround(u4, 6);
    RoundUndone(u1, 19);
    RoundUndone(u2, 16);
    RoundUndone(u3, 8);
    RoundUndone(u4, 6);
    RoundUndone(u5, 4);
  }

  /** The macro mix. */
  method MixWords(t: Triple) returns (a: bv32, b: bv32, c: bv32)
    ensures Triple(a, b, c) == Mix(t)
  {
    hide Plus32, Minus32, Xor32, Rotl32;
    a, b, c := t.a, t.b, t.c;
    a := Minus32(a, c);
    a := Xor32(a, Rotl32(c, 4));
    c := Plus32(c, b);
    b := Minus32(b, a);
    b := Xor32(b, Rotl32(a, 6));
    a := Plus32(a, c);
    c := Minus32(c, b);
    c := Xor32(c, Rotl32(b, 8));
    b := Plus32(b, a);
    a := Minus32(a, c);
    a := Xor32(a, Rotl32(c, 16));
    c := Plus32(c, b);
    b := Minus32(b, a);
    b := Xor32(b, Rotl32(a, 19));
    a := Plus32(a, c);
    c := Minus32(c, b);
    c := Xor32(c, Rotl32(b, 4));
    b := Plus32(b, a);
  }

  // ----- final -----

  /** One line of final: c ^= b; c -= rot(b, r). The roles then move on by one. */
  function Swirl(t: Triple, r: nat): Triple
    requires 0 < r < 32
  {
    Triple(t.b, Minus32(Xor32(t.c, t.b), Rotl32(t.b, r)), t.a)
  }

  function Unswirl(t: Triple, r: nat): Triple
    requires 0 < r < 32
  {
    Triple(t.c, t.a, Xor32(Plus32(t.b, Rotl32(t.a, r)), t.a))
  }

  lemma SwirlUndone(t: Triple, r: nat)
    requires 0 < r < 32
    ensures Unswirl(Swirl(t, r), r) == t
    ensures Swirl(Unswirl(t, r), r) == t
  {
    hide Plus32, Minus32, Xor32, Rotl32;
    Plus32Undoes(Xor32(t.c, t.b), Rotl32(t.b, r));
    Xor32Undone(t.c, t.b);
    Xor32Undone(Plus32(t.b, Rotl32(t.a, r)), t.a);
    Minus32Undoes(t.b, Rotl32(t.a, r));
  }

  function Swirls(t: Triple): Triple {
    Swirl(Swirl(Swirl(Swirl(Swirl(Swirl(Swirl(t, 14), 11), 25), 16), 4), 14), 24)
  }

  function Unswirls(t: Triple): Triple {
    Unswirl(Unswirl(Unswirl(Unswirl(Unswirl(Unswirl(Unswirl(t, 24), 14), 4), 16), 25), 11), 14)
  }

  lemma SwirlsUndone(t: Triple)
    ensures Unswirls(Swirls(t)) == t
    ensures Swirls(Unswirls(t)) == t
  {
    hide Swirl, Unswirl;
    var t1 := Swirl(t, 14);
    var t2 := Swirl(t1, 11);
    var t3 := Swirl(t2, 25);
    var t4 := Swirl(t3, 16);
    var t5 := Swirl(t4, 4);
    var t6 := Swirl(t5, 14);
    SwirlUndone(t, 14);
    SwirlUndone(t1, 11);
    SwirlUndone(t2, 25);
    SwirlUndone(t3, 16);
    SwirlUndone(t4, 4);
    SwirlUndone(t5, 14);
    SwirlUndone(t6, 24);
    SwirlUndone(t, 24);
    var u1 := Unswirl(t, 24);
    var u2 := Unswirl(u1, 14);
    var u3 := Unswirl(u2, 4);
    var u4 := Unswirl(u3, 16);
    var u5 := Unswirl(u4, 25);
    var u6 := Unswirl(u5, 11);
    SwirlUndone(u1, 14);
    SwirlUndone(u2, 4);
    SwirlUndone(u3, 16);
    SwirlUndone(u4, 25);
    SwirlUndone(u5, 11);
    SwirlUndone(u6, 14);
  }

  /** After seven lines the roles stand one place on. */
  function Final(t: Triple): Triple {
    var u := Swirls(t);
    Triple(u.c, u.a, u.b)
  }

  function Unfinal(t: Triple): Triple {
    Unswirls(Triple(t.b, t.c, t.a))
  }

  /** final, too, loses nothing. */
  lemma FinalReversible(t: Triple)
    ensures Unfinal(Final(t)) == t
    ensures Final(Unfinal(t)) == t
  {
    hide Swirls, Unswirls;
    SwirlsUndone(t);
    SwirlsUndone(Triple(t.b, t.c, t.a));
  }

  /** The macro final. */
  method FinalWords(t: Triple) returns (a: bv32, b: bv32, c: bv32)
    ensures Triple(a, b, c) == Final(t)
  {
    hide Minus32, Xor32, Rotl32;
    a, b, c := t.a, t.b, t.c;
    c := Xor32(c, b);
    c := Minus32(c, Rotl32(b, 14));
    a := Xor32(a, c);
    a := Minus32(a, Rotl32(c, 11));
    b := Xor32(b, a);
    b := Minus32(b, Rotl32(a, 25));
    c := Xor32(c, b);
    c := Minus32(c, Rotl32(b, 16));
    a := Xor32(a, c);
    a := Minus32(a, Rotl32(c, 4));
    b := Xor32(b, a);
    b := Minus32(b, Rotl32(a, 14));
    c := Xor32(c, b);
    c := Minus32(c, Rotl32(b, 24));
  }

  // ----- words from bytes, in either byte order -----

  function Word4(x0: bv8, x1: bv8, x2: bv8, x3: bv8): bv32 {
    (((x3 as bv32) << 24) | ((x2 as bv32) << 16)) | (((x1 as bv32) << 8) | (x0 as bv32))
  }

  function Get(t: seq<bv8>, i: nat): bv8 {
    if i < |t| then t[i] else 0
  }

  /**
   * The word of the bytes `t`, missing bytes being 0. On a little-endian machine the first byte is
   * the lowest, or stands `offset` places above that; on a big-endian one it is the highest.
   */
  function Native(t: seq<bv8>, offset: nat, big: bool): bv32 {
    if big then Word4(Get(t, 3), Get(t, 2), Get(t, 1), Get(t, 0))
    else if offset == 0 then Word4(Get(t, 0), Get(t, 1), Get(t, 2), Get(t, 3))
    else Word4(0, Get(t, 0), Get(t, 1), Get(t, 2))
  }

  lemma BytesOfWord4(x0: bv8, x1: bv8, x2: bv8, x3: bv8)
    ensures var w := Word4(x0, x1, x2, x3);
            && Byte32(w, 0) == x0 && Byte32(w, 1) == x1 && Byte32(w, 2) == x2 && Byte32(w, 3) == x3
  {
  }

  lemma NativeInjective(t: seq<bv8>, u: seq<bv8>, offset: nat, big: bool)
    requires |t| == |u| && offset <= 1 && |t| + offset <= 4 && Native(t, offset, big) == Native(u, offset, big)
    ensures t == u
  {
    hide Word4, Byte32;
    if big {
      BytesOfWord4(Get(t, 3), Get(t, 2), Get(t, 1), Get(t, 0));
      BytesOfWord4(Get(u, 3), Get(u, 2), Get(u, 1), Get(u, 0));
    } else if offset == 0 {
      BytesOfWord4(Get(t, 0), Get(t, 1), Get(t, 2), Get(t, 3));
      BytesOfWord4(Get(u, 0), Get(u, 1), Get(u, 2), Get(u, 3));
    } else {
      BytesOfWord4(0, Get(t, 0), Get(t, 1), Get(t, 2));
      BytesOfWord4(0, Get(u, 0), Get(u, 1), Get(u, 2));
    }
    forall i | 0 <= i < |t|
      ensures t[i] == u[i]
    {
      assert Get(t, i) == t[i] && Get(u, i) == u[i];
    }
  }

  // ----- adding bytes one by one adds the word -----

  lemma Plus32Is(a: bv32, b: bv32)
    ensures Plus32(a, b) == a + b
  {
  }

  lemma PlusOfSums(a: bv32, b: bv32, c: bv32)
    ensures Plus32(a + b, c) == Plus32(a, b + c)
  {
  }

  lemma PlusAssociative(a: bv32, b: bv32, c: bv32)
    ensures Plus32(Plus32(a, b), c) == Plus32(a, Plus32(b, c))
  {
    hide Plus32;
    Plus32Is(a, b);
    Plus32Is(b, c);
    PlusOfSums(a, b, c);
  }

  lemma PlusCommutative(a: bv32, b: bv32)
    ensures Plus32(a, b) == Plus32(b, a)
  {
  }

  lemma PlusZero(a: bv32)
    ensures Plus32(a, 0) == a
  {
  }

  function Sum4(p0: bv32, p1: bv32, p2: bv32, p3: bv32): bv32 {
    Plus32(Plus32(Plus32(p3, p2), p1), p0)
  }

  lemma Downward(h: bv32, p0: bv32, p1: bv32, p2: bv32, p3: bv32)
    ensures Plus32(Plus32(Plus32(Plus32(h, p3), p2), p1), p0) == Plus32(h, Sum4(p0, p1, p2, p3))
  {
    hide Plus32;
    PlusAssociative(h, p3, p2);
    PlusAssociative(h, Plus32(p3, p2), p1);
    PlusAssociative(h, Plus32(Plus32(p3, p2), p1), p0);
  }

  lemma Sum4Reversed(p0: bv32, p1: bv32, p2: bv32, p3: bv32)
    ensures Sum4(p3, p2, p1, p0) == Sum4(p0, p1, p2, p3)
  {
    hide Plus32;
    PlusCommutative(p0, p1);
    PlusCommutative(Plus32(p1, p0), p2);
    PlusCommutative(Plus32(p2, Plus32(p1, p0)), p3);
    PlusAssociative(p3, p2, Plus32(p1, p0));
    PlusAssociative(Plus32(p3, p2), p1, p0);
  }

  lemma Upward(h: bv32, p0: bv32, p1: bv32, p2: bv32, p3: bv32)
    ensures Plus32(Plus32(Plus32(Plus32(h, p0), p1), p2), p3) == Plus32(h, Sum4(p0, p1, p2, p3))
  {
    hide Plus32, Sum4;
    Downward(h, p3, p2, p1, p0);
    Sum4Reversed(p0, p1, p2, p3);
  }

  lemma TopPlace(x3: bv8)
    ensures Place32(x3, 3) == Word4(0, 0, 0, x3)
  {
  }

  lemma AddThird(x2: bv8, x3: bv8)
    ensures Plus32(Word4(0, 0, 0, x3), Place32(x2, 2)) == Word4(0, 0, x2, x3)
  {
  }

  lemma AddSecond(x1: bv8, x2: bv8, x3: bv8)
    ensures Plus32(Word4(0, 0, x2, x3), Place32(x1, 1)) == Word4(0, x1, x2, x3)
  {
  }

  lemma AddFirst(x0: bv8, x1: bv8, x2: bv8, x3: bv8)
    ensures Plus32(Word4(0, x1, x2, x3), Place32(x0, 0)) == Word4(x0, x1, x2, x3)
  {
  }

  /** The shifted bytes of a word add up to it. */
  lemma Sum4IsWord4(x0: bv8, x1: bv8, x2: bv8, x3: bv8)
    ensures Sum4(Place32(x0, 0), Place32(x1, 1), Place32(x2, 2), Place32(x3, 3)) == Word4(x0, x1, x2, x3)
  {
    hide Plus32, Word4, Place32;
    TopPlace(x3);
    AddThird(x2, x3);
    AddSecond(x1, x2, x3);
    AddFirst(x0, x1, x2, x3);
  }
}
