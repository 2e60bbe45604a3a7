/**
 * Known digests of hashfn.c, worked out statement by statement: they fix the constants, rotations,
 * byte orders and lengths that the theorems about all keys leave open.
 */
module JenkinsKnown {
  import opened Chains
  import opened Jenkins
  import opened JenkinsHash
  import opened KeyBlocks
  import opened Words

  /** The letters from 'a' to 'w': a chunk, and eleven more bytes. */
  const LETTERS: seq<bv8> := [97, 98, 99, 100, 101, 102, 103, 104, 105, 106, 107, 108,
                                  109, 110, 111, 112, 113, 114, 115, 116, 117, 118, 119]

  lemma LettersParts()
    ensures |LETTERS| == 23 && Chunks(LETTERS, false) == [Load(LETTERS[..12], false)]
    ensures Chunks(LETTERS, true) == [Load(LETTERS[..12], true)]
  {
    hide Load;
  }

  lemma LettersChunk(c: seq<bv8>)
    requires c == LETTERS[..12]
    ensures c[0..4] == [97, 98, 99, 100] && c[4..8] == [101, 102, 103, 104] && c[8..12] == [105, 106, 107, 108]
  {
    assert c == [97, 98, 99, 100, 101, 102, 103, 104, 105, 106, 107, 108];
  }

  lemma LettersTail(t: seq<bv8>)
    requires t == Tail(LETTERS, 12)
    ensures |t| == 11 && Part(t, 0) == [109, 110, 111, 112] && Part(t, 1) == [113, 114, 115, 116]
    ensures Part(t, 2) == [117, 118, 119]
  {
    assert t == [109, 110, 111, 112, 113, 114, 115, 116, 117, 118, 119];
    PartsOfEleven(t);
    hide Part;
  }

  lemma PartsOfEleven(t: seq<bv8>)
    requires |t| == 11
    ensures Part(t, 0) == t[0..4] && Part(t, 1) == t[4..8] && Part(t, 2) == t[8..]
  {
  }

  lemma Start23()
    ensures Initial(23) == Triple(0x9e735667, 0x9e735667, 0x9e735667)
  {
  }

  lemma Start4()
    ensures Initial(4) == Triple(0x9e735654, 0x9e735654, 0x9e735654)
  {
  }

  lemma LittleNative()
    ensures Native([97, 98, 99, 100], 0, false) == 0x64636261
    ensures Native([101, 102, 103, 104], 0, false) == 0x68676665
    ensures Native([105, 106, 107, 108], 0, false) == 0x6c6b6a69
    ensures Native([109, 110, 111, 112], 0, false) == 0x706f6e6d
    ensures Native([113, 114, 115, 116], 0, false) == 0x74737271
    ensures Native([117, 118, 119], 1, false) == 0x77767500
  {
  }

  lemma LittleWords()
    ensures Chunks(LETTERS, false) == [Triple(0x64636261, 0x68676665, 0x6c6b6a69)]
    ensures TailWords(Tail(LETTERS, 12), false) == Triple(0x706f6e6d, 0x74737271, 0x77767500)
  {
    hide Native, Part, Chunks, Tail;
    LettersParts();
    LettersChunk(LETTERS[..12]);
    LettersTail(Tail(LETTERS, 12));
    LittleNative();
  }

  lemma LittleState()
    ensures Step(Triple(0x9e735667, 0x9e735667, 0x9e735667), Triple(0x64636261, 0x68676665, 0x6c6b6a69)) ==
            Triple(0x385bd7e9, 0xa0245930, 0xa9dca289)
    ensures Add(Triple(0x385bd7e9, 0xa0245930, 0xa9dca289), Triple(0x706f6e6d, 0x74737271, 0x77767500)) ==
            Triple(0xa8cb4656, 0x1497cba1, 0x21531789)
    ensures Final(Triple(0xa8cb4656, 0x1497cba1, 0x21531789)) ==
            Triple(0xce65b9e8, 0xef5dd13f, 0xbb7de978)
  {
  }

  /** On a little-endian machine. */
  lemma LittleDigest()
    ensures Digest(LETTERS, false) == 0xbb7de978
  {
    hide Final, Step, Add, Load;
    Start23();
    LittleWords();
    LittleState();
  }

  lemma BigNative()
    ensures Native([97, 98, 99, 100], 0, true) == 0x61626364
    ensures Native([101, 102, 103, 104], 0, true) == 0x65666768
    ensures Native([105, 106, 107, 108], 0, true) == 0x696a6b6c
    ensures Native([109, 110, 111, 112], 0, true) == 0x6d6e6f70
    ensures Native([113, 114, 115, 116], 0, true) == 0x71727374
    ensures Native([117, 118, 119], 1, true) == 0x75767700
  {
  }

  lemma BigWords()
    ensures Chunks(LETTERS, true) == [Triple(0x61626364, 0x65666768, 0x696a6b6c)]
    ensures TailWords(Tail(LETTERS, 12), true) == Triple(0x6d6e6f70, 0x71727374, 0x75767700)
  {
    hide Native, Part, Chunks, Tail;
    LettersParts();
    LettersChunk(LETTERS[..12]);
    LettersTail(Tail(LETTERS, 12));
    BigNative();
  }

  lemma BigState()
    ensures Step(Triple(0x9e735667, 0x9e735667, 0x9e735667), Triple(0x61626364, 0x65666768, 0x696a6b6c)) ==
            Triple(0x55a868fa, 0x5acdebcb, 0x814ea95c)
    ensures Add(Triple(0x55a868fa, 0x5acdebcb, 0x814ea95c), Triple(0x6d6e6f70, 0x71727374, 0x75767700)) ==
            Triple(0xc316d86a, 0xcc405f3f, 0xf6c5205c)
    ensures Final(Triple(0xc316d86a, 0xcc405f3f, 0xf6c5205c)) ==
            Triple(0x225a9f42, 0xeafc7551, 0x73974ebc)
  {
  }

  /** On a big-endian machine. */
  lemma BigDigest()
    ensures Digest(LETTERS, true) == 0x73974ebc
  {
    hide Final, Step, Add, Load;
    Start23();
    BigWords();
    BigState();
  }

  lemma OneWord()
    ensures Native([1, 0, 0, 0], 0, false) == 1 && Native([0, 0, 0, 1], 0, true) == 1
  {
  }

  lemma OneState()
    ensures Plus32(0x9e735654, 1) == 0x9e735655
    ensures Final(Triple(0x9e735655, 0x9e735654, 0x9e735654)) ==
            Triple(0xde242cfc, 0xcd0f69c4, 0x8e731746)
  {
  }

  /** The number 1 as four bytes of either order: hashint4(1) of PostgreSQL is -1905060026. */
  lemma OneDigest()
    ensures Digest([1, 0, 0, 0], false) == 0x8e731746
    ensures Digest([0, 0, 0, 1], true) == 0x8e731746
  {
    hide Final, AbsorbKey, Native, Plus32, Initial;
    Start4();
    OneWord();
    OneState();
    AbsorbFour(Initial(4), [1, 0, 0, 0], false);
    AbsorbFour(Initial(4), [0, 0, 0, 1], true);
  }

  lemma SeededState()
    ensures Seeded(Triple(0x9e735654, 0x9e735654, 0x9e735654), 0x0123456789abcdef) ==
            Triple(0xdaee1b24, 0xbaaad5eb, 0xe94019ab)
  {
  }

  lemma SeededEnd()
    ensures Plus32(0xdaee1b24, 1) == 0xdaee1b25
    ensures Final(Triple(0xdaee1b25, 0xbaaad5eb, 0xe94019ab)) ==
            Triple(0x6f22b97e, 0xe43687ae, 0x7f0097bd)
    ensures Join(0xe43687ae, 0x7f0097bd) == 0xe43687ae7f0097bd
  {
  }

  /** The same number with a seed. */
  lemma SeededDigest()
    ensures WideDigest([1, 0, 0, 0], 0x0123456789abcdef, false) == 0xe43687ae7f0097bd
  {
    hide Final, AbsorbKey, Native, Plus32, Initial, Seeded, Join;
    Start4();
    OneWord();
    SeededState();
    SeededEnd();
    AbsorbFour(Seeded(Initial(4), 0x0123456789abcdef), [1, 0, 0, 0], false);
  }
}
