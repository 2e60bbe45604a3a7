/** Bytes, C strings, and matching a piece of text at a position. */
module Bytes {
  type byte = b: int | 0 <= b < 256
  type bytes = seq<byte>

  /** Reading a C string: the byte at the end is the terminating NUL. */
  function At(s: bytes, i: nat): byte {
    if i < |s| then s[i] else 0
  }

  ghost predicate NulFree(s: bytes) {
    forall k :: 0 <= k < |s| ==> s[k] != 0
  }

  /** What C sees of a counted string: everything before the first NUL. */
  function CString(text: bytes): (s: bytes)
    ensures NulFree(s)
    ensures s <= text
    ensures |s| < |text| ==> text[|s|] == 0
  {
    if |text| == 0 || text[0] == 0 then [] else [text[0]] + CString(text[1..])
  }

  /** The text `t` stands at position `i` of `s`. */
  predicate HasAt(s: bytes, i: nat, t: bytes) {
    i + |t| <= |s| && forall k :: 0 <= k < |t| ==> s[i + k] == t[k]
  }

  lemma HasAtConcat(s: bytes, i: nat, a: bytes, b: bytes)
    ensures HasAt(s, i, a + b) <==> HasAt(s, i, a) && HasAt(s, i + |a|, b)
  {
    if HasAt(s, i, a + b) {
      assert forall k :: 0 <= k < |a| ==> a[k] == (a + b)[k];
      assert forall k :: 0 <= k < |b| ==> b[k] == (a + b)[|a| + k];
    }
  }

  lemma HasAtIsSlice(s: bytes, i: nat, t: bytes)
    ensures HasAt(s, i, t) <==> i + |t| <= |s| && s[i..i + |t|] == t
  {
    if i + |t| <= |s| && s[i..i + |t|] == t {
      assert forall k :: 0 <= k < |t| ==> t[k] == s[i..i + |t|][k];
    }
  }

  lemma HasAtOne(s: bytes, i: nat)
    ensures i <= |s| ==> HasAt(s, i, [])
    ensures i < |s| ==> HasAt(s, i, [s[i]])
  {
  }

  lemma FirstOf(s: bytes, i: nat, t: bytes)
    requires HasAt(s, i, t) && |t| > 0
    ensures i < |s| && s[i] == t[0]
  {
  }

  lemma HasAtFour(s: bytes, i: nat, a: bytes, b: bytes, c: bytes, d: bytes)
    ensures HasAt(s, i, a + (b + (c + d))) <==>
            && HasAt(s, i, a) && HasAt(s, i + |a|, b)
            && HasAt(s, i + |a| + |b|, c) && HasAt(s, i + |a| + |b| + |c|, d)
  {
    HasAtConcat(s, i + |a| + |b|, c, d);
    HasAtConcat(s, i + |a|, b, c + d);
    HasAtConcat(s, i, a, b + (c + d));
  }

  lemma HasAtSlice(s: bytes, i: nat, j: nat)
    requires i <= j <= |s|
    ensures HasAt(s, i, s[i..j])
  {
  }
}
