/** UTF-8 and the four-digit hexadecimal escapes of JSON strings. */
module Utf8 {
  import opened Bytes

  predicate IsScalar(v: int) {
    0 <= v < 0xD800 || 0xE000 <= v <= 0x10FFFF
  }

  /**
   * The UTF-8 bytes of a code point, empty when it is out of range. Division and remainder by
   * powers of two are the shifts and masks of the C code, and adding 0x80, 0xC0, 0xE0 or 0xF0 to
   * bits that are clear is its bitwise or (see ShiftsAreDivisions).
   */
  function CodepointToUtf8(cp: nat): (u: bytes)
    ensures |u| <= 4
    ensures cp <= 0xFFFF ==> 1 <= |u| <= 3
  {
    if cp <= 0x7F then [cp]
    else if cp <= 0x7FF then [cp / 64 + 0xC0, cp % 64 + 0x80]
    else if cp <= 0xFFFF then [cp / 4096 + 0xE0, cp / 64 % 64 + 0x80, cp % 64 + 0x80]
    else if cp <= 0x1FFFFF then
      [cp / 262144 + 0xF0, cp / 4096 % 64 + 0x80, cp / 64 % 64 + 0x80, cp % 64 + 0x80]
    else []
  }

  /** On 32-bit words the expressions of the C code are those divisions and sums. */
  lemma ShiftsAreDivisions(cp: bv32)
    requires cp <= 0x1FFFFF
    ensures cp <= 0x7FF ==> (cp >> 6) | 0xC0 == cp / 64 + 0xC0
    ensures (cp & 0x3F) | 0x80 == cp % 64 + 0x80
    ensures cp <= 0xFFFF ==> (cp >> 12) | 0xE0 == cp / 4096 + 0xE0
    ensures ((cp >> 6) & 0x3F) | 0x80 == cp / 64 % 64 + 0x80
    ensures (cp >> 18) | 0xF0 == cp / 262144 + 0xF0
    ensures ((cp >> 12) & 0x3F) | 0x80 == cp / 4096 % 64 + 0x80
  {
  }

  datatype Decoded = Malformed | Decoded(scalar: nat, length: nat)

  predicate Tail(b: byte) {
    0x80 <= b <= 0xBF
  }

  /** The six payload bits of a continuation byte. */
  function Payload(b: byte): int {
    b - 0x80
  }

  function Lead(b: byte, marker: int): int {
    b - marker
  }

  /** Reads one character by the syntax of section 4 of RFC 3629. */
  function DecodeUtf8(s: bytes): (r: Decoded)
    ensures r.Decoded? ==> IsScalar(r.scalar) && 1 <= r.length <= |s|
  {
    if |s| >= 1 && s[0] <= 0x7F then Decoded(s[0], 1)
    else if |s| >= 2 && 0xC2 <= s[0] <= 0xDF && Tail(s[1]) then
      Decoded(Lead(s[0], 0xC0) * 64 + Payload(s[1]), 2)
    else if |s| >= 3 && Tail(s[2]) &&
            (|| (s[0] == 0xE0 && 0xA0 <= s[1] <= 0xBF) || (0xE1 <= s[0] <= 0xEC && Tail(s[1]))
             || (s[0] == 0xED && 0x80 <= s[1] <= 0x9F) || (0xEE <= s[0] <= 0xEF && Tail(s[1]))) then
      Decoded((Lead(s[0], 0xE0) * 64 + Payload(s[1])) * 64 + Payload(s[2]), 3)
    else if |s| >= 4 && Tail(s[2]) && Tail(s[3]) &&
            (|| (s[0] == 0xF0 && 0x90 <= s[1] <= 0xBF) || (0xF1 <= s[0] <= 0xF3 && Tail(s[1]))
             || (s[0] == 0xF4 && 0x80 <= s[1] <= 0x8F)) then
      Decoded(((Lead(s[0], 0xF0) * 64 + Payload(s[1])) * 64 + Payload(s[2])) * 64 + Payload(s[3]), 4)
    else Malformed
  }

  lemma Base64Digits(v: nat)
    ensures v / 4096 == v / 64 / 64 && v / 262144 == v / 4096 / 64
    ensures v == v / 64 * 64 + v % 64
    ensures v / 64 == v / 4096 * 64 + v / 64 % 64
    ensures v / 4096 == v / 262144 * 64 + v / 4096 % 64
  {
  }

  lemma DecodeTwo(t: bytes, a: nat, b: nat)
    requires |t| >= 2 && 2 <= a < 32 && b < 64 && t[0] == a + 0xC0 && t[1] == b + 0x80
    ensures DecodeUtf8(t) == Decoded(a * 64 + b, 2)
  {
  }

  lemma DecodeThree(t: bytes, a: nat, b: nat, c: nat)
    requires |t| >= 3 && a < 16 && b < 64 && c < 64
    requires t[0] == a + 0xE0 && t[1] == b + 0x80 && t[2] == c + 0x80
    requires (a == 0 ==> b >= 32) && (a == 13 ==> b < 32)
    ensures DecodeUtf8(t) == Decoded((a * 64 + b) * 64 + c, 3)
  {
  }

  lemma DecodeFour(t: bytes, a: nat, b: nat, c: nat, d: nat)
    requires |t| >= 4 && a < 5 && b < 64 && c < 64 && d < 64
    requires t[0] == a + 0xF0 && t[1] == b + 0x80 && t[2] == c + 0x80 && t[3] == d + 0x80
    requires (a == 0 ==> b >= 16) && (a == 4 ==> b < 16)
    ensures DecodeUtf8(t) == Decoded(((a * 64 + b) * 64 + c) * 64 + d, 4)
  {
  }

  /** What is written for a scalar value is well formed and reads back as that scalar. */
  lemma Utf8RoundTrip(v: nat, rest: bytes)
    requires IsScalar(v)
    ensures var u := CodepointToUtf8(v);
            |u| >= 1 && DecodeUtf8(u + rest) == Decoded(v, |u|)
  {
    hide DecodeUtf8;
    Base64Digits(v);
    var u := CodepointToUtf8(v);
    var t := u + rest;
    assert forall k :: 0 <= k < |u| ==> t[k] == u[k];
    if v <= 0x7F {
      DecodeOne(t);
    } else if v <= 0x7FF {
      DecodeTwo(t, v / 64, v % 64);
    } else if v <= 0xFFFF {
      DecodeThree(t, v / 4096, v / 64 % 64, v % 64);
    } else {
      DecodeFour(t, v / 262144, v / 4096 % 64, v / 64 % 64, v % 64);
    }
  }

  lemma DecodeOne(t: bytes)
    requires |t| >= 1 && t[0] <= 0x7F
    ensures DecodeUtf8(t) == Decoded(t[0], 1)
  {
  }

  lemma DivideBack(a: nat, b: nat)
    requires b < 64
    ensures (a * 64 + b) / 64 == a && (a * 64 + b) % 64 == b
  {
  }

  lemma EncodeFour(a: nat, b: nat, c: nat, d: nat)
    requires a < 5 && b < 64 && c < 64 && d < 64 && (a == 0 ==> b >= 16)
    ensures CodepointToUtf8(((a * 64 + b) * 64 + c) * 64 + d) == [a + 0xF0, b + 0x80, c + 0x80, d + 0x80]
  {
    var v := ((a * 64 + b) * 64 + c) * 64 + d;
    Base64Digits(v);
    DivideBack(a, b);
    DivideBack(a * 64 + b, c);
    DivideBack((a * 64 + b) * 64 + c, d);
    assert 0x10000 <= v <= 0x1FFFFF;
  }

  lemma EncodeThree(a: nat, b: nat, c: nat)
    requires a < 16 && b < 64 && c < 64 && (a == 0 ==> b >= 32)
    ensures CodepointToUtf8((a * 64 + b) * 64 + c) == [a + 0xE0, b + 0x80, c + 0x80]
  {
    var v := (a * 64 + b) * 64 + c;
    Base64Digits(v);
    DivideBack(a, b);
    DivideBack(a * 64 + b, c);
    assert 0x800 <= v <= 0xFFFF;
  }

  /** Every well formed character is what the encoder writes for its scalar. */
  lemma Utf8Onto(s: bytes)
    requires DecodeUtf8(s).Decoded?
    ensures var r := DecodeUtf8(s); s[..r.length] == CodepointToUtf8(r.scalar)
  {
    hide CodepointToUtf8;
    var r := DecodeUtf8(s);
    if r.length <= 2 {
      EncodeShort(s, r.length);
    } else if r.length == 3 {
      EncodeThree(Lead(s[0], 0xE0), Payload(s[1]), Payload(s[2]));
    } else {
      EncodeFour(Lead(s[0], 0xF0), Payload(s[1]), Payload(s[2]), Payload(s[3]));
    }
  }

  lemma EncodeShort(s: bytes, n: nat)
    requires DecodeUtf8(s).Decoded? && DecodeUtf8(s).length == n <= 2
    ensures s[..n] == CodepointToUtf8(DecodeUtf8(s).scalar)
  {
    if n == 2 {
      DivideBack(Lead(s[0], 0xC0), Payload(s[1]));
    }
  }

  lemma Utf8Injective(v: nat, w: nat)
    requires IsScalar(v) && IsScalar(w) && CodepointToUtf8(v) == CodepointToUtf8(w)
    ensures v == w
  {
    Utf8RoundTrip(v, []);
    Utf8RoundTrip(w, []);
  }

  // ----- whole texts -----

  /** `s` is UTF-8: one well formed character after the other. */
  predicate WellFormed(s: bytes) {
    if |s| == 0 then true
    else
      var r := DecodeUtf8(s);
      r.Decoded? && WellFormed(s[r.length..])
  }

  /** `t` does not start in the middle of a character. */
  predicate AtBoundary(t: bytes) {
    |t| == 0 || !Tail(t[0])
  }

  lemma DecodeExtends(s: bytes, t: bytes)
    requires DecodeUtf8(s).Decoded?
    ensures DecodeUtf8(s + t) == DecodeUtf8(s)
  {
    var u := s + t;
    assert forall k :: 0 <= k < |s| ==> u[k] == s[k];
  }

  /** A cut-off character is not completed by the start of another. */
  lemma DecodeCut(s: bytes, t: bytes)
    requires |s| > 0 && DecodeUtf8(s).Malformed? && AtBoundary(t)
    ensures DecodeUtf8(s + t).Malformed?
  {
    var u := s + t;
    assert forall k :: 0 <= k < |s| ==> u[k] == s[k];
    if |t| > 0 {
      assert u[|s|] == t[0];
    }
  }

  lemma {:induction false} WellFormedBefore(s: bytes, t: bytes)
    requires WellFormed(s)
    ensures WellFormed(s + t) <==> WellFormed(t)
    decreases |s|
  {
    hide DecodeUtf8;
    if |s| == 0 {
      assert s + t == t;
    } else {
      var n := DecodeUtf8(s).length;
      DecodeExtends(s, t);
      assert (s + t)[n..] == s[n..] + t;
      WellFormedBefore(s[n..], t);
    }
  }

  /** UTF-8 may be checked piece by piece where the second piece does not start in a character. */
  lemma {:induction false} WellFormedConcat(s: bytes, t: bytes)
    requires AtBoundary(t)
    ensures WellFormed(s + t) <==> WellFormed(s) && WellFormed(t)
    decreases |s|
  {
    hide DecodeUtf8, AtBoundary;
    if |s| == 0 {
      assert s + t == t;
    } else if DecodeUtf8(s).Decoded? {
      var n := DecodeUtf8(s).length;
      DecodeExtends(s, t);
      assert (s + t)[n..] == s[n..] + t;
      WellFormedConcat(s[n..], t);
    } else {
      DecodeCut(s, t);
    }
  }

  ghost predicate Ascii(s: bytes) {
    forall k :: 0 <= k < |s| ==> s[k] <= 0x7F
  }

  lemma {:induction false} AsciiWellFormed(s: bytes)
    requires Ascii(s)
    ensures WellFormed(s)
  {
    if |s| == 0 {
    } else {
      AsciiWellFormed(s[1..]);
    }
  }

  // ----- hexadecimal -----

  /** A hexadecimal digit of section 7 of RFC 8259. */
  predicate IsHexDigit(b: byte) {
    || '0' as int <= b <= '9' as int
    || 'A' as int <= b <= 'F' as int
    || 'a' as int <= b <= 'f' as int
  }

  /** `b | 0x20` on a byte. */
  function Lower(b: byte): byte {
    if b / 32 % 2 == 0 then b + 32 else b
  }

  lemma LowerIsOr(b: bv8)
    ensures Lower(b as int) == (b | 0x20) as int
  {
  }

  function HexDigitToInt(b: byte): (d: int)
    ensures -1 <= d < 16
    ensures d >= 0 <==> IsHexDigit(b)
  {
    if 48 <= b <= 57 then b - 48
    else if 97 <= Lower(b) <= 102 then 10 + Lower(b) - 97
    else -1
  }

  /** Four hexadecimal digits at `i`, or -1; nothing is read after the first bad digit. */
  function DecodeHex4(s: bytes, i: nat): (v: int)
    ensures -1 <= v <= 0xFFFF
    ensures v >= 0 <==> i + 4 <= |s| && forall k :: i <= k < i + 4 ==> IsHexDigit(s[k])
  {
    var d0, d1, d2, d3 := HexDigitToInt(At(s, i)), HexDigitToInt(At(s, i + 1)),
                          HexDigitToInt(At(s, i + 2)), HexDigitToInt(At(s, i + 3));
    if d0 < 0 || d1 < 0 || d2 < 0 || d3 < 0 then -1
    else d0 * 4096 + d1 * 256 + d2 * 16 + d3
  }

  /** The digit `d`, in either case. */
  predicate WritesDigit(b: byte, d: nat)
    requires d < 16
  {
    if d < 10 then b == '0' as int + d else b == 'A' as int + d - 10 || b == 'a' as int + d - 10
  }

  lemma HexDigitMeans(b: byte, d: nat)
    requires d < 16
    ensures HexDigitToInt(b) == d <==> WritesDigit(b, d)
  {
  }

  /** Four bytes are read as v exactly when they are the four digits of v, each in either case. */
  lemma DecodeHex4Means(h: bytes, v: nat)
    requires |h| == 4 && v <= 0xFFFF
    ensures DecodeHex4(h, 0) == v <==>
            && WritesDigit(h[0], v / 4096) && WritesDigit(h[1], v / 256 % 16)
            && WritesDigit(h[2], v / 16 % 16) && WritesDigit(h[3], v % 16)
  {
    HexDigitMeans(h[0], v / 4096);
    HexDigitMeans(h[1], v / 256 % 16);
    HexDigitMeans(h[2], v / 16 % 16);
    HexDigitMeans(h[3], v % 16);
    hide HexDigitToInt, WritesDigit, IsHexDigit;
    assert At(h, 0) == h[0] && At(h, 1) == h[1] && At(h, 2) == h[2] && At(h, 3) == h[3];
    Base16Digits(v, HexDigitToInt(h[0]), HexDigitToInt(h[1]), HexDigitToInt(h[2]), HexDigitToInt(h[3]));
  }

  lemma Base16Digits(v: nat, a: int, b: int, c: int, d: int)
    requires v <= 0xFFFF && a < 16 && b < 16 && c < 16 && d < 16
    ensures a >= 0 && b >= 0 && c >= 0 && d >= 0 ==>
              (v == a * 4096 + b * 256 + c * 16 + d <==>
               a == v / 4096 && b == v / 256 % 16 && c == v / 16 % 16 && d == v % 16)
  {
    var u, t := v / 16, v / 256;
    assert v == u * 16 + v % 16 && u == t * 16 + u % 16 && t == v / 4096 * 16 + t % 16;
    if a >= 0 && b >= 0 && c >= 0 && d >= 0 {
      SplitDigit(u, v % 16, a * 256 + b * 16 + c, d);
      SplitDigit(t, u % 16, a * 16 + b, c);
      SplitDigit(v / 4096, t % 16, a, b);
    }
  }

  lemma SplitDigit(q: nat, r: nat, x: nat, d: nat)
    requires r < 16 && d < 16
    ensures q * 16 + r == x * 16 + d <==> q == x && r == d
  {
  }

  function HexDigit(d: nat): (b: byte)
    requires d < 16
    ensures HexDigitToInt(b) == d
  {
    if d < 10 then 48 + d else 87 + d
  }

  lemma DecodeHex4At(s: bytes, i: nat, h: bytes)
    requires |h| == 4 && HasAt(s, i, h)
    ensures DecodeHex4(s, i) == DecodeHex4(h, 0)
  {
    assert forall k :: 0 <= k < 4 ==> s[i + k] == h[k];
    assert s[i + 0] == h[0] && s[i + 1] == h[1] && s[i + 2] == h[2] && s[i + 3] == h[3];
  }

  predicate IsSurrogate(v: int) {
    0xD800 <= v <= 0xDFFF
  }

  predicate IsHigh(v: int) {
    0xD800 <= v <= 0xDBFF
  }

  predicate IsLow(v: int) {
    0xDC00 <= v <= 0xDFFF
  }

  /** The scalar value of a surrogate pair, section 2.2 of RFC 2781. */
  function PairValue(high: nat, low: nat): (v: nat)
    requires IsHigh(high) && IsLow(low)
    ensures 0x10000 <= v <= 0x10FFFF
  {
    high % 0x400 * 0x400 + low % 0x400 + 0x10000
  }

  /** The surrogate pair of a supplementary scalar value. */
  function HighOf(v: nat): (h: nat)
    requires 0x10000 <= v <= 0x10FFFF
    ensures IsHigh(h)
  {
    0xD800 + (v - 0x10000) / 0x400
  }

  function LowOf(v: nat): (l: nat)
    requires 0x10000 <= v <= 0x10FFFF
    ensures IsLow(l)
    ensures PairValue(HighOf(v), l) == v
  {
    0xDC00 + (v - 0x10000) % 0x400
  }

  /** The masks the decoder tests, on 32-bit words, are these ranges. */
  lemma MasksAreRanges(v: bv32)
    requires v <= 0xFFFF
    ensures v & 0xF800 == 0xD800 <==> 0xD800 <= v <= 0xDFFF
    ensures 0xD800 <= v <= 0xDFFF ==> (v & 0x400 != 0 <==> 0xDC00 <= v)
    ensures v & 0xFC00 == 0xDC00 <==> 0xDC00 <= v <= 0xDFFF
    ensures (v & 0x3FF) << 10 == v % 0x400 * 0x400
  {
  }
}
