/** The decoder accepts exactly its grammar: parsing and writing out are inverse. */
module JsonGrammar {
  import opened Bytes
  import opened Decimals
  import opened JsonSyntax
  import opened JsonLexer
  import opened JsonParser

  // ----- soundness: what is parsed is the text of the tree -----

  ghost predicate ValueAt(s: bytes, k: nat, v: Json, j: nat) {
    JsonOk(v, Relaxed) && HasAt(s, k, JsonText(v)) && j == k + |JsonText(v)|
  }

  ghost predicate ElementsAt(s: bytes, k: nat, es: Elements, j: nat) {
    ElementsOk(es, Relaxed) && HasAt(s, k, ElementsText(es)) && j == k + |ElementsText(es)|
  }

  ghost predicate MembersAt(s: bytes, k: nat, ms: Members, j: nat) {
    MembersOk(ms, Relaxed) && HasAt(s, k, MembersText(ms)) && j == k + |MembersText(ms)|
  }

  lemma {:induction false} ValueSound(s: bytes, i: nat, r: Lexed, depth: nat, max: nat)
    requires NulFree(s) && depth <= max && TokenAt(s, i, r)
    requires ParseValue(s, r, depth, max).Parsed?
    ensures var p := ParseValue(s, r, depth, max);
            ValueAt(s, r.index, p.tree, p.next) && depth + Depth(p.tree) <= max
    decreases max - depth, |s| - r.next, 2
  {
    hide ItemsText, NumeralText, ItemsOk, NumeralOk;
    match r.tok
    case ArrBegin => ArraySound(s, r.index, r.next, depth, max);
    case ObjBegin => ObjectSound(s, r.index, r.next, depth, max);
    case _ =>
  }

  lemma {:induction false} ArraySound(s: bytes, k: nat, i: nat, depth: nat, max: nat)
    requires NulFree(s) && depth <= max && HasAt(s, k, [LBRACKET]) && i == k + 1
    requires ParseArray(s, i, depth, max).Parsed?
    ensures var p := ParseArray(s, i, depth, max);
            ValueAt(s, k, p.tree, p.next) && depth + Depth(p.tree) <= max
    decreases max - depth, |s| - i, 1
  {
    hide NextToken, NulFree, HasAt, ParseElements, ParseMembers, ElementsText, MembersText, AllWhitespace;
    NextTokenSound(s, i);
    var r := NextToken(s, i);
    if r.tok == ArrEnd {
      WhitespaceAt(s, i, r);
      FirstOf(s, r.index, [RBRACKET]);
      EmptyAt(s, k, LBRACKET, i, r, RBRACKET);
    } else {
      ElementsSound(s, i, r, depth + 1, max);
      HasAtConcat(s, k, [LBRACKET], ElementsText(ParseElements(s, i, r, depth + 1, max).tree));
    }
  }

  lemma EmptyAt(s: bytes, k: nat, open: byte, i: nat, r: Lexed, close: byte)
    requires HasAt(s, k, [open]) && i == k + 1 <= r.index < |s| && s[r.index] == close
    ensures HasAt(s, k, [open] + (s[i..r.index] + [close]))
    ensures |[open] + (s[i..r.index] + [close])| == r.index + 1 - k
  {
    HasAtIsSlice(s, i, s[i..r.index]);
    HasAtConcat(s, i, s[i..r.index], [close]);
    HasAtConcat(s, k, [open], s[i..r.index] + [close]);
  }

  lemma WhitespaceAt(s: bytes, i: nat, r: Lexed)
    requires TokenAt(s, i, r) && !r.tok.ErrorToken?
    ensures HasAt(s, i, s[i..r.index]) && AllWhitespace(s[i..r.index])
    ensures HasAt(s, r.index, TokenText(r.tok)) && r.next == r.index + |TokenText(r.tok)|
  {
    HasAtIsSlice(s, i, s[i..r.index]);
  }

  lemma {:induction false} ElementsSound(s: bytes, i: nat, r: Lexed, depth: nat, max: nat)
    requires NulFree(s) && depth <= max && TokenAt(s, i, r)
    requires ParseElements(s, i, r, depth, max).Parsed?
    ensures var p := ParseElements(s, i, r, depth, max);
            ElementsAt(s, i, p.tree, p.next) && depth + ElementsDepth(p.tree) <= max
    decreases max - depth, |s| - r.next, 3
  {
    hide NextToken, NulFree, HasAt, TokenText, ParseValue, JsonText, JsonOk, Depth, AllWhitespace;
    CloseText();
    var v, j := ParseValue(s, r, depth, max).tree, ParseValue(s, r, depth, max).next;
    ValueSound(s, i, r, depth, max);
    NextTokenSound(s, j);
    var sep := NextToken(s, j);
    ValueTokenIsGood(s, i, r, depth, max);
    WhitespaceAt(s, j, sep);
    var es := ParseElements(s, i, r, depth, max).tree;
    if sep.tok != ArrEnd {
      NextTokenSound(s, sep.next);
      ElementsSound(s, sep.next, NextToken(s, sep.next), depth, max);
      TailAt(s, sep.index, COMMA, ElementsText(es.rest));
    }
    HasAtFour(s, i, es.w1, JsonText(v), es.w2, ElementsTail(es));
  }

  lemma CloseText()
    ensures TokenText(ArrEnd) == [RBRACKET] && TokenText(ObjEnd) == [RBRACE]
    ensures TokenText(Comma) == [COMMA] && TokenText(Colon) == [COLON]
  {
  }

  lemma TailAt(s: bytes, k: nat, b: byte, rest: bytes)
    requires HasAt(s, k + 1, rest)
    ensures HasAt(s, k, [b]) ==> HasAt(s, k, [b] + rest)
  {
    HasAtConcat(s, k, [b], rest);
  }

  lemma {:induction false} ObjectSound(s: bytes, k: nat, i: nat, depth: nat, max: nat)
    requires NulFree(s) && depth <= max && HasAt(s, k, [LBRACE]) && i == k + 1
    requires ParseObject(s, i, depth, max).Parsed?
    ensures var p := ParseObject(s, i, depth, max);
            ValueAt(s, k, p.tree, p.next) && depth + Depth(p.tree) <= max
    decreases max - depth, |s| - i, 1
  {
    hide NextToken, NulFree, HasAt, ParseElements, ParseMembers, ElementsText, MembersText, AllWhitespace;
    NextTokenSound(s, i);
    var r := NextToken(s, i);
    if r.tok == ObjEnd {
      WhitespaceAt(s, i, r);
      FirstOf(s, r.index, [RBRACE]);
      EmptyAt(s, k, LBRACE, i, r, RBRACE);
    } else {
      MembersSound(s, i, r, depth + 1, max);
      HasAtConcat(s, k, [LBRACE], MembersText(ParseMembers(s, i, r, depth + 1, max).tree));
    }
  }

  /** The seven pieces of a member and what follows it, one after the other. */
  lemma MemberParts(s: bytes, i: nat, ms: Members)
    ensures var k1 := i + |ms.w1|;
            var k2 := k1 + |StringText(ms.key)|;
            var k3 := k2 + |ms.w2| + 1;
            var k4 := k3 + |ms.w3|;
            var k5 := k4 + |JsonText(ms.value)|;
            && |MembersText(ms)| == k5 + |ms.w4| + |MembersTail(ms)| - i
            && (HasAt(s, i, MembersText(ms)) <==>
                  && HasAt(s, i, ms.w1) && HasAt(s, k1, StringText(ms.key)) && HasAt(s, k2, ms.w2)
                  && HasAt(s, k3 - 1, [COLON]) && HasAt(s, k3, ms.w3)
                  && HasAt(s, k4, JsonText(ms.value)) && HasAt(s, k5, ms.w4)
                  && HasAt(s, k5 + |ms.w4|, MembersTail(ms)))
  {
    hide HasAt, StringText, JsonText, MembersTail;
    var k3 := i + |ms.w1| + |StringText(ms.key)| + |ms.w2| + 1;
    var tail := ms.w3 + (JsonText(ms.value) + (ms.w4 + MembersTail(ms)));
    HasAtFour(s, k3, ms.w3, JsonText(ms.value), ms.w4, MembersTail(ms));
    HasAtConcat(s, k3 - 1, [COLON], tail);
    HasAtFour(s, i, ms.w1, StringText(ms.key), ms.w2, [COLON] + tail);
  }

  lemma {:induction false} MembersSound(s: bytes, i: nat, r: Lexed, depth: nat, max: nat)
    requires NulFree(s) && depth <= max && TokenAt(s, i, r)
    requires ParseMembers(s, i, r, depth, max).Parsed?
    ensures var p := ParseMembers(s, i, r, depth, max);
            MembersAt(s, i, p.tree, p.next) && depth + MembersDepth(p.tree) <= max
    decreases max - depth, |s| - r.next, 3
  {
    hide NextToken, NulFree, HasAt, ParseValue, JsonText, StringText, MembersText, JsonOk, ItemsOk, Depth,
         AllWhitespace;
    var ms := ParseMembers(s, i, r, depth, max).tree;
    NextTokenSound(s, r.next);
    var colon := NextToken(s, r.next);
    NextTokenSound(s, colon.next);
    var first := NextToken(s, colon.next);
    var j := ParseValue(s, first, depth, max).next;
    ValueSound(s, colon.next, first, depth, max);
    NextTokenSound(s, j);
    var sep := NextToken(s, j);
    WhitespaceAt(s, i, r);
    WhitespaceAt(s, r.next, colon);
    ValueTokenIsGood(s, colon.next, first, depth, max);
    WhitespaceAt(s, j, sep);
    if sep.tok != ObjEnd {
      NextTokenSound(s, sep.next);
      MembersSound(s, sep.next, NextToken(s, sep.next), depth, max);
      TailAt(s, sep.index, COMMA, MembersText(ms.rest));
    }
    MemberParts(s, i, ms);
  }

  lemma ValueTokenIsGood(s: bytes, i: nat, r: Lexed, depth: nat, max: nat)
    requires NulFree(s) && depth <= max && TokenAt(s, i, r)
    requires ParseValue(s, r, depth, max).Parsed?
    ensures HasAt(s, i, s[i..r.index]) && AllWhitespace(s[i..r.index])
  {
    WhitespaceAt(s, i, r);
  }

  // ----- completeness: every tree of the grammar is parsed back from its text -----

  ghost predicate WhitespaceThenValue(s: bytes, i: nat, w: bytes, v: Json) {
    && AllWhitespace(w) && HasAt(s, i, w)
    && JsonOk(v, Relaxed) && HasAt(s, i + |w|, JsonText(v))
    && (v.JNumber? ==> Delimiter(At(s, i + |w| + |JsonText(v)|)))
  }

  lemma DelimiterAhead(s: bytes, j: nat, w: bytes, tail: bytes)
    requires AllWhitespace(w) && HasAt(s, j, w) && HasAt(s, j + |w|, tail)
    requires |tail| > 0 && Delimiter(tail[0])
    ensures Delimiter(At(s, j))
  {
    if |w| > 0 {
      FirstOf(s, j, w);
    } else {
      FirstOf(s, j, tail);
    }
  }

  function ScalarToken(v: Json): Token {
    match v
    case JNull => NullToken
    case JBool(b) => BooleanToken(b)
    case JNumber(n) => NumberToken(n)
    case JString(items) => StringToken(items)
    case JArray(_) => ArrBegin
    case JEmptyArray(_) => ArrBegin
    case JObject(_) => ObjBegin
    case JEmptyObject(_) => ObjBegin
  }

  lemma FirstToken(s: bytes, i: nat, w: bytes, v: Json)
    requires NulFree(s) && WhitespaceThenValue(s, i, w, v)
    ensures i <= |s|
    ensures var t := ScalarToken(v);
            NextToken(s, i) == Lexed(t, i + |w|, i + |w| + |TokenText(t)|)
  {
    hide ItemsText, NumeralText, ElementsText, MembersText, ItemsOk, NumeralOk;
    var k := i + |w|;
    match v {
      case JArray(es) => HasAtConcat(s, k, [LBRACKET], ElementsText(es));
      case JEmptyArray(inner) => HasAtConcat(s, k, [LBRACKET], inner + [RBRACKET]);
      case JObject(ms) => HasAtConcat(s, k, [LBRACE], MembersText(ms));
      case JEmptyObject(inner) => HasAtConcat(s, k, [LBRACE], inner + [RBRACE]);
      case _ =>
    }
    NextTokenComplete(s, i, w, ScalarToken(v));
  }

  lemma {:induction false} ValueComplete(s: bytes, i: nat, w: bytes, v: Json, depth: nat, max: nat)
    requires NulFree(s) && WhitespaceThenValue(s, i, w, v) && depth + Depth(v) <= max
    ensures i <= |s| && NextToken(s, i).index == i + |w| && TokenAt(s, i, NextToken(s, i))
    ensures ParseValue(s, NextToken(s, i), depth, max) == Parsed(v, i + |w| + |JsonText(v)|)
    decreases v, 1
  {
    hide ElementsText, MembersText, ItemsText, NumeralText, HasAt, ParseArray, ParseObject, NextToken;
    FirstToken(s, i, w, v);
    NextTokenSound(s, i);
    var k := i + |w|;
    match v {
      case JArray(es) =>
        HasAtConcat(s, k, [LBRACKET], ElementsText(es));
        ArrayComplete(s, k + 1, es, depth, max);
      case JEmptyArray(inner) => EmptyComplete(s, k, LBRACKET, inner, RBRACKET, ArrEnd, depth, max);
      case JObject(ms) =>
        HasAtConcat(s, k, [LBRACE], MembersText(ms));
        ObjectComplete(s, k + 1, ms, depth, max);
      case JEmptyObject(inner) => EmptyComplete(s, k, LBRACE, inner, RBRACE, ObjEnd, depth, max);
      case _ =>
    }
  }

  lemma EmptyComplete(s: bytes, k: nat, open: byte, inner: bytes, close: byte, t: Token, depth: nat, max: nat)
    requires NulFree(s) && AllWhitespace(inner) && HasAt(s, k, [open] + (inner + [close])) && depth + 1 <= max
    requires (t == ArrEnd && close == RBRACKET) || (t == ObjEnd && close == RBRACE)
    ensures t == ArrEnd ==>
              ParseArray(s, k + 1, depth, max) == Parsed(JEmptyArray(inner), k + 2 + |inner|)
    ensures t == ObjEnd ==>
              ParseObject(s, k + 1, depth, max) == Parsed(JEmptyObject(inner), k + 2 + |inner|)
  {
    hide NextToken, HasAt, ParseElements, ParseMembers;
    HasAtConcat(s, k, [open], inner + [close]);
    HasAtConcat(s, k + 1, inner, [close]);
    NextTokenComplete(s, k + 1, inner, t);
    HasAtIsSlice(s, k + 1, inner);
  }

  lemma {:induction false} ArrayComplete(s: bytes, i: nat, es: Elements, depth: nat, max: nat)
    requires NulFree(s) && ElementsOk(es, Relaxed) && HasAt(s, i, ElementsText(es))
    requires depth + 1 + ElementsDepth(es) <= max
    ensures ParseArray(s, i, depth, max) == Parsed(JArray(es), i + |ElementsText(es)|)
    decreases es, 2
  {
    hide NextToken, HasAt, ParseValue;
    ElementsComplete(s, i, es, depth + 1, max);
  }

  lemma ElementParts(s: bytes, i: nat, es: Elements)
    requires ElementsOk(es, Relaxed) && HasAt(s, i, ElementsText(es))
    ensures var k := i + |es.w1|;
            var j := k + |JsonText(es.value)|;
            && WhitespaceThenValue(s, i, es.w1, es.value)
            && HasAt(s, j, es.w2)
            && HasAt(s, j + |es.w2|, ElementsTail(es))
            && |ElementsText(es)| == j + |es.w2| + |ElementsTail(es)| - i
            && es.w1 == s[i..k] && es.w2 == s[j..j + |es.w2|]
  {
    hide HasAt, JsonText;
    HasAtFour(s, i, es.w1, JsonText(es.value), es.w2, ElementsTail(es));
    var j := i + |es.w1| + |JsonText(es.value)|;
    DelimiterAhead(s, j, es.w2, ElementsTail(es));
    HasAtIsSlice(s, i, es.w1);
    HasAtIsSlice(s, j, es.w2);
  }

  lemma {:induction false} ElementsComplete(s: bytes, i: nat, es: Elements, depth: nat, max: nat)
    requires NulFree(s) && ElementsOk(es, Relaxed) && HasAt(s, i, ElementsText(es))
    requires depth + ElementsDepth(es) <= max
    ensures i <= |s| && TokenAt(s, i, NextToken(s, i)) && NextToken(s, i).tok != ArrEnd
    ensures ParseElements(s, i, NextToken(s, i), depth, max) == Parsed(es, i + |ElementsText(es)|)
    decreases es, 1
  {
    hide NextToken, HasAt, ParseValue, JsonText, ElementsText, WhitespaceThenValue, JsonOk;
    ElementParts(s, i, es);
    ValueComplete(s, i, es.w1, es.value, depth, max);
    ValueNeedsToken(s, NextToken(s, i), depth, max);
    var j := i + |es.w1| + |JsonText(es.value)|;
    CloseText();
    match es {
      case LastElement(_, _, w2) => NextTokenComplete(s, j, w2, ArrEnd);
      case MoreElements(_, _, w2, rest) =>
        HasAtConcat(s, j + |w2|, [COMMA], ElementsText(rest));
        NextTokenComplete(s, j, w2, Comma);
        ElementsComplete(s, j + |w2| + 1, rest, depth, max);
    }
  }

  lemma ValueNeedsToken(s: bytes, r: Lexed, depth: nat, max: nat)
    requires NulFree(s) && depth <= max && r.next <= |s| && ParseValue(s, r, depth, max).Parsed?
    ensures r.tok != ArrEnd
  {
  }

  lemma {:induction false} ObjectComplete(s: bytes, i: nat, ms: Members, depth: nat, max: nat)
    requires NulFree(s) && MembersOk(ms, Relaxed) && HasAt(s, i, MembersText(ms))
    requires depth + 1 + MembersDepth(ms) <= max
    ensures ParseObject(s, i, depth, max) == Parsed(JObject(ms), i + |MembersText(ms)|)
    decreases ms, 2
  {
    hide NextToken, HasAt, ParseValue;
    MembersComplete(s, i, ms, depth + 1, max);
  }

  lemma KeyToken(s: bytes, i: nat, w: bytes, key: Items)
    requires AllWhitespace(w) && HasAt(s, i, w) && ItemsOk(key, Relaxed) && HasAt(s, i + |w|, StringText(key))
    ensures i <= |s| && NextToken(s, i) == Lexed(StringToken(key), i + |w|, i + |w| + |StringText(key)|)
  {
    hide ItemsText, ItemsOk;
    NextTokenComplete(s, i, w, StringToken(key));
  }

  lemma MemberTokens(s: bytes, i: nat, ms: Members, k2: nat, k3: nat, j: nat)
    requires NulFree(s) && MembersOk(ms, Relaxed) && HasAt(s, i, MembersText(ms))
    requires k2 == i + |ms.w1| + |StringText(ms.key)| && k3 == k2 + |ms.w2| + 1
    requires j == k3 + |ms.w3| + |JsonText(ms.value)|
    ensures i <= |s| && NextToken(s, i) == Lexed(StringToken(ms.key), i + |ms.w1|, k2)
    ensures k2 <= |s| && NextToken(s, k2) == Lexed(Colon, k2 + |ms.w2|, k3)
    ensures WhitespaceThenValue(s, k3, ms.w3, ms.value)
    ensures HasAt(s, j, ms.w4) && HasAt(s, j + |ms.w4|, MembersTail(ms))
    ensures ms.w1 == s[i..i + |ms.w1|] && ms.w2 == s[k2..k3 - 1]
    ensures ms.w3 == s[k3..k3 + |ms.w3|] && ms.w4 == s[j..j + |ms.w4|]
    ensures |MembersText(ms)| == j + |ms.w4| + |MembersTail(ms)| - i
  {
    hide NextToken, HasAt, JsonText, StringText, MembersText, JsonOk, ItemsOk;
    MemberParts(s, i, ms);
    KeyToken(s, i, ms.w1, ms.key);
    CloseText();
    NextTokenComplete(s, k2, ms.w2, Colon);
    DelimiterAhead(s, j, ms.w4, MembersTail(ms));
    HasAtIsSlice(s, i, ms.w1);
    HasAtIsSlice(s, k2, ms.w2);
    HasAtIsSlice(s, k3, ms.w3);
    HasAtIsSlice(s, j, ms.w4);
  }

  lemma {:induction false} MembersComplete(s: bytes, i: nat, ms: Members, depth: nat, max: nat)
    requires NulFree(s) && MembersOk(ms, Relaxed) && HasAt(s, i, MembersText(ms))
    requires depth + MembersDepth(ms) <= max
    ensures i <= |s| && TokenAt(s, i, NextToken(s, i)) && NextToken(s, i).tok != ObjEnd
    ensures ParseMembers(s, i, NextToken(s, i), depth, max) == Parsed(ms, i + |MembersText(ms)|)
    decreases ms, 1
  {
    hide NextToken, HasAt, ParseValue, JsonText, StringText, MembersText, JsonOk, ItemsOk, WhitespaceThenValue;
    var k2 := i + |ms.w1| + |StringText(ms.key)|;
    var k3 := k2 + |ms.w2| + 1;
    var j := k3 + |ms.w3| + |JsonText(ms.value)|;
    MemberTokens(s, i, ms, k2, k3, j);
    NextTokenSound(s, i);
    ValueComplete(s, k3, ms.w3, ms.value, depth, max);
    CloseText();
    match ms {
      case LastMember(_, _, _, _, _, w4) => NextTokenComplete(s, j, w4, ObjEnd);
      case MoreMembers(_, _, _, _, _, w4, rest) =>
        HasAtConcat(s, j + |w4|, [COMMA], MembersText(rest));
        NextTokenComplete(s, j, w4, Comma);
        MembersComplete(s, j + |w4| + 1, rest, depth, max);
    }
  }

  // ----- the theorems -----

  /** `text`, up to its first NUL, is the text of the document `d`. */
  ghost predicate TextOf(text: bytes, d: Document) {
    CString(text) == DocumentText(d)
  }

  lemma DocumentSound(text: bytes, max: nat)
    requires Decode(text, max).Decoded?
    ensures var d := Decode(text, max).document;
            TextOf(text, d) && DocumentOk(d, Relaxed) && Depth(d.value) <= max && !LooksWide(text)
  {
    hide NextToken, HasAt, ParseValue, JsonText, JsonOk, DocumentText;
    var s := CString(text);
    var first := NextToken(s, 0);
    NextTokenSound(s, 0);
    ValueSound(s, 0, first, 0, max);
    ValueTokenIsGood(s, 0, first, 0, max);
    var j := ParseValue(s, first, 0, max).next;
    NextTokenSound(s, j);
    WhitespaceAt(s, j, NextToken(s, j));
    var d := Decode(text, max).document;
    assert s[0..first.index] == d.w1;
    DocumentStands(s, d);
  }

  lemma DocumentStands(s: bytes, d: Document)
    requires HasAt(s, 0, d.w1) && HasAt(s, |d.w1|, JsonText(d.value))
    requires HasAt(s, |d.w1| + |JsonText(d.value)|, d.w2) && |d.w1| + |JsonText(d.value)| + |d.w2| == |s|
    ensures s == DocumentText(d)
  {
    hide HasAt, JsonText;
    HasAtConcat(s, |d.w1|, JsonText(d.value), d.w2);
    HasAtConcat(s, 0, d.w1, JsonText(d.value) + d.w2);
    HasAtIsSlice(s, 0, DocumentText(d));
    assert s[0..|s|] == s;
  }

  /** Where the pieces of a document stand in its own text. */
  lemma DocumentParts(d: Document)
    requires DocumentOk(d, Relaxed)
    ensures var s, j := DocumentText(d), |d.w1| + |JsonText(d.value)|;
            && WhitespaceThenValue(s, 0, d.w1, d.value)
            && HasAt(s, j, d.w2) && j + |d.w2| == |s|
            && s[..|d.w1|] == d.w1 && s[j..] == d.w2
  {
    hide HasAt, JsonText, JsonOk, Delimiter;
    var s := DocumentText(d);
    var j := |d.w1| + |JsonText(d.value)|;
    assert s[0..|s|] == s;
    HasAtIsSlice(s, 0, s);
    HasAtConcat(s, 0, d.w1, JsonText(d.value) + d.w2);
    HasAtConcat(s, |d.w1|, JsonText(d.value), d.w2);
    EndDelimits(s, j, d.w2);
  }

  lemma EndDelimits(s: bytes, j: nat, w: bytes)
    requires AllWhitespace(w) && HasAt(s, j, w) && j + |w| == |s|
    ensures Delimiter(At(s, j))
  {
    if |w| == 0 {
    } else {
      FirstOf(s, j, w);
    }
  }

  lemma DocumentComplete(text: bytes, d: Document, max: nat)
    requires !LooksWide(text) && TextOf(text, d) && DocumentOk(d, Relaxed) && Depth(d.value) <= max
    ensures Decode(text, max) == Decoded(d)
  {
    hide NextToken, HasAt, ParseValue, JsonText, JsonOk, WhitespaceThenValue, DocumentText;
    var s := CString(text);
    var j := |d.w1| + |JsonText(d.value)|;
    DocumentParts(d);
    ValueComplete(s, 0, d.w1, d.value, 0, max);
    HasAtEnd(s, j + |d.w2|);
    NextTokenComplete(s, j, d.w2, End);
    assert s[j..j + |d.w2|] == d.w2;
  }

  lemma HasAtEnd(s: bytes, i: nat)
    requires i == |s|
    ensures HasAt(s, i, TokenText(End))
  {
  }

  /**
   * The decoder accepts exactly the relaxed grammar: a text is decoded, to the document d, if and
   * only if it does not look like UTF-16 or UTF-32, d is well formed and nested at most `max`
   * deep, and the text up to its first NUL is d written out.
   */
  lemma DecodeIffGrammar(text: bytes, max: nat, d: Document)
    ensures Decode(text, max) == Decoded(d) <==>
            !LooksWide(text) && TextOf(text, d) && DocumentOk(d, Relaxed) && Depth(d.value) <= max
  {
    if Decode(text, max) == Decoded(d) {
      DocumentSound(text, max);
    } else if !LooksWide(text) && TextOf(text, d) && DocumentOk(d, Relaxed) && Depth(d.value) <= max {
      DocumentComplete(text, d, max);
    }
  }

  /** No text can be read in two ways. */
  lemma Unambiguous(a: Document, b: Document)
    requires DocumentOk(a, Relaxed) && DocumentOk(b, Relaxed) && DocumentText(a) == DocumentText(b)
    ensures a == b
  {
    var text := DocumentText(a);
    DocumentNulFree(a, Relaxed);
    CStringOfNulFree(text);
    var max := Max(Depth(a.value), Depth(b.value));
    DocumentComplete(text, a, max);
    DocumentComplete(text, b, max);
  }

  lemma DocumentNulFree(d: Document, g: Grammar)
    requires DocumentOk(d, g)
    ensures NulFree(DocumentText(d))
  {
    JsonTextNulFree(d.value, g);
    NulFreeConcat(JsonText(d.value), d.w2);
  }

  lemma {:induction false} CStringOfNulFree(s: bytes)
    requires NulFree(s)
    ensures CString(s) == s
    ensures !LooksWide(s)
  {
    if |s| == 0 {
    } else {
      CStringOfNulFree(s[1..]);
    }
  }

  /** Every text of the strict grammar that is not nested too deep is decoded, to its own tree. */
  lemma StrictAccepted(d: Document, max: nat)
    requires DocumentOk(d, Strict) && Depth(d.value) <= max
    ensures Decode(DocumentText(d), max) == Decoded(d)
  {
    hide Decode, JsonOk, JsonText;
    JsonLoosened(d.value, Strict);
    DocumentNulFree(d, Strict);
    CStringOfNulFree(DocumentText(d));
    DocumentComplete(DocumentText(d), d, max);
  }

  /** A text of the grammar that is nested deeper than the limit is rejected. */
  lemma TooDeepRejected(text: bytes, d: Document, max: nat)
    requires TextOf(text, d) && DocumentOk(d, Relaxed) && Depth(d.value) > max
    ensures Decode(text, max).Rejected?
  {
    hide Decode, JsonOk, JsonText;
    if Decode(text, max).Decoded? {
      var e := Decode(text, max).document;
      DocumentSound(text, max);
      Unambiguous(d, e);
    }
  }

  lemma MoreThanEnd(s: bytes, j: nat, w: bytes)
    requires NulFree(s) && AllWhitespace(w) && HasAt(s, j, w)
    requires j + |w| < |s| && !IsWhitespace(s[j + |w|])
    ensures j <= |s| && NextToken(s, j).tok != End
  {
    hide HasAt;
    SkipWhitespaceOver(s, j, w);
    if Ch2Token(s[j + |w|]) == UnknownKind {
      LexUnknownSound(s, j + |w|);
    }
  }

  /**
   * For every text: a value followed by white space and anything else is rejected. Only a number
   * must be seen to end before what follows, as digits might continue it.
   */
  lemma TrailingTokenRejected(text: bytes, w1: bytes, v: Json, w2: bytes, rest: bytes, max: nat)
    requires CString(text) == w1 + (JsonText(v) + (w2 + rest))
    requires AllWhitespace(w1) && JsonOk(v, Relaxed) && AllWhitespace(w2)
    requires |rest| > 0 && !IsWhitespace(rest[0])
    requires v.JNumber? ==> |w2| > 0 || Delimiter(rest[0])
    ensures Decode(text, max).Rejected?
  {
    hide NextToken, HasAt, ParseValue, JsonText, JsonOk, DocumentText;
    var s := CString(text);
    var j := |w1| + |JsonText(v)|;
    var limit := Max(max, Depth(v));
    assert s[0..|s|] == s;
    HasAtIsSlice(s, 0, s);
    HasAtFour(s, 0, w1, JsonText(v), w2, rest);
    FirstOf(s, j + |w2|, rest);
    if v.JNumber? && |w2| > 0 {
      FirstOf(s, j, w2);
    }
    ValueComplete(s, 0, w1, v, 0, limit);
    MoreThanEnd(s, j, w2);
    if Decode(text, max).Decoded? {
      DocumentSound(text, max);
      DocumentComplete(text, Decode(text, max).document, limit);
      assert false;
    }
  }
}
