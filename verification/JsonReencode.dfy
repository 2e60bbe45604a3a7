/** The other way round: what was decoded is encoded again, to a text that is decoded to the same. */
module JsonReencode {
  import opened Bytes
  import opened Decimals
  import opened JsonEncoder
  import opened JsonGrammar
  import opened JsonLenient
  import opened JsonLexer
  import opened JsonParser
  import opened JsonReader
  import opened JsonRoundTrip
  import opened JsonSyntax
  import opened LuaHeap

  /** All numbers in the tree have at most `p` significant digits. */
  predicate NumbersFit(j: Json, p: nat)
    decreases j
  {
    match j
    case JNumber(n) => |Digits(Abs(NumeralValue(n).m))| <= p
    case JArray(es) => ElementsFit(es, p)
    case JObject(ms) => MembersFit(ms, p)
    case _ => true
  }

  predicate ElementsFit(es: Elements, p: nat)
    decreases es
  {
    NumbersFit(es.value, p) && (es.MoreElements? ==> ElementsFit(es.rest, p))
  }

  predicate MembersFit(ms: Members, p: nat)
    decreases ms
  {
    NumbersFit(ms.value, p) && (ms.MoreMembers? ==> MembersFit(ms.rest, p))
  }

  lemma {:induction false} NestedMore(t: Value, a: nat, b: nat)
    requires NestedWithin(t, a) && a <= b
    ensures NestedWithin(t, b)
    decreases t
  {
    if t.Table? {
      forall k | k in t.entries
        ensures NestedWithin(t.entries[k], b - 1)
      {
        NestedMore(t.entries[k], a - 1, b - 1);
      }
    } else {
    }
  }

  /** What holds of the value of every decoded text: it could be encoded within `depth`. */
  ghost predicate Encodable(t: Value, p: nat, depth: nat) {
    Plain(t, p) && NestedWithin(t, depth)
  }

  ghost predicate AllEncodable(m: map<Key, Value>, p: nat, depth: nat) {
    forall k :: k in m ==> Encodable(m[k], p, depth)
  }

  lemma EncodableMore(t: Value, p: nat, a: nat, b: nat)
    requires Encodable(t, p, a) && a <= b
    ensures Encodable(t, p, b)
  {
    NestedMore(t, a, b);
  }

  lemma AllEncodableMore(m: map<Key, Value>, p: nat, a: nat, b: nat)
    requires AllEncodable(m, p, a) && a <= b
    ensures AllEncodable(m, p, b)
  {
    hide Encodable;
    forall k | k in m
      ensures Encodable(m[k], p, b)
    {
      EncodableMore(m[k], p, a, b);
    }
  }

  /** The keys of an array decoded are `i` to `n`. */
  ghost predicate KeysFrom(m: map<Key, Value>, i: nat, n: nat) {
    forall k :: k in m <==> exists j: nat :: i <= j <= n && k == NumberKey(FromInt(j))
  }

  lemma AddKey(m: map<Key, Value>, i: nat, n: nat, v: Value)
    requires KeysFrom(m, i + 1, n) && i < n
    ensures KeysFrom(map[NumberKey(FromInt(i)) := v] + m, i, n)
  {
    var k0 := NumberKey(FromInt(i));
    var all := map[k0 := v] + m;
    forall k
      ensures k in all <==> exists j: nat :: i <= j <= n && k == NumberKey(FromInt(j))
    {
      if k in m {
        var j: nat :| i + 1 <= j <= n && k == NumberKey(FromInt(j));
      }
      if j: nat :| i <= j <= n && k == NumberKey(FromInt(j)) {
        assert j == i || k in m;
      }
    }
  }

  lemma TableEncodable(m: map<Key, Value>, p: nat, depth: nat)
    requires AllEncodable(m, p, depth) && (StringKeys(m) || exists n: nat :: n >= 1 && DenseKeys(m, n))
    ensures Encodable(Table(m), p, depth + 1)
  {
  }

  lemma {:induction false} MeaningEncodable(j: Json, p: nat)
    requires JsonOk(j, Relaxed) && NumbersFit(j, p)
    ensures Encodable(Meaning(j), p, Depth(j))
    decreases j, 1
  {
    hide ElementsMeaning, MembersMeaning, ElementsDepth, MembersDepth, AllEncodable, NumeralValue, ItemsMeaning,
         ElementsOk, MembersOk, ElementsFit, MembersFit;
    match j
    case JNumber(n) => ValueIsNormal(n);
    case JArray(es) =>
      hide Encodable;
      var n := ElementsEncodable(es, 1, p);
      DenseIs(ElementsMeaning(es, 1), n);
      TableEncodable(ElementsMeaning(es, 1), p, ElementsDepth(es));
    case JObject(ms) =>
      hide Encodable;
      MembersEncodable(ms, p);
      TableEncodable(MembersMeaning(ms), p, MembersDepth(ms));
    case _ =>
  }

  lemma ValueIsNormal(n: Numeral)
    ensures Normal(NumeralValue(n))
  {
  }

  lemma DenseIs(m: map<Key, Value>, n: nat)
    requires KeysFrom(m, 1, n)
    ensures DenseKeys(m, n)
  {
  }

  lemma {:induction false} ElementsEncodable(es: Elements, i: nat, p: nat) returns (n: nat)
    requires ElementsOk(es, Relaxed) && ElementsFit(es, p)
    ensures n >= i && KeysFrom(ElementsMeaning(es, i), i, n)
    ensures AllEncodable(ElementsMeaning(es, i), p, ElementsDepth(es))
    decreases es, 2
  {
    hide Meaning, JsonOk, NumbersFit, Depth, Encodable, FromInt;
    MeaningEncodable(es.value, p);
    match es
    case LastElement(_, _, _) => n := i;
    case MoreElements(_, _, _, rest) =>
      n := ElementsEncodable(rest, i + 1, p);
      AddKey(ElementsMeaning(rest, i + 1), i, n, Meaning(es.value));
      EncodableMore(Meaning(es.value), p, Depth(es.value), ElementsDepth(es));
      AllEncodableMore(ElementsMeaning(rest, i + 1), p, ElementsDepth(rest), ElementsDepth(es));
  }

  lemma {:induction false} MembersEncodable(ms: Members, p: nat)
    requires MembersOk(ms, Relaxed) && MembersFit(ms, p)
    ensures StringKeys(MembersMeaning(ms)) && AllEncodable(MembersMeaning(ms), p, MembersDepth(ms))
    decreases ms, 2
  {
    hide Meaning, JsonOk, NumbersFit, Depth, Encodable, ItemsMeaning, ItemsOk;
    MeaningEncodable(ms.value, p);
    match ms
    case LastMember(_, _, _, _, _, _) =>
    case MoreMembers(_, _, _, _, _, _, rest) =>
      MembersEncodable(rest, p);
      EncodableMore(Meaning(ms.value), p, Depth(ms.value), MembersDepth(ms));
      AllEncodableMore(MembersMeaning(rest), p, MembersDepth(rest), MembersDepth(ms));
  }

  /**
   * For every decoded text whose numbers fit the precision and whose nesting fits the encoder: each
   * Lua value that represents what was decoded is encoded, in whatever order its tables are visited,
   * and decoding that text, with either setting, gives the same value again.
   */
  lemma DecodedIsEncoded(text: bytes, max: nat, h: Heap, order: Order, cfg: EncodeConfig, v: LuaValue, g: Setting)
    requires Decode(text, max).Decoded? && SettingOk(g)
    requires HeapOk(h, order) && ConfigOk(cfg) && ValueOk(h, v)
    requires Represents(h, v, Meaning(Decode(text, max).document.value))
    requires NumbersFit(Decode(text, max).document.value, cfg.precision)
    requires Depth(Decode(text, max).document.value) <= cfg.maxDepth
    ensures var e := EncodeText(h, order, cfg, v);
            && e.Encoded?
            && DecodeAny(e.tree, max, g) == DecodedAny(Meaning(Decode(text, max).document.value))
  {
    hide NextToken, ParseValue, Meaning, JsonText, JsonOk, Represents, Plain, NestedWithin, EncodeText, DecodeAny,
         NumbersFit, Depth;
    var j := Decode(text, max).document.value;
    DocumentSound(text, max);
    hide Decode;
    MeaningEncodable(j, cfg.precision);
    NestedMore(Meaning(j), Depth(j), cfg.maxDepth);
    NestedMore(Meaning(j), Depth(j), max);
    DefaultRoundTrip(h, order, cfg, v, Meaning(j), max, g);
  }
}
