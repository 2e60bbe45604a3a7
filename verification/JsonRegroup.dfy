/**
 * The two ways to group the \u escapes of a string: each by itself, as section 7 of RFC 8259 has
 * them, or surrogate pairs as one character, as the decoder reads them. The text stays the same.
 */
module JsonRegroup {
  import opened Bytes
  import opened JsonSyntax
  import opened Utf8

  datatype Grouping = Singly | Pairwise

  /** A high or low surrogate, escaped by itself. */
  predicate LoneSurrogate(c: StringItem) {
    c.Unit? && IsSurrogate(DecodeHex4(c.h, 0))
  }

  function Split(cs: Items): Items {
    if |cs| == 0 then []
    else (match cs[0]
          case Pair(high, low) => [Unit(high), Unit(low)]
          case c => [c]) + Split(cs[1..])
  }

  /** A surrogate is taken together with an escape right behind it, whatever that is. */
  function Merge(cs: Items): Items {
    if |cs| == 0 then []
    else if |cs| >= 2 && LoneSurrogate(cs[0]) && cs[1].Unit? then [Pair(cs[0].h, cs[1].h)] + Merge(cs[2..])
    else [cs[0]] + Merge(cs[1..])
  }

  function RegroupItems(cs: Items, how: Grouping): Items {
    if how == Singly then Split(cs) else Merge(cs)
  }

  function Regroup(j: Json, how: Grouping): Json
    decreases j
  {
    match j
    case JString(items) => JString(RegroupItems(items, how))
    case JArray(es) => JArray(RegroupElements(es, how))
    case JObject(ms) => JObject(RegroupMembers(ms, how))
    case _ => j
  }

  function RegroupElements(es: Elements, how: Grouping): Elements
    decreases es
  {
    match es
    case LastElement(w1, v, w2) => LastElement(w1, Regroup(v, how), w2)
    case MoreElements(w1, v, w2, rest) => MoreElements(w1, Regroup(v, how), w2, RegroupElements(rest, how))
  }

  function RegroupMembers(ms: Members, how: Grouping): Members
    decreases ms
  {
    match ms
    case LastMember(w1, key, w2, w3, v, w4) =>
      LastMember(w1, RegroupItems(key, how), w2, w3, Regroup(v, how), w4)
    case MoreMembers(w1, key, w2, w3, v, w4, rest) =>
      MoreMembers(w1, RegroupItems(key, how), w2, w3, Regroup(v, how), w4, RegroupMembers(rest, how))
  }

  // ----- the text stays the same -----

  lemma ItemsTextStep(c: StringItem, cs: Items)
    ensures ItemsText([c] + cs) == ItemText(c) + ItemsText(cs)
  {
    hide ItemText;
    assert ([c] + cs)[1..] == cs;
  }

  lemma PairText(high: bytes, low: bytes)
    ensures ItemText(Pair(high, low)) == ItemText(Unit(high)) + ItemText(Unit(low))
  {
  }

  lemma PairThen(high: bytes, low: bytes, cs: Items)
    ensures ItemsText([Unit(high), Unit(low)] + cs) == ItemText(Pair(high, low)) + ItemsText(cs)
  {
    hide ItemText, ItemsText;
    assert [Unit(high), Unit(low)] + cs == [Unit(high)] + ([Unit(low)] + cs);
    ItemsTextStep(Unit(high), [Unit(low)] + cs);
    ItemsTextStep(Unit(low), cs);
    PairText(high, low);
    var a, b, rest := ItemText(Unit(high)), ItemText(Unit(low)), ItemsText(cs);
    assert a + (b + rest) == a + b + rest;
  }

  lemma {:induction false} SplitText(cs: Items)
    ensures ItemsText(Split(cs)) == ItemsText(cs)
  {
    hide ItemText;
    if |cs| == 0 {
    } else {
      SplitText(cs[1..]);
      match cs[0]
      case Pair(high, low) => PairThen(high, low, Split(cs[1..]));
      case c => ItemsTextStep(c, Split(cs[1..]));
    }
  }

  lemma {:induction false} MergeText(cs: Items)
    ensures ItemsText(Merge(cs)) == ItemsText(cs)
  {
    hide ItemText;
    if |cs| == 0 {
    } else if |cs| >= 2 && LoneSurrogate(cs[0]) && cs[1].Unit? {
      MergeText(cs[2..]);
      assert cs == [Unit(cs[0].h), Unit(cs[1].h)] + cs[2..];
      PairThen(cs[0].h, cs[1].h, cs[2..]);
      ItemsTextStep(Pair(cs[0].h, cs[1].h), Merge(cs[2..]));
    } else {
      MergeText(cs[1..]);
      ItemsTextStep(cs[0], Merge(cs[1..]));
    }
  }

  lemma ItemsTextKept(cs: Items, how: Grouping)
    ensures ItemsText(RegroupItems(cs, how)) == ItemsText(cs)
  {
    hide ItemsText, Split, Merge;
    if how == Singly {
      SplitText(cs);
    } else {
      MergeText(cs);
    }
  }

  lemma {:induction false} TextKept(j: Json, how: Grouping)
    ensures JsonText(Regroup(j, how)) == JsonText(j) && Depth(Regroup(j, how)) == Depth(j)
    decreases j
  {
    hide ItemsText, RegroupItems;
    match j
    case JString(items) => ItemsTextKept(items, how);
    case JArray(es) => ElementsTextKept(es, how);
    case JObject(ms) => MembersTextKept(ms, how);
    case _ =>
  }

  lemma {:induction false} ElementsTextKept(es: Elements, how: Grouping)
    ensures ElementsText(RegroupElements(es, how)) == ElementsText(es)
    ensures ElementsDepth(RegroupElements(es, how)) == ElementsDepth(es)
    decreases es
  {
    hide JsonText, Regroup, Depth;
    TextKept(es.value, how);
    match es
    case LastElement(_, _, _) =>
    case MoreElements(_, _, _, rest) => ElementsTextKept(rest, how);
  }

  lemma {:induction false} MembersTextKept(ms: Members, how: Grouping)
    ensures MembersText(RegroupMembers(ms, how)) == MembersText(ms)
    ensures MembersDepth(RegroupMembers(ms, how)) == MembersDepth(ms)
    decreases ms
  {
    hide JsonText, Regroup, Depth, ItemsText, RegroupItems;
    ItemsTextKept(ms.key, how);
    TextKept(ms.value, how);
    match ms
    case LastMember(_, _, _, _, _, _) =>
    case MoreMembers(_, _, _, _, _, _, rest) => MembersTextKept(rest, how);
  }

  // ----- trees of the decoder, with all escapes by themselves -----

  /** The grammar of split trees. */
  function Singled(g: Grammar): Grammar
  {
    if Tight(g) then Rfc else Loose
  }

  lemma ItemsOkConcat(a: Items, b: Items, g: Grammar)
    requires ItemsOk(a, g) && ItemsOk(b, g)
    ensures ItemsOk(a + b, g)
  {
  }

  lemma HeadOk(c: StringItem, g: Grammar)
    requires PairsUp(g) && ItemOk(c, g)
    ensures match c
            case Pair(high, low) => ItemsOk([Unit(high), Unit(low)], Singled(g))
            case _ => ItemsOk([c], Singled(g))
  {
  }

  lemma {:induction false} SplitOk(cs: Items, g: Grammar)
    requires PairsUp(g) && ItemsOk(cs, g)
    ensures ItemsOk(Split(cs), Singled(g))
    decreases |cs|
  {
    hide ItemOk;
    if |cs| == 0 {
    } else {
      assert ItemOk(cs[0], g);
      HeadOk(cs[0], g);
      SplitOk(cs[1..], g);
      match cs[0]
      case Pair(high, low) => ItemsOkConcat([Unit(high), Unit(low)], Split(cs[1..]), Singled(g));
      case c => ItemsOkConcat([c], Split(cs[1..]), Singled(g));
    }
  }

  lemma MergeTwo(high: bytes, low: bytes, cs: Items)
    requires IsSurrogate(DecodeHex4(high, 0))
    ensures Merge([Unit(high), Unit(low)] + cs) == [Pair(high, low)] + Merge(cs)
  {
    hide DecodeHex4;
    var all := [Unit(high), Unit(low)] + cs;
    assert all[2..] == cs;
  }

  lemma MergeOne(c: StringItem, cs: Items)
    requires !LoneSurrogate(c)
    ensures Merge([c] + cs) == [c] + Merge(cs)
  {
    assert ([c] + cs)[1..] == cs;
  }

  lemma {:induction false} MergeOfSplit(cs: Items, g: Grammar)
    requires PairsUp(g) && ItemsOk(cs, g)
    ensures Merge(Split(cs)) == cs
    decreases |cs|
  {
    hide Merge, DecodeHex4;
    if |cs| == 0 {
      NothingToMerge();
    } else {
      assert ItemOk(cs[0], g);
      MergeOfSplit(cs[1..], g);
      assert cs == [cs[0]] + cs[1..];
      match cs[0]
      case Pair(high, low) => MergeTwo(high, low, Split(cs[1..]));
      case c => MergeOne(c, Split(cs[1..]));
    }
  }

  lemma NothingToMerge()
    ensures Merge([]) == []
  {
  }

  /** What the decoder reads is, escape by escape, a tree whose pairs can be put together again. */
  lemma {:induction false} RegroupOk(j: Json, g: Grammar)
    requires PairsUp(g) && JsonOk(j, g)
    ensures JsonOk(Regroup(j, Singly), Singled(g))
    ensures Regroup(Regroup(j, Singly), Pairwise) == j
    decreases j
  {
    hide ItemsOk, Split, Merge;
    match j
    case JString(items) => SplitOk(items, g); MergeOfSplit(items, g);
    case JArray(es) => RegroupElementsOk(es, g);
    case JObject(ms) => RegroupMembersOk(ms, g);
    case _ =>
  }

  lemma {:induction false} RegroupElementsOk(es: Elements, g: Grammar)
    requires PairsUp(g) && ElementsOk(es, g)
    ensures ElementsOk(RegroupElements(es, Singly), Singled(g))
    ensures RegroupElements(RegroupElements(es, Singly), Pairwise) == es
    decreases es
  {
    hide JsonOk, Regroup;
    RegroupOk(es.value, g);
    match es
    case LastElement(_, _, _) =>
    case MoreElements(_, _, _, rest) => RegroupElementsOk(rest, g);
  }

  lemma {:induction false} RegroupMembersOk(ms: Members, g: Grammar)
    requires PairsUp(g) && MembersOk(ms, g)
    ensures MembersOk(RegroupMembers(ms, Singly), Singled(g))
    ensures RegroupMembers(RegroupMembers(ms, Singly), Pairwise) == ms
    decreases ms
  {
    hide JsonOk, Regroup, ItemsOk, Split, Merge;
    SplitOk(ms.key, g);
    MergeOfSplit(ms.key, g);
    RegroupOk(ms.value, g);
    match ms
    case LastMember(_, _, _, _, _, _) =>
    case MoreMembers(_, _, _, _, _, _, rest) => RegroupMembersOk(rest, g);
  }
}
