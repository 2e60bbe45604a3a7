/** The entries of decoded arrays and objects, one by one in the order of the text. */
module JsonMeaning {
  import opened Bytes
  import opened Decimals
  import opened JsonSyntax

  /** The values of an array, in order. */
  function ElementList(es: Elements): (vs: seq<Json>)
    ensures |vs| >= 1
    decreases es
  {
    match es
    case LastElement(_, v, _) => [v]
    case MoreElements(_, v, _, rest) => [v] + ElementList(rest)
  }

  /** The keys and values of an object, in order. */
  function MemberList(ms: Members): (kvs: seq<(Items, Json)>)
    ensures |kvs| >= 1
    decreases ms
  {
    match ms
    case LastMember(_, key, _, _, v, _) => [(key, v)]
    case MoreMembers(_, key, _, _, v, _, rest) => [(key, v)] + MemberList(rest)
  }

  function ElementKey(j: nat): Key {
    NumberKey(FromInt(j))
  }

  lemma ElementKeysDiffer(i: nat, j: nat)
    requires ElementKey(i) == ElementKey(j)
    ensures i == j
  {
    IntegersEmbed(i);
    IntegersEmbed(j);
  }

  ghost predicate IsElementKey(key: Key, lo: nat, hi: nat) {
    exists j: nat :: lo <= j < hi && key == ElementKey(j)
  }

  lemma ElementKeySplit(key: Key, lo: nat, hi: nat)
    requires lo < hi
    ensures IsElementKey(key, lo, hi) <==> key == ElementKey(lo) || IsElementKey(key, lo + 1, hi)
  {
    hide ElementKey;
  }

  /** The keys of `m` are the numbers from `i` on, with the meanings of `vs` under them in order. */
  ghost predicate Numbered(m: map<Key, Value>, vs: seq<Json>, i: nat) {
    && (forall key :: key in m <==> IsElementKey(key, i, i + |vs|))
    && (forall j: nat :: i <= j < i + |vs| ==> ElementKey(j) in m && m[ElementKey(j)] == Meaning(vs[j - i]))
  }

  lemma NumberOne(v: Json, i: nat)
    ensures Numbered(map[ElementKey(i) := Meaning(v)], [v], i)
  {
    hide ElementKey, Meaning;
    var m := map[ElementKey(i) := Meaning(v)];
    forall key: Key
      ensures key in m <==> IsElementKey(key, i, i + 1)
    {
      ElementKeySplit(key, i, i + 1);
    }
  }

  lemma NumberMore(m: map<Key, Value>, vs: seq<Json>, v: Json, i: nat)
    requires Numbered(m, vs, i + 1)
    ensures Numbered(map[ElementKey(i) := Meaning(v)] + m, [v] + vs, i)
  {
    hide ElementKey, Meaning, IsElementKey;
    var k0 := ElementKey(i);
    var all, list := map[k0 := Meaning(v)] + m, [v] + vs;
    forall key: Key
      ensures key in all <==> IsElementKey(key, i, i + |list|)
    {
      ElementKeySplit(key, i, i + |list|);
    }
    if k0 in m {
      NotLater(i, i + |list|);
    }
    forall j: nat | i <= j < i + |list|
      ensures ElementKey(j) in all && all[ElementKey(j)] == Meaning(list[j - i])
    {
      if j > i {
        assert list[j - i] == vs[j - (i + 1)];
      }
    }
  }

  lemma NotLater(i: nat, hi: nat)
    ensures !IsElementKey(ElementKey(i), i + 1, hi)
  {
    if IsElementKey(ElementKey(i), i + 1, hi) {
      var j: nat :| i + 1 <= j < hi && ElementKey(i) == ElementKey(j);
      ElementKeysDiffer(i, j);
    }
  }

  /** An array means a table of its values, numbered from `i`, and no other keys. */
  lemma {:induction false} ElementsAre(es: Elements, i: nat)
    ensures Numbered(ElementsMeaning(es, i), ElementList(es), i)
    decreases es
  {
    hide Meaning, Numbered;
    NumberOne(es.value, i);
    if es.MoreElements? {
      ElementsAre(es.rest, i + 1);
      NumberMore(ElementsMeaning(es.rest, i + 1), ElementList(es.rest), es.value, i);
    } else {
    }
  }

  /** The member at `k` has the name `name`. */
  ghost predicate NamedAt(ms: Members, k: nat, name: bytes) {
    k < |MemberList(ms)| && ItemsMeaning(MemberList(ms)[k].0) == name
  }

  /** It is the last one of that name. */
  ghost predicate LastNamedAt(ms: Members, k: nat, name: bytes) {
    NamedAt(ms, k, name) && forall j :: k < j < |MemberList(ms)| ==> !NamedAt(ms, j, name)
  }

  lemma NamedInRest(ms: Members, k: nat, name: bytes)
    requires ms.MoreMembers?
    ensures k > 0 ==> (NamedAt(ms, k, name) <==> NamedAt(ms.rest, k - 1, name))
    ensures k > 0 && k < |MemberList(ms)| ==> MemberList(ms)[k] == MemberList(ms.rest)[k - 1]
    ensures |MemberList(ms)| == |MemberList(ms.rest)| + 1
  {
  }

  /** An object means a table of its names, and a name given several times has its last value. */
  lemma {:induction false} MembersAre(ms: Members, name: bytes)
    ensures StringKey(name) in MembersMeaning(ms) <==> exists k: nat :: NamedAt(ms, k, name)
    ensures forall k: nat :: LastNamedAt(ms, k, name) ==>
              StringKey(name) in MembersMeaning(ms) &&
              MembersMeaning(ms)[StringKey(name)] == Meaning(MemberList(ms)[k].1)
    decreases ms
  {
    hide ItemsMeaning, Meaning;
    var m := MembersMeaning(ms);
    if ms.MoreMembers? {
      MembersAre(ms.rest, name);
      hide NamedAt;
      forall k: nat
        ensures k > 0 ==> (NamedAt(ms, k, name) <==> NamedAt(ms.rest, k - 1, name))
      {
        NamedInRest(ms, k, name);
      }
      FirstNamed(ms, name);
      if StringKey(name) in m && StringKey(name) in MembersMeaning(ms.rest) {
        var h: nat :| NamedAt(ms.rest, h, name);
        assert NamedAt(ms, h + 1, name);
      }
      if k: nat :| NamedAt(ms, k, name) {
        assert k > 0 ==> NamedAt(ms.rest, k - 1, name);
      }
      forall k: nat | LastNamedAt(ms, k, name)
        ensures StringKey(name) in m && m[StringKey(name)] == Meaning(MemberList(ms)[k].1)
      {
        LastInRest(ms, k, name);
      }
    } else {
      OnlyMember(ms, name);
    }
  }

  lemma FirstNamed(ms: Members, name: bytes)
    ensures NamedAt(ms, 0, name) <==> ItemsMeaning(ms.key) == name
  {
  }

  lemma OnlyMember(ms: Members, name: bytes)
    requires ms.LastMember?
    ensures forall k: nat :: NamedAt(ms, k, name) <==> k == 0 && ItemsMeaning(ms.key) == name
    ensures NamedAt(ms, 0, name) <==> ItemsMeaning(ms.key) == name
    ensures MemberList(ms) == [(ms.key, ms.value)]
  {
  }

  lemma LastInRest(ms: Members, k: nat, name: bytes)
    requires ms.MoreMembers? && LastNamedAt(ms, k, name)
    ensures k > 0 ==> LastNamedAt(ms.rest, k - 1, name) && MemberList(ms)[k] == MemberList(ms.rest)[k - 1]
    ensures k == 0 ==> (forall j: nat :: !NamedAt(ms.rest, j, name)) && MemberList(ms)[0].1 == ms.value
    ensures k == 0 ==> ItemsMeaning(ms.key) == name
  {
    hide ItemsMeaning;
    NamedInRest(ms, k, name);
    forall j: nat | NamedAt(ms.rest, j, name)
      ensures NamedAt(ms, j + 1, name) && j + 1 < |MemberList(ms)|
    {
      NamedInRest(ms, j + 1, name);
    }
  }

  /** An object has no other keys. */
  lemma {:induction false} MembersAreNamed(ms: Members)
    ensures forall key :: key in MembersMeaning(ms) ==> key.StringKey?
    decreases ms
  {
    hide ItemsMeaning, Meaning;
    if ms.MoreMembers? {
      MembersAreNamed(ms.rest);
    } else {
    }
  }
}
