/**
 * What holds of the decoder with the setting off, for any setting of decode_invalid_numbers: which
 * texts it accepts, and that it reads back what the encoder wrote.
 */
module JsonLenient {
  import opened Bytes
  import opened Decimals
  import opened JsonEncoder
  import opened JsonGrammar
  import opened JsonLexer
  import opened JsonParser
  import opened JsonReader
  import opened JsonRoundTrip
  import opened JsonSyntax
  import opened LuaHeap

  /**
   * For every text, and whatever strtod makes of odd numbers: it is decoded with the setting off
   * exactly if it is decoded with the setting on and no odd number is ahead in it, and to the same
   * value. Where no odd number is ahead the errors are the same, too.
   */
  lemma SettingsAgree(text: bytes, max: nat, g: Setting)
    requires SettingOk(g)
    ensures var off, on := Decode(text, max), DecodeAny(text, max, g);
            var odd := OddAhead(CString(text), 0);
            && (g.On? ==> (off.Decoded? <==> on.DecodedAny? && !odd))
            && (off.Decoded? ==> on == DecodedAny(Meaning(off.document.value)))
            && (off.Rejected? && !odd ==> on == RejectedAny(off.error))
  {
    hide Decode, DecodeAny, OddAhead, Meaning;
    OffIsDecode(text, max);
    OutcomesAgree(text, max, g);
  }

  ghost predicate InGrammar(text: bytes, max: nat, d: Document) {
    TextOf(text, d) && DocumentOk(d, Relaxed) && Depth(d.value) <= max
  }

  /**
   * By default, too, a text with no odd number ahead is decoded exactly if it is in the grammar, to
   * what it means; and a text of the grammar has no odd number ahead.
   */
  lemma DefaultIffGrammar(text: bytes, max: nat, g: Setting, t: Value)
    requires SettingOk(g) && g.On?
    ensures DecodeAny(text, max, g) == DecodedAny(t) && !OddAhead(CString(text), 0) <==>
            !LooksWide(text) && exists d :: InGrammar(text, max, d) && Meaning(d.value) == t
  {
    hide Decode, DecodeAny, Meaning, TextOf, DocumentOk, Depth, OddAhead;
    SettingsAgree(text, max, g);
    if Decode(text, max).Decoded? {
      DecodeIffGrammar(text, max, Decode(text, max).document);
      assert InGrammar(text, max, Decode(text, max).document);
    }
    forall d | !LooksWide(text) && InGrammar(text, max, d)
      ensures Decode(text, max) == Decoded(d)
    {
      DecodeIffGrammar(text, max, d);
    }
  }

  /** The round trip for every setting. */
  lemma DefaultRoundTrip(h: Heap, order: Order, cfg: EncodeConfig, v: LuaValue, t: Value, max: nat, g: Setting)
    requires HeapOk(h, order) && ConfigOk(cfg) && ValueOk(h, v) && SettingOk(g)
    requires Represents(h, v, t) && Plain(t, cfg.precision)
    requires NestedWithin(t, cfg.maxDepth) && NestedWithin(t, max)
    ensures var e := EncodeText(h, order, cfg, v);
            e.Encoded? && DecodeAny(e.tree, max, g) == DecodedAny(t)
  {
    hide Represents, Plain, NestedWithin, Decode, DecodeAny, EncodeText, Meaning, OddAhead;
    RoundTrip(h, order, cfg, v, t, max);
    SettingsAgree(EncodeText(h, order, cfg, v).tree, max, g);
  }

  /** Whatever is encoded is decoded with every setting, to the value its tree means. */
  lemma EncodedIsDecodedByDefault(h: Heap, order: Order, cfg: EncodeConfig, v: LuaValue, max: nat, g: Setting)
    requires HeapOk(h, order) && ConfigOk(cfg) && ValueOk(h, v) && SettingOk(g)
    requires EncodeText(h, order, cfg, v).Encoded? && Depth(EncodeData(h, order, cfg, 0, v).tree) <= max
    ensures DecodeAny(EncodeText(h, order, cfg, v).tree, max, g)
            == DecodedAny(Meaning(EncodeData(h, order, cfg, 0, v).tree))
  {
    hide Decode, DecodeAny, EncodeText, EncodeData, Meaning, JsonText, JsonOk, Depth, OddAhead;
    EncodedIsDecoded(h, order, cfg, v, max);
    SettingsAgree(EncodeText(h, order, cfg, v).tree, max, g);
  }

  /** The text "01" is decoded by default, as strtod reads it, and rejected with the setting off. */
  lemma LeadingZero(g: Setting)
    requires SettingOk(g) && g.On? && g.reach([48, 49], 0) == 2
    ensures OddAhead(CString([48, 49]), 0)
    ensures DecodeAny([48, 49], 0, g) == DecodedAny(OddNumber([48, 49]))
    ensures Decode([48, 49], 0).Rejected?
  {
    var text := [48, 49];
    assert CString(text) == text by {
      CStringOfNulFree(text);
    }
    assert SkipWhitespace(text, 0) == 0;
    assert OddAt(text, 0);
    assert text[0..2] == text;
    assert NextAny(text, 0, g) == AnyLexed(Odd(text), 0, 2);
    assert SkipWhitespace(text, 2) == 2;
    SettingsAgree(text, 0, g);
  }
}
