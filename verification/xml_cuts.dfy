/** Where a document cut short ends in front of a character that the parser looks at all the same. */
module XmlCuts {
  import opened XmlText

  /** The first `m` characters of the attributes of a tag end behind an equals sign. */
  predicate EqualsCut(atts: seq<Attribute>, m: int) {
    atts != [] && (m == |atts[0].style.blank| + |atts[0].name| + |atts[0].style.before| + 1 || EqualsCut(atts[1..], m - |AttributeText(atts[0])|))
  }

  /**
   * The first `m` characters behind the name of a tag end behind an equals sign, or behind the `<` of the next tag with
   * nothing but white space, and some, between the two.
   */
  predicate NameCut(t: Token, m: int)
    requires !t.Close?
  {
    || EqualsCut(t.tag.atts, m)
    || (t.Open? && t.content.Chars? && t.content.text != "" && AllWhite(t.content.text) && m == |AttributesText(t.tag.atts)| + |t.tag.end| + |t.content.text| + 2)
  }

  /** The first `m` characters of a tag and what follows it end there, or behind the colon of the prefix. */
  predicate TokenCut(t: Token, m: int) {
    !t.Close? && ((t.tag.prefix != "" && m == |t.tag.prefix| + 2) || NameCut(t, m - 1 - |FullName(t.tag)|))
  }

  /** The first `m` characters of a sequence of tags end there. */
  predicate EdgeCut(ts: seq<Token>, m: int) {
    ts != [] && (TokenCut(ts[0], m) || EdgeCut(ts[1..], m - |TokenText(ts[0])|))
  }

  lemma {:induction false} EqualsLow(atts: seq<Attribute>, m: int)
    requires m <= 0
    ensures !EqualsCut(atts, m)
    decreases |atts|
  {
    if atts != [] {
      EqualsLow(atts[1..], m - |AttributeText(atts[0])|);
    }
  }

  lemma {:induction false} EqualsHigh(atts: seq<Attribute>, m: int)
    requires |AttributesText(atts)| <= m
    ensures !EqualsCut(atts, m)
    decreases |atts|
  {
    if atts != [] {
      EqualsHigh(atts[1..], m - |AttributeText(atts[0])|);
    }
  }

  lemma TokenLow(t: Token, m: int)
    requires m <= 1
    ensures !TokenCut(t, m)
  {
    if !t.Close? {
      EqualsLow(t.tag.atts, m - 1 - |FullName(t.tag)|);
    }
  }

  lemma {:induction false} EdgeLow(ts: seq<Token>, m: int)
    requires m <= 1
    ensures !EdgeCut(ts, m)
    decreases |ts|
  {
    if ts != [] {
      TokenLow(ts[0], m);
      EdgeLow(ts[1..], m - |TokenText(ts[0])|);
    }
  }

  lemma TokenSize(t: Token)
    ensures |TokenText(t)| >= 2
    ensures t.Open? ==> |TokenText(t)| == |FullName(t.tag)| + |AttributesText(t.tag.atts)| + |t.tag.end| + |ContentText(t.content)| + |NotesText(t.notes)| + 2
    ensures t.Self? ==> |TokenText(t)| == |FullName(t.tag)| + |AttributesText(t.tag.atts)| + |t.tag.end| + |GapText(t.gap)| + 3
    ensures t.Close? ==> |TokenText(t)| == |t.name| + |GapText(t.gap)| + 3
  {
    hide FullName, AttributesText, ContentText, NotesText, GapText;
  }

  lemma TokenHigh(t: Token, m: int)
    requires |TokenText(t)| + (if t.Open? then 2 else 0) <= m
    ensures !TokenCut(t, m)
  {
    TokenSize(t);
    hide TokenText;
    if !t.Close? {
      assert |FullName(t.tag)| >= if t.tag.prefix == "" then 0 else |t.tag.prefix| + 1;
      EqualsHigh(t.tag.atts, m - 1 - |FullName(t.tag)|);
    }
  }

  lemma TokensRest(ts: seq<Token>)
    requires TokensOk(ts) && ts != []
    ensures TokensOk(ts[1..]) && (ts[0].Open? ==> ts[1..] != [])
  {
    hide TokenOk;
  }

  lemma TokensSize(ts: seq<Token>)
    requires ts != []
    ensures |TokensText(ts)| == |TokenText(ts[0])| + |TokensText(ts[1..])| >= 2
  {
    TokenSize(ts[0]);
    hide TokenText;
  }

  /** A whole document does not end so. */
  lemma {:induction false} EdgeHigh(ts: seq<Token>, m: int)
    requires TokensOk(ts) && |TokensText(ts)| <= m
    ensures !EdgeCut(ts, m)
    decreases |ts|
  {
    hide TokenText, TokenCut, TokensOk, TokensText;
    if ts != [] {
      TokensRest(ts);
      TokensSize(ts);
      if ts[1..] != [] {
        TokensSize(ts[1..]);
      }
      TokenHigh(ts[0], m);
      EdgeHigh(ts[1..], m - |TokenText(ts[0])|);
    }
  }
}
