/** Documents: elements with attributes, text in the leaves, and their printed form. */
module XmlText {
  predicate IsWhite(c: char) {
    c == ' ' || c == '\t' || c == '\r' || c == '\n'
  }

  predicate IsNameChar(c: char) {
    'a' <= c <= 'z' || 'A' <= c <= 'Z' || '0' <= c <= '9' || c == '_' || c == '-' || c == '.'
  }

  predicate IsName(s: string) {
    s != "" && forall i :: 0 <= i < |s| ==> IsNameChar(s[i])
  }

  predicate AllWhite(s: string) {
    forall i :: 0 <= i < |s| ==> s[i] == ' ' || s[i] == '\t' || s[i] == '\r' || s[i] == '\n'
  }

  // ----- tags

  /** How an attribute is written: the white space in front of it and around the equals sign, and the quotes. */
  datatype Style = Style(blank: string, before: string, after: string, quote: char)

  datatype Attribute = Attribute(name: string, value: string, style: Style)

  const Usual: Style := Style(" ", "", "", '"')

  predicate StyleOk(s: Style) {
    s.blank != "" && AllWhite(s.blank) && AllWhite(s.before) && AllWhite(s.after) && (s.quote == '"' || s.quote == '\'')
  }

  predicate AttributeOk(a: Attribute) {
    IsName(a.name) && StyleOk(a.style) && a.style.quote !in a.value
  }

  predicate AttributesOk(atts: seq<Attribute>) {
    forall i :: 0 <= i < |atts| ==> AttributeOk(atts[i])
  }

  /** A tag: an optional namespace prefix, a name, attributes, and white space in front of its end. */
  datatype Tag = Tag(prefix: string, name: string, atts: seq<Attribute>, end: string)

  predicate TagOk(t: Tag) {
    (t.prefix == "" || IsName(t.prefix)) && IsName(t.name) && AttributesOk(t.atts) && AllWhite(t.end)
  }

  function FullName(t: Tag): (s: string) {
    if t.prefix == "" then t.name else t.prefix + ":" + t.name
  }

  /** An attribute from its name on. */
  function BareText(a: Attribute): (s: string) {
    a.name + (a.style.before + ("=" + (a.style.after + ([a.style.quote] + (a.value + [a.style.quote])))))
  }

  function AttributeText(a: Attribute): (s: string) {
    a.style.blank + BareText(a)
  }

  function AttributesText(atts: seq<Attribute>): (s: string) {
    if atts == [] then "" else AttributeText(atts[0]) + AttributesText(atts[1..])
  }

  function OpenText(t: Tag): (s: string) {
    "<" + FullName(t) + AttributesText(t.atts) + t.end + ">"
  }

  function SelfText(t: Tag): (s: string) {
    "<" + FullName(t) + AttributesText(t.atts) + t.end + "/>"
  }

  function CloseText(name: string): (s: string) {
    "</" + name + ">"
  }

  // ----- what stands between tags

  predicate MarkAt(s: string, i: nat, mark: string) {
    i + |mark| <= |s| && s[i..i + |mark|] == mark
  }

  /** The first place where the mark stands in `s + mark` is behind `s`. */
  predicate Unbroken(s: string, mark: string) {
    forall i :: 0 <= i < |s| ==> !MarkAt(s + mark, i, mark)
  }

  /** A comment and the text behind it. */
  datatype Note = Note(comment: string, text: string)

  /** Text with comments between its parts. */
  datatype Gap = Gap(text: string, notes: seq<Note>)

  predicate NotesOk(ns: seq<Note>) {
    forall i :: 0 <= i < |ns| ==> Unbroken(ns[i].comment, "-->") && '<' !in ns[i].text
  }

  const NoGap: Gap := Gap("", [])

  predicate GapOk(g: Gap) {
    '<' !in g.text && NotesOk(g.notes)
  }

  function CommentText(comment: string): (s: string) {
    "<!--" + (comment + "-->")
  }

  function NotesText(ns: seq<Note>): (s: string) {
    if ns == [] then "" else CommentText(ns[0].comment) + (ns[0].text + NotesText(ns[1..]))
  }

  function GapText(g: Gap): (s: string) {
    g.text + NotesText(g.notes)
  }

  /** What an element begins with: text, or a CDATA section behind white space and in front of text that is passed over. */
  datatype Content = Chars(text: string) | Cdata(before: string, body: string, after: string)

  predicate ContentOk(c: Content) {
    match c
    case Chars(text) => '<' !in text
    case Cdata(before, body, after) => AllWhite(before) && Unbroken(body, "]]>") && '<' !in after
  }

  function ContentText(c: Content): (s: string) {
    match c
    case Chars(text) => text
    case Cdata(before, body, after) => before + ("<![CDATA[" + (body + ("]]>" + after)))
  }

  // ----- trees

  /** An element with content and comments behind it, an element with others inside it, or an element closed in its own tag. */
  datatype Tree = Leaf(tag: Tag, content: Content, notes: seq<Note>) | Node(tag: Tag, kids: Forest) | Single(tag: Tag)
  datatype Forest = Nil(gap: Gap) | Cons(gap: Gap, head: Tree, tail: Forest)

  predicate TreeOk(t: Tree) {
    match t
    case Leaf(tag, content, notes) => TagOk(tag) && ContentOk(content) && NotesOk(notes)
    case Node(tag, kids) => TagOk(tag) && kids.Cons? && ForestOk(kids)
    case Single(tag) => TagOk(tag)
  }

  predicate ForestOk(f: Forest) {
    match f
    case Nil(gap) => GapOk(gap)
    case Cons(gap, head, tail) => GapOk(gap) && TreeOk(head) && ForestOk(tail)
  }

  function TreeText(t: Tree): (s: string) {
    match t
    case Leaf(tag, content, notes) => OpenText(tag) + ContentText(content) + NotesText(notes) + CloseText(FullName(tag))
    case Node(tag, kids) => OpenText(tag) + ForestText(kids) + CloseText(FullName(tag))
    case Single(tag) => SelfText(tag)
  }

  function ForestText(f: Forest): (s: string) {
    match f
    case Nil(gap) => GapText(gap)
    case Cons(gap, head, tail) => GapText(gap) + TreeText(head) + ForestText(tail)
  }

  // ----- events

  datatype Event = Start(name: string) | Att(name: string, value: string) | Data(text: string) | End(name: string)

  function AttributeEvents(atts: seq<Attribute>): (es: seq<Event>) {
    if atts == [] then [] else [Att(atts[0].name, atts[0].value)] + AttributeEvents(atts[1..])
  }

  function TagEvents(t: Tag): (es: seq<Event>) {
    [Start(t.name)] + AttributeEvents(t.atts)
  }

  /** What is reported of the content of an element: text only if a closing tag follows it at once. */
  function Shown(c: Content, closes: bool): (s: string) {
    match c
    case Chars(text) => if closes then text else ""
    case Cdata(_, body, _) => body
  }

  function ContentEvents(c: Content, closes: bool): (es: seq<Event>) {
    if Shown(c, closes) == "" then [] else [Data(Shown(c, closes))]
  }

  /** The events of a tree in document order.  An element closed in its own tag has no end event. */
  function TreeEvents(t: Tree): (es: seq<Event>) {
    match t
    case Leaf(tag, content, notes) => TagEvents(tag) + ContentEvents(content, notes == []) + [End(FullName(tag))]
    case Node(tag, kids) => TagEvents(tag) + ForestEvents(kids) + [End(FullName(tag))]
    case Single(tag) => TagEvents(tag)
  }

  function ForestEvents(f: Forest): (es: seq<Event>) {
    match f
    case Nil(_) => []
    case Cons(_, head, tail) => TreeEvents(head) + ForestEvents(tail)
  }

  // ----- tokens

  /** An opening tag with the content behind it, a tag closed in itself, or a closing tag; each with what stands behind it. */
  datatype Token = Open(tag: Tag, content: Content, notes: seq<Note>) | Self(tag: Tag, gap: Gap) | Close(name: string, gap: Gap)

  predicate NameOk(s: string) {
    s != "" && '>' !in s
  }

  predicate TokenOk(t: Token) {
    match t
    case Open(tag, content, notes) => TagOk(tag) && ContentOk(content) && NotesOk(notes)
    case Self(tag, gap) => TagOk(tag) && GapOk(gap)
    case Close(name, gap) => NameOk(name) && GapOk(gap)
  }

  predicate TokensOk(ts: seq<Token>) {
    && (forall i :: 0 <= i < |ts| ==> TokenOk(ts[i]))
    && (ts != [] ==> ts[|ts| - 1].Close? || ts[|ts| - 1].Self?)
  }

  predicate CdataFree(ts: seq<Token>) {
    forall i :: 0 <= i < |ts| ==> ts[i].Open? ==> ts[i].content.Chars?
  }

  function TokenText(t: Token): (s: string) {
    match t
    case Open(tag, content, notes) => OpenText(tag) + ContentText(content) + NotesText(notes)
    case Self(tag, gap) => SelfText(tag) + GapText(gap)
    case Close(name, gap) => CloseText(name) + GapText(gap)
  }

  function TokensText(ts: seq<Token>): (s: string) {
    if ts == [] then "" else TokenText(ts[0]) + TokensText(ts[1..])
  }

  function TokenEvents(t: Token, closes: bool): (es: seq<Event>) {
    match t
    case Open(tag, content, notes) => TagEvents(tag) + ContentEvents(content, closes && notes == [])
    case Self(tag, _) => TagEvents(tag)
    case Close(name, _) => [End(name)]
  }

  function TokensEvents(ts: seq<Token>): (es: seq<Event>) {
    if ts == [] then [] else TokenEvents(ts[0], |ts| > 1 && ts[1].Close?) + TokensEvents(ts[1..])
  }

  /** The tokens of a tree followed by `after`. */
  function TreeTokens(t: Tree, after: Gap): (ts: seq<Token>) {
    match t
    case Leaf(tag, content, notes) => [Open(tag, content, notes), Close(FullName(tag), after)]
    case Node(tag, kids) => [Open(tag, Chars(kids.gap.text), kids.gap.notes)] + ForestTokens(kids) + [Close(FullName(tag), after)]
    case Single(tag) => [Self(tag, after)]
  }

  /** The tokens of a forest behind its first gap. */
  function ForestTokens(f: Forest): (ts: seq<Token>) {
    match f
    case Nil(_) => []
    case Cons(_, head, tail) => TreeTokens(head, tail.gap) + ForestTokens(tail)
  }

  // ----- trees and tokens

  lemma {:induction false} TextConcat(a: seq<Token>, b: seq<Token>)
    ensures TokensText(a + b) == TokensText(a) + TokensText(b)
  {
    if a == [] {
      assert a + b == b;
    } else {
      assert (a + b)[1..] == a[1..] + b;
      TextConcat(a[1..], b);
    }
  }

  lemma TextNone()
    ensures TokensText([]) == ""
  {
  }

  lemma TextOne(t: Token)
    ensures TokensText([t]) == TokenText(t)
  {
    assert [t][1..] == [];
  }

  lemma {:induction false} TreeTokensText(t: Tree, after: Gap)
    ensures TokensText(TreeTokens(t, after)) == TreeText(t) + GapText(after)
    decreases t, 1
  {
    hide OpenText, CloseText, SelfText, FullName, ContentText, NotesText;
    match t
    case Leaf(tag, content, notes) =>
      var a, b := Open(tag, content, notes), Close(FullName(tag), after);
      TextConcat([a], [b]);
      TextOne(a);
      TextOne(b);
      assert [a] + [b] == [a, b];
      hide GapText;
      assert OpenText(tag) + ContentText(content) + NotesText(notes) + (CloseText(FullName(tag)) + GapText(after))
          == OpenText(tag) + ContentText(content) + NotesText(notes) + CloseText(FullName(tag)) + GapText(after);
    case Node(tag, kids) =>
      var a, b, m := Open(tag, Chars(kids.gap.text), kids.gap.notes), Close(FullName(tag), after), ForestTokens(kids);
      TextConcat([a] + m, [b]);
      TextConcat([a], m);
      TextOne(a);
      TextOne(b);
      ForestTokensText(kids);
      CharsText(kids.gap);
      hide TokensText, ForestText, ForestTokens, GapText, TokenText;
      Around(OpenText(tag), kids.gap.text, NotesText(kids.gap.notes), TokensText(m), CloseText(FullName(tag)), GapText(after));
    case Single(tag) =>
      TextOne(Self(tag, after));
  }

  lemma CharsText(g: Gap)
    ensures ContentText(Chars(g.text)) == g.text && GapText(g) == g.text + NotesText(g.notes)
  {
  }

  lemma Around(open: string, a: string, b: string, m: string, close: string, after: string)
    ensures open + a + b + m + (close + after) == open + (a + b + m) + close + after
  {
  }

  lemma {:induction false} ForestTokensText(f: Forest)
    ensures GapText(f.gap) + TokensText(ForestTokens(f)) == ForestText(f)
    decreases f, 0
  {
    hide TreeText, TreeTokens, TokensText, GapText;
    match f
    case Nil(gap) =>
      TextNone();
    case Cons(gap, head, tail) =>
      var rest := TokensText(ForestTokens(tail));
      TextConcat(TreeTokens(head, tail.gap), ForestTokens(tail));
      TreeTokensText(head, tail.gap);
      ForestTokensText(tail);
      assert GapText(gap) + (TreeText(head) + GapText(tail.gap) + rest) == GapText(gap) + TreeText(head) + (GapText(tail.gap) + rest);
  }

  lemma {:induction false} EventsConcat(a: seq<Token>, b: seq<Token>)
    requires a != [] && !a[|a| - 1].Open?
    ensures TokensEvents(a + b) == TokensEvents(a) + TokensEvents(b)
  {
    assert (a + b)[1..] == a[1..] + b;
    if |a| == 1 {
      assert a[1..] == [] && a[1..] + b == b;
    } else {
      EventsConcat(a[1..], b);
    }
  }

  lemma EventsFirst(a: Token, ts: seq<Token>)
    ensures TokensEvents([a] + ts) == TokenEvents(a, ts != [] && ts[0].Close?) + TokensEvents(ts) && TokensEvents([]) == []
  {
    assert ([a] + ts)[1..] == ts;
  }

  lemma {:induction false} TreeTokensShape(t: Tree, after: Gap)
    requires TreeOk(t) && GapOk(after)
    ensures TokensOk(TreeTokens(t, after)) && TreeTokens(t, after) != [] && !TreeTokens(t, after)[0].Close?
    decreases t, 1
  {
    hide TagOk, NotesOk;
    FullNameOk(t.tag);
    if t.Node? {
      ForestTokensShape(t.kids);
    }
  }

  lemma FullNameOk(t: Tag)
    requires TagOk(t)
    ensures NameOk(FullName(t))
  {
  }

  lemma {:induction false} ForestTokensShape(f: Forest)
    requires ForestOk(f)
    ensures TokensOk(ForestTokens(f)) && (f.Cons? ==> ForestTokens(f) != [] && !ForestTokens(f)[0].Close?)
    decreases f, 0
  {
    if f.Cons? {
      TreeTokensShape(f.head, f.tail.gap);
      ForestTokensShape(f.tail);
    }
  }

  lemma {:induction false} TreeTokensEvents(t: Tree, after: Gap)
    requires TreeOk(t) && GapOk(after)
    ensures TokensEvents(TreeTokens(t, after)) == TreeEvents(t)
    decreases t, 1
  {
    hide TokensEvents, TagEvents, FullName;
    match t
    case Leaf(tag, content, notes) =>
      var a, b := Open(tag, content, notes), Close(FullName(tag), after);
      EventsFirst(a, [b]);
      EventsFirst(b, []);
      assert [a] + [b] == [a, b] && [b] + [] == [b];
    case Node(tag, kids) =>
      var a, b, m := Open(tag, Chars(kids.gap.text), kids.gap.notes), Close(FullName(tag), after), ForestTokens(kids);
      ForestTokensShape(kids);
      ForestTokensEvents(kids);
      EventsConcat(m, [b]);
      EventsFirst(b, []);
      EventsFirst(a, m + [b]);
      assert [a] + (m + [b]) == [a] + m + [b] && [b] + [] == [b];
    case Single(tag) =>
      EventsFirst(Self(tag, after), []);
      assert [Self(tag, after)] + [] == [Self(tag, after)];
  }

  lemma {:induction false} ForestTokensEvents(f: Forest)
    requires ForestOk(f)
    ensures TokensEvents(ForestTokens(f)) == ForestEvents(f)
    decreases f, 0
  {
    if f.Cons? {
      TreeTokensShape(f.head, f.tail.gap);
      EventsConcat(TreeTokens(f.head, f.tail.gap), ForestTokens(f.tail));
      TreeTokensEvents(f.head, f.tail.gap);
      ForestTokensEvents(f.tail);
    }
  }

  // ----- comments

  function NotesPlain(ns: seq<Note>): (s: string) {
    if ns == [] then "" else ns[0].text + NotesPlain(ns[1..])
  }

  function GapPlain(g: Gap): (h: Gap) {
    Gap(g.text + NotesPlain(g.notes), [])
  }

  function ContentPlain(c: Content, ns: seq<Note>): (d: Content) {
    match c
    case Chars(text) => Chars(text + NotesPlain(ns))
    case Cdata(before, body, after) => Cdata(before, body, after + NotesPlain(ns))
  }

  /** A tree without its comments. */
  function TreePlain(t: Tree): (u: Tree) {
    match t
    case Leaf(tag, content, notes) => Leaf(tag, ContentPlain(content, notes), [])
    case Node(tag, kids) => Node(tag, ForestPlain(kids))
    case Single(_) => t
  }

  function ForestPlain(f: Forest): (g: Forest) {
    match f
    case Nil(gap) => Nil(GapPlain(gap))
    case Cons(gap, head, tail) => Cons(GapPlain(gap), TreePlain(head), ForestPlain(tail))
  }

  /** No comment stands beside the text of a leaf. */
  predicate Undisturbed(t: Tree) {
    match t
    case Leaf(tag, content, notes) => content.Chars? && notes != [] ==> content.text + NotesPlain(notes) == ""
    case Node(tag, kids) => ForestUndisturbed(kids)
    case Single(_) => true
  }

  predicate ForestUndisturbed(f: Forest) {
    match f
    case Nil(_) => true
    case Cons(_, head, tail) => Undisturbed(head) && ForestUndisturbed(tail)
  }

  lemma EqualEvents(a: seq<Event>, b: seq<Event>, c: seq<Event>, d: seq<Event>)
    requires |a| <= |c| && |b| <= |d|
    ensures |a + b| <= |c + d| && (a + b == c + d <==> a == c && b == d)
  {
    if a + b == c + d {
      assert |a + b| == |c + d|;
      assert a == (a + b)[..|a|] && b == (a + b)[|a|..] && c == (c + d)[..|a|] && d == (c + d)[|a|..];
    }
  }

  lemma ContentPlainIff(c: Content, ns: seq<Note>)
    ensures |ContentEvents(c, ns == [])| <= |ContentEvents(ContentPlain(c, ns), true)|
    ensures ContentEvents(c, ns == []) == ContentEvents(ContentPlain(c, ns), true) <==> (c.Chars? && ns != [] ==> c.text + NotesPlain(ns) == "")
  {
    if c.Chars? && ns == [] {
      assert c.text + NotesPlain(ns) == c.text;
    }
  }

  /** Comments change what is reported of a document exactly where they stand beside the text of a leaf, which is then lost. */
  lemma {:induction false} CommentsIff(t: Tree)
    ensures |TreeEvents(t)| <= |TreeEvents(TreePlain(t))| && (TreeEvents(t) == TreeEvents(TreePlain(t)) <==> Undisturbed(t))
    decreases t
  {
    hide TagEvents, FullName, ContentEvents, ContentPlain;
    match t
    case Leaf(tag, content, notes) =>
      ContentPlainIff(content, notes);
      EventsBetween(TagEvents(tag), ContentEvents(content, notes == []), ContentEvents(ContentPlain(content, notes), true), [End(FullName(tag))]);
    case Node(tag, kids) =>
      ForestCommentsIff(kids);
      EventsBetween(TagEvents(tag), ForestEvents(kids), ForestEvents(ForestPlain(kids)), [End(FullName(tag))]);
    case Single(_) =>
  }

  lemma EventsBetween(a: seq<Event>, b: seq<Event>, c: seq<Event>, d: seq<Event>)
    requires |b| <= |c|
    ensures |a + b + d| <= |a + c + d| && (a + b + d == a + c + d <==> b == c)
  {
    EqualEvents(a, b, a, c);
    EqualEvents(a + b, d, a + c, d);
  }

  lemma {:induction false} ForestCommentsIff(f: Forest)
    ensures |ForestEvents(f)| <= |ForestEvents(ForestPlain(f))| && (ForestEvents(f) == ForestEvents(ForestPlain(f)) <==> ForestUndisturbed(f))
    decreases f
  {
    if f.Cons? {
      CommentsIff(f.head);
      ForestCommentsIff(f.tail);
      EqualEvents(TreeEvents(f.head), ForestEvents(f.tail), TreeEvents(TreePlain(f.head)), ForestEvents(ForestPlain(f.tail)));
    }
  }
}
