/** The list of names and values that is made of the leaves of a document. */
module NameValues {
  import opened Options
  import opened XmlText
  import opened XmlParsing

  datatype NameValue = NameValue(name: string, value: string)

  const PortListing: string := "NewPortListing"

  const NameSize: nat := 63
  const ValueSize: nat := 127

  function Cut(s: string, n: nat): (r: string) {
    if |s| > n then s[..n] else s
  }

  /** What the handlers keep. */
  datatype State = State(list: seq<NameValue>, current: string, listing: Option<string>, top: bool, data: Option<string>)

  class NameValueParser {
    var list: seq<NameValue>        // the entry added last comes first
    var curelt: string
    var portListing: Option<string>
    var topelt: bool
    var cdata: Option<string>

    constructor ()
      ensures View() == State([], "", None, false, None)
    {
      list, curelt, portListing, topelt, cdata := [], "", None, false, None;
    }

    function View(): (s: State)
      reads this
    {
      State(list, curelt, portListing, topelt, cdata)
    }

    method StartElt(name: string)
      modifies this
      ensures View() == Step(old(View()), Start(name))
    {
      topelt := true;
      curelt := Cut(name, NameSize);
      cdata := None;
    }

    method EndElt(name: string)
      modifies this
      ensures View() == Step(old(View()), End(name))
    {
      if !topelt {
        return;
      }
      if curelt != PortListing {
        var value := if cdata.Some? then Cut(cdata.value, ValueSize) else "";
        list := [NameValue(Cut(curelt, NameSize), value)] + list;
      }
      cdata := None;
      topelt := false;
    }

    method GetData(text: string)
      modifies this
      ensures View() == Step(old(View()), Data(text))
    {
      if curelt == PortListing {
        portListing := Some(text);
      } else {
        cdata := Some(text);
      }
    }

    /** Handles the events of a document; attributes are not asked for. */
    method Handle(events: seq<Event>)
      modifies this
      ensures View() == Run(old(View()), events) && list == View().list && portListing == View().listing
    {
      for i := 0 to |events|
        invariant View() == Run(old(View()), events[..i])
      {
        assert events[..i + 1][..i] == events[..i];
        match events[i]
        case Start(name) => StartElt(name);
        case Data(text) => GetData(text);
        case End(name) => EndElt(name);
        case Att(_, _) =>
      }
      assert events[..|events|] == events;
    }

    /** The value of the first entry of the list with a name. */
    method GetValue(name: string) returns (value: Option<string>)
      ensures value == Lookup(list, name)
    {
      value := None;
      for i := 0 to |list|
        invariant value == None && Lookup(list, name) == Lookup(list[i..], name)
      {
        if list[i].name == name {
          return Some(list[i].value);
        }
      }
    }
  }

  function Step(s: State, e: Event): (r: State) {
    match e
    case Start(name) => State(s.list, Cut(name, NameSize), s.listing, true, None)
    case Data(text) => if s.current == PortListing then s.(listing := Some(text)) else s.(data := Some(text))
    case End(_) =>
      if !s.top then s
      else if s.current == PortListing then s.(top := false, data := None)
      else
        var value := if s.data.Some? then Cut(s.data.value, ValueSize) else "";
        State([NameValue(Cut(s.current, NameSize), value)] + s.list, s.current, s.listing, false, None)
    case Att(_, _) => s
  }

  function Run(s: State, es: seq<Event>): (r: State) {
    if es == [] then s else Step(Run(s, es[..|es| - 1]), es[|es| - 1])
  }

  /** The first entry of a list with a name. */
  function Lookup(list: seq<NameValue>, name: string): (r: Option<string>) {
    if list == [] then None else if list[0].name == name then Some(list[0].value) else Lookup(list[1..], name)
  }

  // ----- the entries of a tree

  /** The entry of a leaf, cut to the sizes of its buffers; a port listing is kept apart. */
  function LeafEntry(name: string, text: string): (es: seq<NameValue>) {
    if Cut(name, NameSize) == PortListing then [] else [NameValue(Cut(name, NameSize), Cut(text, ValueSize))]
  }

  /** The entries of a tree in document order; an element closed in its own tag has no end of its own to enter it. */
  function Entries(t: Tree): (es: seq<NameValue>) {
    match t
    case Leaf(tag, content, notes) => LeafEntry(tag.name, Shown(content, notes == []))
    case Node(_, kids) => ForestEntries(kids) + Pending(kids)
    case Single(_) => []
  }

  function ForestEntries(f: Forest): (es: seq<NameValue>) {
    match f
    case Nil(_) => []
    case Cons(_, head, tail) => Entries(head) + ForestEntries(tail)
  }

  function Last(f: Forest): (t: Tree)
    requires f.Cons?
  {
    if f.tail.Cons? then Last(f.tail) else f.head
  }

  /** The end of an element enters the last child, if that was closed in its own tag. */
  function Pending(f: Forest): (es: seq<NameValue>) {
    if f.Cons? && Last(f).Single? then LeafEntry(Last(f).tag.name, "") else []
  }

  function Reversed(s: seq<NameValue>): (r: seq<NameValue>) {
    if s == [] then [] else Reversed(s[1..]) + [s[0]]
  }

  /** The value of the last entry with a name. */
  function LastValue(s: seq<NameValue>, name: string): (r: Option<string>) {
    if s == [] then None
    else if s[|s| - 1].name == name then Some(s[|s| - 1].value)
    else LastValue(s[..|s| - 1], name)
  }

  // ----- the leaves of a tree

  /** The elements without others inside them, with the text that is reported of them. */
  function Leaves(t: Tree): (es: seq<NameValue>) {
    match t
    case Leaf(tag, content, notes) => [NameValue(tag.name, Shown(content, notes == []))]
    case Node(_, kids) => ForestLeaves(kids)
    case Single(tag) => [NameValue(tag.name, "")]
  }

  function ForestLeaves(f: Forest): (es: seq<NameValue>) {
    match f
    case Nil(_) => []
    case Cons(_, head, tail) => Leaves(head) + ForestLeaves(tail)
  }

  // ----- port listings

  /** The text of the last port listing that is not empty. */
  function ListingOf(ls: seq<NameValue>): (r: Option<string>) {
    if ls == [] then None
    else
      var leaf := ls[|ls| - 1];
      if leaf.name == PortListing && leaf.value != "" then Some(leaf.value) else ListingOf(ls[..|ls| - 1])
  }

  function Later(a: Option<string>, b: Option<string>): (r: Option<string>) {
    if b.Some? then b else a
  }

  function LeafListing(listing: Option<string>, name: string, text: string): (r: Option<string>) {
    if name == PortListing && text != "" then Some(text) else listing
  }

  lemma CutListing(name: string)
    ensures Cut(name, NameSize) == PortListing <==> name == PortListing
  {
    assert |PortListing| == 14;
  }

  lemma ListingOne(t: Tree)
    ensures t.Leaf? ==> forall a :: Later(a, ListingOf(Leaves(t))) == LeafListing(a, t.tag.name, Shown(t.content, t.notes == []))
    ensures t.Single? ==> ListingOf(Leaves(t)) == None
    ensures t.Node? ==> Leaves(t) == ForestLeaves(t.kids)
    ensures forall a :: Later(a, None) == a && Later(a, ListingOf([])) == a
  {
    if !t.Node? {
      assert Leaves(t)[..0] == [];
    }
  }

  lemma {:induction false} ListingConcat(a: Option<string>, ls: seq<NameValue>, more: seq<NameValue>)
    ensures Later(a, ListingOf(ls + more)) == Later(Later(a, ListingOf(ls)), ListingOf(more))
    decreases |more|
  {
    if more == [] {
      assert ls + more == ls;
    } else {
      var n := |more| - 1;
      assert (ls + more)[..|ls + more| - 1] == ls + more[..n];
      ListingConcat(a, ls, more[..n]);
    }
  }

  /** Leaf `i` is a port listing with the text, and no later one has any. */
  ghost predicate ListingAt(ls: seq<NameValue>, i: nat, text: string) {
    && i < |ls| && ls[i] == NameValue("NewPortListing", text) && text != ""
    && forall j :: i < j < |ls| && ls[j].name == "NewPortListing" ==> ls[j].value == ""
  }

  lemma {:induction false} ListingIs(ls: seq<NameValue>)
    ensures ListingOf(ls) == None <==> forall i :: 0 <= i < |ls| && ls[i].name == "NewPortListing" ==> ls[i].value == ""
    ensures ListingOf(ls).Some? ==> exists i :: ListingAt(ls, i, ListingOf(ls).value)
    decreases |ls|
  {
    if ls != [] {
      var n := |ls| - 1;
      assert forall j :: 0 <= j < n ==> ls[j] == ls[..n][j];
      ListingIs(ls[..n]);
      if ls[n].name == PortListing && ls[n].value != "" {
        assert ListingAt(ls, n, ls[n].value);
      } else if ListingOf(ls[..n]).Some? {
        var text := ListingOf(ls[..n]).value;
        var i :| ListingAt(ls[..n], i, text);
        assert ListingAt(ls, i, text);
      }
    }
  }

  // ----- running over the events of a tree

  lemma {:induction false} RunConcat(s: State, a: seq<Event>, b: seq<Event>)
    ensures Run(s, a + b) == Run(Run(s, a), b)
    decreases |b|
  {
    if b == [] {
      assert a + b == a;
    } else {
      var n := |b| - 1;
      assert (a + b)[..|a + b| - 1] == a + b[..n];
      RunConcat(s, a, b[..n]);
    }
  }

  lemma RunOne(s: State, e: Event)
    ensures Run(s, [e]) == Step(s, e)
  {
    assert [e][..0] == [];
  }

  lemma {:induction false} RunAttributes(s: State, atts: seq<Attribute>)
    ensures Run(s, AttributeEvents(atts)) == s
  {
    if atts != [] {
      var e := Att(atts[0].name, atts[0].value);
      RunConcat(s, [e], AttributeEvents(atts[1..]));
      RunOne(s, e);
      RunAttributes(s, atts[1..]);
    }
  }

  lemma RunTag(s: State, tag: Tag)
    ensures Run(s, TagEvents(tag)) == Step(s, Start(tag.name))
  {
    hide Step, AttributeEvents;
    RunConcat(s, [Start(tag.name)], AttributeEvents(tag.atts));
    RunOne(s, Start(tag.name));
    RunAttributes(Step(s, Start(tag.name)), tag.atts);
  }

  lemma {:induction false} ReversedConcat(a: seq<NameValue>, b: seq<NameValue>)
    ensures Reversed(a + b) == Reversed(b) + Reversed(a)
  {
    if a == [] {
      assert a + b == b;
    } else {
      assert (a + b)[1..] == a[1..] + b;
      ReversedConcat(a[1..], b);
    }
  }

  lemma CutCut(s: string, n: nat)
    ensures Cut(Cut(s, n), n) == Cut(s, n)
  {
  }

  /** The end of an element enters the open one. */
  lemma EndRun(s: State, tag: Tag, name: string)
    requires s.top && s.current == Cut(name, NameSize) && (s.current == PortListing || s.data == None)
    ensures var r := Run(s, [End(FullName(tag))]);
            r.list == Reversed(LeafEntry(name, "")) + s.list && !r.top && r.listing == s.listing
  {
    RunOne(s, End(FullName(tag)));
    CutCut(name, NameSize);
    ReversedEntry(name, "");
  }

  lemma ReversedNone()
    ensures Reversed([]) == []
  {
  }

  lemma ReversedEntry(name: string, text: string)
    ensures Reversed(LeafEntry(name, text)) == LeafEntry(name, text)
  {
    if Cut(name, NameSize) != PortListing {
      var e := NameValue(Cut(name, NameSize), Cut(text, ValueSize));
      assert [e][1..] == [];
    }
  }

  lemma LeafRun(s: State, tag: Tag, content: Content, notes: seq<Note>)
    ensures var r := Run(s, TreeEvents(Leaf(tag, content, notes)));
            && r.list == Reversed(LeafEntry(tag.name, Shown(content, notes == []))) + s.list && !r.top
            && r.listing == LeafListing(s.listing, tag.name, Shown(content, notes == []))
  {
    var text := Shown(content, notes == []);
    var a, b, c := TagEvents(tag), if text == "" then [] else [Data(text)], [End(FullName(tag))];
    assert TreeEvents(Leaf(tag, content, notes)) == a + b + c;
    hide TagEvents, TreeEvents;
    RunConcat(s, a + b, c);
    RunConcat(s, a, b);
    RunTag(s, tag);
    TextRun(Step(s, Start(tag.name)), tag, text);
  }

  lemma TextRun(s: State, tag: Tag, text: string)
    requires s.top && s.current == Cut(tag.name, NameSize) && s.data == None
    ensures var r := Run(Run(s, if text == "" then [] else [Data(text)]), [End(FullName(tag))]);
            r.list == Reversed(LeafEntry(tag.name, text)) + s.list && !r.top && r.listing == LeafListing(s.listing, tag.name, text)
  {
    CutListing(tag.name);
    if text == "" {
      EndRun(s, tag, tag.name);
    } else {
      RunOne(s, Data(text));
      RunOne(Step(s, Data(text)), End(FullName(tag)));
      CutCut(tag.name, NameSize);
      ReversedEntry(tag.name, text);
    }
  }

  /** The state behind a tree: nothing is open, unless it was closed in its own tag and waits for an end. */
  predicate Settled(s: State, t: Tree) {
    if t.Single? then s.top && s.current == Cut(t.tag.name, NameSize) && s.data == None else !s.top
  }

  /** The events of a tree put its entries in front of the list, the last one first; its last port listing is kept. */
  lemma {:induction false} TreeRun(s: State, t: Tree)
    requires TreeOk(t)
    ensures var r := Run(s, TreeEvents(t));
            r.list == Reversed(Entries(t)) + s.list && Settled(r, t) && r.listing == Later(s.listing, ListingOf(Leaves(t)))
    decreases t
  {
    ListingOne(t);
    if t.Leaf? {
      LeafRun(s, t.tag, t.content, t.notes);
    } else if t.Single? {
      RunTag(s, t.tag);
    } else {
      hide TagEvents, ForestEvents, FullName, Run, Reversed, Pending, ForestEntries, ListingOf, ForestLeaves;
      var a, b, c := TagEvents(t.tag), ForestEvents(t.kids), [End(FullName(t.tag))];
      RunConcat(s, a + b, c);
      RunConcat(s, a, b);
      RunTag(s, t.tag);
      var s1 := Step(s, Start(t.tag.name));
      ForestRun(s1, t.kids);
      NodeEnd(Run(s1, b), t.tag, t.kids, s.list);
    }
  }

  lemma NodeEnd(s: State, tag: Tag, kids: Forest, list: seq<NameValue>)
    requires kids.Cons? && s.list == Reversed(ForestEntries(kids)) + list && Settled(s, Last(kids))
    ensures var r := Run(s, [End(FullName(tag))]);
            r.list == Reversed(ForestEntries(kids) + Pending(kids)) + list && !r.top && r.listing == s.listing
  {
    hide ForestEntries, LeafEntry, Run, Reversed, FullName;
    ReversedConcat(ForestEntries(kids), Pending(kids));
    var front := Reversed(ForestEntries(kids));
    if Last(kids).Single? {
      EndRun(s, tag, Last(kids).tag.name);
      assert Reversed(Pending(kids)) + (front + list) == Reversed(Pending(kids)) + front + list;
    } else {
      RunOne(s, End(FullName(tag)));
      ReversedNone();
      assert [] + front + list == front + list;
    }
  }

  lemma {:induction false} ForestRun(s: State, f: Forest)
    requires ForestOk(f)
    ensures var r := Run(s, ForestEvents(f));
            && r.list == Reversed(ForestEntries(f)) + s.list && (if f.Cons? then Settled(r, Last(f)) else r == s)
            && r.listing == Later(s.listing, ListingOf(ForestLeaves(f)))
    decreases f
  {
    hide *;
    if f.Cons? {
      ForestStep(f);
      ListingConcat(s.listing, Leaves(f.head), ForestLeaves(f.tail));
      RunConcat(s, TreeEvents(f.head), ForestEvents(f.tail));
      TreeRun(s, f.head);
      ForestRun(Run(s, TreeEvents(f.head)), f.tail);
      ReversedConcat(Entries(f.head), ForestEntries(f.tail));
      assert Reversed(ForestEntries(f.tail)) + (Reversed(Entries(f.head)) + s.list)
          == Reversed(ForestEntries(f.tail)) + Reversed(Entries(f.head)) + s.list;
    } else {
      NothingRun(s, f);
    }
  }

  lemma NothingRun(s: State, f: Forest)
    requires f.Nil?
    ensures Run(s, ForestEvents(f)) == s && s.list == Reversed(ForestEntries(f)) + s.list
    ensures s.listing == Later(s.listing, ListingOf(ForestLeaves(f)))
  {
  }

  lemma ForestStep(f: Forest)
    requires f.Cons? && ForestOk(f)
    ensures TreeOk(f.head) && ForestOk(f.tail) && Last(f) == if f.tail.Cons? then Last(f.tail) else f.head
    ensures ForestEvents(f) == TreeEvents(f.head) + ForestEvents(f.tail) && ForestEntries(f) == Entries(f.head) + ForestEntries(f.tail)
    ensures ForestLeaves(f) == Leaves(f.head) + ForestLeaves(f.tail)
  {
  }

  /** Looking a name up in the reversed list finds its last entry. */
  lemma {:induction false} LookupReversed(s: seq<NameValue>, name: string)
    ensures Lookup(Reversed(s), name) == LastValue(s, name)
    decreases |s|
  {
    if s != [] {
      var n := |s| - 1;
      assert s == s[..n] + [s[n]];
      ReversedConcat(s[..n], [s[n]]);
      assert [s[n]][1..] == [];
      assert Reversed(s) == [s[n]] + Reversed(s[..n]);
      LookupReversed(s[..n], name);
    }
  }

  /** Entry `i` has the name and the value, and no later one has the name. */
  ghost predicate LastAt(s: seq<NameValue>, i: nat, name: string, value: string) {
    i < |s| && s[i] == NameValue(name, value) && forall j :: i < j < |s| ==> s[j].name != name
  }

  ghost predicate Absent(s: seq<NameValue>, name: string) {
    forall i :: 0 <= i < |s| ==> s[i].name != name
  }

  lemma LastAtMore(s: seq<NameValue>, i: nat, name: string, value: string)
    requires s != [] && s[|s| - 1].name != name && LastAt(s[..|s| - 1], i, name, value)
    ensures LastAt(s, i, name, value)
  {
    var n := |s| - 1;
    assert forall j :: 0 <= j < n ==> s[j] == s[..n][j];
  }

  lemma AbsentMore(s: seq<NameValue>, name: string)
    requires s != []
    ensures Absent(s, name) <==> Absent(s[..|s| - 1], name) && s[|s| - 1].name != name
  {
    var n := |s| - 1;
    assert forall j :: 0 <= j < n ==> s[j] == s[..n][j];
  }

  /** There is no such value exactly when no entry has the name, and otherwise it is that of the last entry that has it. */
  lemma {:induction false} LastValueIs(s: seq<NameValue>, name: string)
    ensures LastValue(s, name) == None <==> Absent(s, name)
    ensures LastValue(s, name).Some? ==> exists i :: LastAt(s, i, name, LastValue(s, name).value)
    decreases |s|
  {
    if s != [] {
      var n := |s| - 1;
      AbsentMore(s, name);
      if s[n].name == name {
        assert LastAt(s, n, name, s[n].value);
      } else {
        LastValueIs(s[..n], name);
        hide LastAt, Absent;
        if LastValue(s[..n], name).Some? {
          var i :| LastAt(s[..n], i, name, LastValue(s[..n], name).value);
          LastAtMore(s, i, name, LastValue(s[..n], name).value);
        }
      }
    }
  }

  // ----- entries and leaves

  predicate Short(es: seq<NameValue>) {
    forall i :: 0 <= i < |es| ==> |es[i].name| <= NameSize && |es[i].value| <= ValueSize && es[i].name != PortListing
  }

  /** The leaves that are not port listings. */
  function Listed(ls: seq<NameValue>): (r: seq<NameValue>) {
    if ls == [] then [] else (if ls[0].name == PortListing then [] else [ls[0]]) + Listed(ls[1..])
  }

  lemma {:induction false} ListedConcat(a: seq<NameValue>, b: seq<NameValue>)
    ensures Listed(a + b) == Listed(a) + Listed(b)
  {
    if a == [] {
      assert a + b == b;
    } else {
      assert (a + b)[1..] == a[1..] + b;
      ListedConcat(a[1..], b);
    }
  }

  /** The first 63 characters of the name of a leaf, or all of it. */
  predicate Called(leaf: NameValue, name: string) {
    name <= leaf.name && |name| == if |leaf.name| < 63 then |leaf.name| else 63
  }

  /** An entry has these, and the first 127 characters of the value, or all of it. */
  predicate Shortened(e: NameValue, leaf: NameValue) {
    Called(leaf, e.name) && e.value <= leaf.value && |e.value| == if |leaf.value| < 127 then |leaf.value| else 127
  }

  predicate Shortens(es: seq<NameValue>, ls: seq<NameValue>) {
    |es| == |ls| && forall i :: 0 <= i < |es| ==> Shortened(es[i], ls[i])
  }

  lemma LeafShortened(name: string, text: string)
    ensures Shortens(LeafEntry(name, text), Listed([NameValue(name, text)]))
    ensures Listed([NameValue(name, text)]) == [] <==> name == PortListing
  {
    CutListing(name);
    assert [NameValue(name, text)][1..] == [];
  }

  lemma ShortensParts(a: seq<NameValue>, b: seq<NameValue>, a': seq<NameValue>, b': seq<NameValue>)
    requires |a| <= |a'| && |b| <= |b'|
    ensures Shortens(a + b, a' + b') <==> Shortens(a, a') && Shortens(b, b')
  {
    hide Shortened;
    var s, s' := a + b, a' + b';
    if |a| == |a'| && |b| == |b'| {
      assert forall i :: 0 <= i < |a| ==> s[i] == a[i] && s'[i] == a'[i];
      assert forall i {:trigger s[i]} :: |a| <= i < |s| ==> s[i] == b[i - |a|] && s'[i] == b'[i - |a|];
      if Shortens(s, s') {
        ShortensBack(a, b, a', b');
      }
    }
  }

  lemma ShortensBack(a: seq<NameValue>, b: seq<NameValue>, a': seq<NameValue>, b': seq<NameValue>)
    requires |a| == |a'| && Shortens(a + b, a' + b')
    ensures Shortens(a, a') && Shortens(b, b')
  {
    hide Shortened;
    var s, s' := a + b, a' + b';
    forall i | 0 <= i < |a|
      ensures Shortened(a[i], a'[i])
    {
      assert s[i] == a[i] && s'[i] == a'[i];
    }
    forall i | 0 <= i < |b|
      ensures Shortened(b[i], b'[i])
    {
      assert s[|a| + i] == b[i] && s'[|a| + i] == b'[i];
    }
  }

  /** Every element closed in its own tag is the last child of its parent, or a port listing. */
  predicate Kept(t: Tree) {
    match t
    case Leaf(_, _, _) => true
    case Node(_, kids) => ForestKept(kids)
    case Single(tag) => tag.name == PortListing
  }

  predicate ForestKept(f: Forest) {
    match f
    case Nil(_) => true
    case Cons(_, head, tail) => (Kept(head) || (head.Single? && tail.Nil?)) && ForestKept(tail)
  }

  /**
   * The entries are the leaves that are not port listings, in order, with names cut to 63 characters and values cut to 127,
   * exactly when no element closed in its own tag has a sibling behind it; otherwise some are lost.
   */
  lemma {:induction false} EntriesIff(t: Tree)
    requires TreeOk(t)
    ensures |Entries(t)| <= |Listed(Leaves(t))| && (Shortens(Entries(t), Listed(Leaves(t))) <==> Kept(t))
    decreases t
  {
    if t.Node? {
      EntriesForest(t.kids);
    } else {
      LeafShortened(t.tag.name, if t.Leaf? then Shown(t.content, t.notes == []) else "");
    }
  }

  lemma {:induction false} EntriesForest(f: Forest)
    requires ForestOk(f)
    ensures |ForestEntries(f) + Pending(f)| <= |Listed(ForestLeaves(f))|
    ensures Shortens(ForestEntries(f) + Pending(f), Listed(ForestLeaves(f))) <==> ForestKept(f)
    decreases f
  {
    if f.Cons? {
      EntriesIff(f.head);
      EntriesForest(f.tail);
      ListedConcat(Leaves(f.head), ForestLeaves(f.tail));
      hide TreeOk, Shortens, Listed, LeafEntry;
      ForestShape(f);
      hide Entries, ForestEntries, Pending, Leaves, ForestLeaves;
      if f.head.Single? && f.tail.Nil? {
        LeafShortened(f.head.tag.name, "");
        ListedNone();
      } else {
        ShortensParts(Entries(f.head), ForestEntries(f.tail) + Pending(f.tail), Listed(Leaves(f.head)), Listed(ForestLeaves(f.tail)));
      }
    }
  }

  lemma ListedNone()
    ensures Listed([]) == []
  {
  }

  lemma ForestShape(f: Forest)
    requires f.Cons?
    ensures ForestLeaves(f) == Leaves(f.head) + ForestLeaves(f.tail)
    ensures if f.head.Single? && f.tail.Nil? then
              && ForestEntries(f) + Pending(f) == LeafEntry(f.head.tag.name, "") && Leaves(f.head) == [NameValue(f.head.tag.name, "")]
              && ForestLeaves(f.tail) == []
            else
              ForestEntries(f) + Pending(f) == Entries(f.head) + (ForestEntries(f.tail) + Pending(f.tail))
  {
    hide *;
    ForestParts(f);
    if f.tail.Cons? {
      PendingMore(f);
      assert Entries(f.head) + ForestEntries(f.tail) + Pending(f) == Entries(f.head) + (ForestEntries(f.tail) + Pending(f));
    } else {
      PendingLast(f);
    }
  }

  lemma ForestParts(f: Forest)
    requires f.Cons?
    ensures ForestLeaves(f) == Leaves(f.head) + ForestLeaves(f.tail) && ForestEntries(f) == Entries(f.head) + ForestEntries(f.tail)
  {
    hide Leaves, Entries;
  }

  lemma PendingMore(f: Forest)
    requires f.Cons? && f.tail.Cons?
    ensures Pending(f) == Pending(f.tail)
  {
    hide LeafEntry;
  }

  lemma PendingLast(f: Forest)
    requires f.Cons? && f.tail.Nil?
    ensures ForestLeaves(f.tail) == [] && ForestEntries(f.tail) == [] && Pending(f.tail) == []
    ensures Pending(f) == if f.head.Single? then LeafEntry(f.head.tag.name, "") else []
    ensures f.head.Single? ==> Entries(f.head) == [] && Leaves(f.head) == [NameValue(f.head.tag.name, "")]
  {
    hide LeafEntry;
  }

  /** Nothing is cut and nothing is left out of leaves with short names and values. */
  lemma {:induction false} ShortListed(ls: seq<NameValue>)
    requires Short(ls)
    ensures Listed(ls) == ls
  {
    if ls != [] {
      assert forall i :: 0 <= i < |ls[1..]| ==> ls[1..][i] == ls[i + 1];
      ShortListed(ls[1..]);
    }
  }

  lemma ShortSame(es: seq<NameValue>, ls: seq<NameValue>)
    requires Short(ls)
    ensures Shortens(es, ls) <==> es == ls
  {
    if Shortens(es, ls) {
      forall i | 0 <= i < |es|
        ensures es[i] == ls[i]
      {
        assert Shortened(es[i], ls[i]);
      }
    }
  }

  /** Then the entries are the leaves themselves. */
  lemma ExactIff(t: Tree)
    requires Short(Leaves(t)) && TreeOk(t)
    ensures |Entries(t)| <= |Leaves(t)| && (Entries(t) == Leaves(t) <==> Kept(t))
  {
    hide *;
    EntriesIff(t);
    ShortListed(Leaves(t));
    ShortSame(Entries(t), Leaves(t));
  }

  /** Leaf `i` has the name and the value, as far as they are kept, and no later one has the name. */
  ghost predicate LastLeaf(ls: seq<NameValue>, i: nat, name: string, value: string) {
    && i < |ls| && Shortened(NameValue(name, value), ls[i])
    && forall j :: i < j < |ls| ==> !Called(ls[j], name)
  }

  lemma CalledOnce(e: NameValue, leaf: NameValue, name: string)
    requires Shortened(e, leaf)
    ensures Called(leaf, name) <==> e.name == name
  {
  }

  /** Looking a name up among the entries is looking it up among the leaves. */
  lemma LeafFound(es: seq<NameValue>, ls: seq<NameValue>, name: string)
    requires Shortens(es, ls)
    ensures Absent(es, name) <==> forall i :: 0 <= i < |ls| ==> !Called(ls[i], name)
    ensures forall i: nat, value :: LastAt(es, i, name, value) ==> LastLeaf(ls, i, name, value)
  {
    hide Called, Shortened;
    forall i | 0 <= i < |es|
      ensures Called(ls[i], name) <==> es[i].name == name
    {
      CalledOnce(es[i], ls[i], name);
    }
  }

  function BareTag(name: string): (t: Tag) {
    Tag("", name, [], "")
  }

  /** Of two elements closed in their own tags the first is lost. */
  lemma SingleLost()
    ensures var t := Node(BareTag("a"), Cons(NoGap, Single(BareTag("b")), Cons(NoGap, Single(BareTag("c")), Nil(NoGap))));
            TreeOk(t) && LastValue(Entries(t), "c") == Some("") && LastValue(Entries(t), "b") == None
  {
    hide TreeOk;
    var b, c := Single(BareTag("b")), Single(BareTag("c"));
    var f := Cons(NoGap, b, Cons(NoGap, c, Nil(NoGap)));
    var t := Node(BareTag("a"), f);
    SinglesOk(b, c, f);
    assert Last(f) == c && ForestEntries(f) == [];
    var es := Entries(t);
    assert es == [NameValue("c", "")] && es[..0] == [];
  }

  lemma SinglesOk(b: Tree, c: Tree, f: Forest)
    requires b == Single(BareTag("b")) && c == Single(BareTag("c")) && f == Cons(NoGap, b, Cons(NoGap, c, Nil(NoGap)))
    ensures TreeOk(Node(BareTag("a"), f))
  {
    assert IsName("a") && IsName("b") && IsName("c");
    assert TagOk(BareTag("a")) && TagOk(BareTag("b")) && TagOk(BareTag("c")) && GapOk(NoGap);
    hide TagOk, GapOk, BareTag;
    assert ForestOk(Cons(NoGap, c, Nil(NoGap)));
  }

  /**
   * Parses a document and looks a name up: the value of the last leaf with that name, or nothing if there is none; with it, the
   * text of the last port listing.
   */
  method ParseAndGet(text: string, name: string, ghost declared: bool, ghost prolog: Gap, ghost tree: Tree, ghost epilog: Gap)
    returns (value: Option<string>, listing: Option<string>)
    requires TreeOk(tree) && GapOk(prolog) && GapOk(epilog) && text == Document(declared, prolog, tree, epilog)
    ensures value == LastValue(Entries(tree), name)
    ensures Kept(tree) ==> (value == None <==> forall i :: 0 <= i < |Listed(Leaves(tree))| ==> !Called(Listed(Leaves(tree))[i], name))
    ensures Kept(tree) && value.Some? ==> exists i :: LastLeaf(Listed(Leaves(tree)), i, name, value.value)
    ensures Short(Leaves(tree)) && Kept(tree) ==> (value == None <==> Absent(Leaves(tree), name))
    ensures Short(Leaves(tree)) && Kept(tree) && value.Some? ==> exists i :: LastAt(Leaves(tree), i, name, value.value)
    ensures listing == None <==> forall i :: 0 <= i < |Leaves(tree)| && Leaves(tree)[i].name == "NewPortListing" ==> Leaves(tree)[i].value == ""
    ensures listing.Some? ==> exists i :: ListingAt(Leaves(tree), i, listing.value)
  {
    hide *;
    var events, past := ParseDocument(text, declared, prolog, tree, epilog);
    var parser := new NameValueParser();
    parser.Handle(events);
    TreeFound(tree, name);
    LastValueIs(Entries(tree), name);
    ListingIs(Leaves(tree));
    value := parser.GetValue(name);
    listing := parser.portListing;
  }

  /** What the list made of the events of a document gives for a name. */
  lemma TreeFound(t: Tree, name: string)
    requires TreeOk(t)
    ensures var r := Run(State([], "", None, false, None), TreeEvents(t));
            Lookup(r.list, name) == LastValue(Entries(t), name) && r.listing == ListingOf(Leaves(t))
    ensures Short(Leaves(t)) && Kept(t) ==> Entries(t) == Leaves(t)
    ensures Kept(t) ==> (Absent(Entries(t), name) <==> forall i :: 0 <= i < |Listed(Leaves(t))| ==> !Called(Listed(Leaves(t))[i], name))
    ensures Kept(t) ==> forall i: nat, value :: LastAt(Entries(t), i, name, value) ==> LastLeaf(Listed(Leaves(t)), i, name, value)
  {
    var s := State([], "", None, false, None);
    hide TreeEvents, TreeOk, Run, Reversed, Lookup, Entries, ListingOf, Listed, Leaves, Called, LastLeaf, LastAt, Absent, Shortens;
    TreeRun(s, t);
    assert Reversed(Entries(t)) + [] == Reversed(Entries(t));
    LookupReversed(Entries(t), name);
    EntriesIff(t);
    if Kept(t) {
      LeafFound(Entries(t), Listed(Leaves(t)), name);
      if Short(Leaves(t)) {
        ExactIff(t);
      }
    }
  }
}
