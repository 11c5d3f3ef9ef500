/** The parser: a cursor that moves over the text and reports events. */
module XmlParsing {
  import opened XmlText
  import opened XmlCuts

  class XmlParser {
    const text: string
    ghost const tail: string   // what a document that is cut short lacks
    var pos: nat
    var events: seq<Event>
    var past: bool             // the character behind the last one has been read

    constructor (text: string, ghost tail: string)
      ensures this.text == text && this.tail == tail && pos == 0 && events == [] && !past
    {
      this.text, this.tail := text, tail;
      pos, events, past := 0, [], false;
    }

    /** The character at an index; the one behind the last is taken to be zero. */
    ghost function Char(i: nat): (c: char) {
      if i < |text| then text[i] else '\0'
    }

    /** Reads a character: of the text, unless `past` has been set. */
    function At(i: nat): (c: char)
      requires i < |text| || past
      reads this`past
      ensures c == Char(i)
    {
      if i < |text| then text[i] else '\0'
    }

    predicate Looking(i: nat, s: string) {
      i + |s| <= |text| && text[i..i + |s|] == s
    }

    /** What follows from an index on, in the whole document. */
    ghost predicate Rest(i: nat, s: string) {
      i <= |text| && text[i..] + tail == s
    }

    /** The text ends behind one of the characters that the parser looks behind. */
    ghost predicate AtEdge() {
      text != "" && var c := text[|text| - 1]; c == '=' || c == ':' || c == '<'
    }

    lemma Behind(i: nat)
      ensures Char(i) == if i < |text| then text[i] else '\0'
    {
    }

    lemma CharAt(i: nat, s: string, j: nat)
      requires Rest(i, s)
      ensures i + |s| == |text| + |tail| && (i + j < |text| ==> j < |s| && Char(i + j) == s[j])
    {
      if i + j < |text| {
        assert text[i + j] == (text[i..] + tail)[j];
      }
    }

    lemma Pass(i: nat, a: string, b: string)
      requires Rest(i, a + b) && i + |a| <= |text|
      ensures Rest(i + |a|, b) && text[i..i + |a|] == a
    {
      assert text[i + |a|..] + tail == (text[i..] + tail)[|a|..];
      assert text[i..i + |a|] == (text[i..] + tail)[..|a|];
    }

    // ----- attributes

    /** Reads the name of an attribute, and the equals sign behind it and white space. */
    method AttName(ghost good: bool, ghost n: string, ghost before: string, ghost rest: string) returns (name: string, fail: bool)
      requires pos < |text|
      requires good ==> IsName(n) && AllWhite(before) && Rest(pos, n + (before + ("=" + rest)))
      modifies this`pos
      ensures old(pos) <= pos <= |text| && (!fail ==> pos > 0 && text[pos - 1] == '=')
      ensures good ==> (fail <==> old(pos) + |n| + |before| >= |text|)
      ensures good && !fail ==> name == n && pos == old(pos) + |n| + |before| + 1 && Rest(pos, rest)
    {
      hide Rest, Char, IsNameChar, IsWhite, IsName, AllWhite;
      fail := false;
      var start := pos;
      if good {
        NameThen(pos, n, before, rest);
      }
      while At(pos) != '=' && !IsWhite(At(pos))
        invariant start <= pos < |text|
        invariant good ==> pos - start <= |n|
        decreases |text| - pos
      {
        pos := pos + 1;
        if pos >= |text| {
          return "", true;
        }
      }
      name := text[start..pos];
      if good {
        NameRead(start, n, before, rest);
      }
      while true
        invariant start <= pos < |text|
        invariant good ==> start + |n| <= pos <= start + |n| + |before|
        decreases |text| - pos
      {
        var c := At(pos);
        pos := pos + 1;
        if c == '=' {
          break;
        }
        if pos >= |text| {
          return name, true;
        }
      }
    }

    /** The characters of a name, of white space and of the equals sign, as far as they are there. */
    lemma NameThen(i: nat, n: string, before: string, rest: string)
      requires IsName(n) && AllWhite(before) && Rest(i, n + (before + ("=" + rest)))
      ensures forall j {:trigger Char(j)} :: i <= j < i + |n| && j < |text| ==> Char(j) != '=' && !IsWhite(Char(j))
      ensures forall j {:trigger Char(j)} :: i + |n| <= j < i + |n| + |before| && j < |text| ==> Char(j) != '=' && IsWhite(Char(j))
      ensures i + |n| + |before| < |text| ==> Char(i + |n| + |before|) == '='
    {
      var s := n + (before + ("=" + rest));
      forall j {:trigger Char(j)} | i <= j <= i + |n| + |before| && j < |text|
        ensures Char(j) == s[j - i]
      {
        CharAt(i, s, j - i);
      }
    }

    lemma NameRead(i: nat, n: string, before: string, rest: string)
      requires Rest(i, n + (before + ("=" + rest)))
      ensures i + |n| <= |text| ==> text[i..i + |n|] == n
      ensures i + |n| + |before| < |text| ==> Rest(i + |n| + |before| + 1, rest)
    {
      if i + |n| <= |text| {
        Pass(i, n, before + ("=" + rest));
      }
      if i + |n| + |before| < |text| {
        assert n + (before + ("=" + rest)) == (n + before + "=") + rest;
        Pass(i, n + before + "=", rest);
      }
    }

    /** Reads a value in quotes, up to the closing one. */
    method Quoted(sep: char, ghost good: bool, ghost v: string, ghost rest: string) returns (value: string, fail: bool)
      requires pos < |text|
      requires good ==> sep !in v && Rest(pos, v + ([sep] + rest))
      modifies this`pos
      ensures old(pos) <= pos && (!fail ==> pos < |text|)
      ensures good ==> (fail <==> old(pos) + |v| >= |text|)
      ensures good && !fail ==> value == v && pos == old(pos) + |v| && Rest(pos, [sep] + rest)
    {
      var start := pos;
      fail := false;
      if good {
        ValueThen(pos, sep, v, rest);
      }
      while At(pos) != sep
        invariant start <= pos < |text|
        invariant good ==> pos - start <= |v|
        decreases |text| - pos
      {
        pos := pos + 1;
        if pos >= |text| {
          return "", true;
        }
      }
      if good {
        Pass(start, v, [sep] + rest);
      }
      value := text[start..pos];
    }

    lemma ValueThen(i: nat, sep: char, v: string, rest: string)
      requires sep !in v && Rest(i, v + ([sep] + rest))
      ensures forall j {:trigger Char(j)} :: i <= j < i + |v| && j < |text| ==> Char(j) != sep
      ensures i + |v| < |text| ==> Char(i + |v|) == sep
    {
      forall j {:trigger Char(j)} | i <= j <= i + |v| && j < |text|
        ensures Char(j) == (v + ([sep] + rest))[j - i]
      {
        CharAt(i, v + ([sep] + rest), j - i);
      }
      assert forall j :: 0 <= j < |v| ==> v[j] in v;
    }

    /** Reads the value of an attribute. */
    method AttValue(ghost good: bool, ghost after: string, ghost quote: char, ghost v: string, ghost rest: string) returns (value: string, fail: bool)
      requires pos <= |text|
      requires good ==> AllWhite(after) && (quote == '"' || quote == '\'') && quote !in v && Rest(pos, after + ([quote] + (v + ([quote] + rest))))
      modifies this`pos, this`past
      ensures old(pos) <= pos && (!fail ==> pos < |text|)
      ensures past <==> old(past) || old(pos) == |text|
      ensures good ==> (fail <==> old(pos) + |after| + 1 + |v| >= |text|)
      ensures good && !fail ==> value == v && pos == old(pos) + |after| + 1 + |v| && Rest(pos, [quote] + rest)
    {
      hide Rest, Char, IsWhite, AllWhite;
      fail := false;
      Behind(pos);
      NotWhite();
      if good {
        AfterThen(pos, after, quote, v + ([quote] + rest));
      }
      past := past || pos >= |text|;
      while IsWhite(At(pos))
        invariant old(pos) <= pos <= |text| && (pos < |text| || (past && pos == old(pos)))
        invariant good ==> pos - old(pos) <= |after|
        modifies this`pos
        decreases |text| - pos
      {
        pos := pos + 1;
        if pos >= |text| {
          return "", true;
        }
      }
      var sep := At(pos);
      if sep == '\'' || sep == '"' {
        pos := pos + 1;
        if pos >= |text| {
          return "", true;
        }
        value, fail := Quoted(sep, good, v, rest);
      } else {
        value, fail := Unquoted();
      }
    }

    lemma NotWhite()
      ensures !IsWhite('\0') && !IsWhite('"') && !IsWhite('\'')
    {
    }

    lemma AfterThen(i: nat, after: string, quote: char, rest: string)
      requires AllWhite(after) && Rest(i, after + ([quote] + rest))
      ensures forall j {:trigger Char(j)} :: i <= j < i + |after| && j < |text| ==> IsWhite(Char(j))
      ensures i + |after| < |text| ==> Char(i + |after|) == quote && Rest(i + |after| + 1, rest)
    {
      var s := after + ([quote] + rest);
      forall j {:trigger Char(j)} | i <= j <= i + |after| && j < |text|
        ensures Char(j) == s[j - i]
      {
        CharAt(i, s, j - i);
      }
      if i + |after| < |text| {
        assert s == (after + [quote]) + rest;
        Pass(i, after + [quote], rest);
      }
    }

    /** Reads a value up to a blank or the end of the tag. */
    method Unquoted() returns (value: string, fail: bool)
      requires pos < |text| || (pos == |text| && past)
      modifies this`pos
      ensures old(pos) <= pos && (!fail ==> pos < |text|)
      ensures old(pos) == |text| ==> fail
    {
      fail := false;
      var start := pos;
      while !IsWhite(At(pos)) && At(pos) != '>' && At(pos) != '/'
        invariant start <= pos <= |text| && (pos < |text| || (pos == start && past))
        decreases |text| - pos
      {
        pos := pos + 1;
        if pos >= |text| {
          return "", true;
        }
      }
      value := text[start..pos];
    }

    /** The white space in front of the next attribute, or of the end of the tag. */
    static ghost function Lead(atts: seq<Attribute>, end: string): (s: string) {
      if atts == [] then end else atts[0].style.blank
    }

    /** What stands behind it. */
    static ghost function Core(atts: seq<Attribute>, end: string, rest: string): (s: string) {
      if atts == [] then rest else BareText(atts[0]) + (AttributesText(atts[1..]) + (end + rest))
    }

    lemma LeadCore(atts: seq<Attribute>, end: string, rest: string)
      ensures AttributesText(atts) + (end + rest) == Lead(atts, end) + Core(atts, end, rest)
      ensures |AttributesText(atts)| == if atts == [] then 0 else |atts[0].style.blank| + |BareText(atts[0])| + |AttributesText(atts[1..])|
    {
      hide BareText;
      if atts == [] {
        assert AttributesText(atts) + (end + rest) == end + rest;
      } else {
        LeadJoined(atts[0].style.blank, BareText(atts[0]), AttributesText(atts[1..]), end + rest);
      }
    }

    lemma LeadJoined(a: string, b: string, c: string, d: string)
      ensures a + b + c + d == a + (b + (c + d))
    {
    }

    /** Where the reading of attributes stands: behind `d` characters of the white space in front of the next one. */
    ghost predicate AttRest(i: nat, d: nat, atts: seq<Attribute>, end: string, rest: string) {
      && AttributesOk(atts) && AllWhite(end) && rest != "" && (rest[0] == '/' || rest[0] == '>')
      && d <= |Lead(atts, end)| && Rest(i, Lead(atts, end)[d..] + Core(atts, end, rest))
    }

    /** In front of the name of an attribute. */
    ghost predicate AtName(i: nat, atts: seq<Attribute>, end: string, rest: string) {
      && atts != [] && AttributesOk(atts) && AllWhite(end) && rest != "" && (rest[0] == '/' || rest[0] == '>')
      && Rest(i, BareText(atts[0]) + (AttributesText(atts[1..]) + (end + rest)))
    }

    /** One attribute, from its name to its closing quote. */
    method OneAttribute(ghost good: bool, ghost atts: seq<Attribute>, ghost end: string, ghost rest: string) returns (fail: bool)
      requires pos < |text| && (good ==> AtName(pos, atts, end, rest))
      modifies this
      ensures old(pos) <= pos && (!fail ==> pos < |text|)
      ensures past ==> old(past) || AtEdge()
      ensures good ==> (past <==> old(past) || old(pos) + |atts[0].name| + |atts[0].style.before| + 1 == |text|)
      ensures good ==> (fail <==> old(pos) + |BareText(atts[0])| - 1 >= |text|)
      ensures good && !fail ==> pos == old(pos) + |BareText(atts[0])| - 1 && AttRest(pos + 1, 0, atts[1..], end, rest)
      ensures fail ==> events == old(events)
      ensures good && !fail ==> events == old(events) + [Att(atts[0].name, atts[0].value)]
    {
      hide Rest, BareText, AttributesText, IsName, AllWhite, Core, Lead, Char, AttributesOk, AttRest;
      ghost var n, v, more, style := "", "", "", Style("", "", "", '"');
      if good {
        n, v, more, style := atts[0].name, atts[0].value, AttributesText(atts[1..]) + (end + rest), atts[0].style;
        BareParts(atts[0], more);
        AttOkAt(atts);
      }
      var name, value;
      name, fail := AttName(good, n, style.before, style.after + ([style.quote] + (v + ([style.quote] + more))));
      if fail {
        return;
      }
      value, fail := AttValue(good, style.after, style.quote, v, more);
      if fail {
        return;
      }
      events := events + [Att(name, value)];
      if good {
        Pass(pos, [style.quote], more);
        NextAtts(pos + 1, atts[1..], end, rest);
      }
    }

    lemma AttOkAt(atts: seq<Attribute>)
      requires atts != [] && AttributesOk(atts)
      ensures AttributesOk(atts[1..]) && IsName(atts[0].name) && StyleOk(atts[0].style) && atts[0].style.quote !in atts[0].value
    {
      assert AttributeOk(atts[0]);
    }

    lemma NextAtts(i: nat, atts: seq<Attribute>, end: string, rest: string)
      requires AttributesOk(atts) && AllWhite(end) && rest != "" && (rest[0] == '/' || rest[0] == '>')
      requires Rest(i, AttributesText(atts) + (end + rest))
      ensures AttRest(i, 0, atts, end, rest)
    {
      hide AttributesText, Core, Lead, Rest;
      LeadCore(atts, end, rest);
      assert Lead(atts, end)[0..] == Lead(atts, end);
    }

    lemma BareParts(a: Attribute, more: string)
      ensures BareText(a) + more
              == a.name + (a.style.before + ("=" + (a.style.after + ([a.style.quote] + (a.value + ([a.style.quote] + more))))))
      ensures |BareText(a)| == |a.name| + |a.style.before| + |a.style.after| + |a.value| + 3
    {
      BareJoined(a.name, a.style.before, "=", a.style.after, [a.style.quote], a.value, more);
    }

    lemma BareJoined(a: string, b: string, c: string, d: string, q: string, v: string, more: string)
      ensures a + (b + (c + (d + (q + (v + q))))) + more == a + (b + (c + (d + (q + (v + (q + more))))))
    {
      assert (v + q) + more == v + (q + more);
      assert (d + (q + (v + q))) + more == d + (q + ((v + q) + more));
      assert (b + (c + (d + (q + (v + q))))) + more == b + (c + ((d + (q + (v + q))) + more));
    }

    lemma AttFirst(i: nat, d: nat, atts: seq<Attribute>, end: string, rest: string)
      requires AttRest(i, d, atts, end, rest) && i < |text|
      ensures rest != "" && (rest[0] == '/' || rest[0] == '>') && d <= |Lead(atts, end)|
      ensures d < |Lead(atts, end)| ==> IsWhite(Char(i)) && AttRest(i + 1, d + 1, atts, end, rest)
      ensures d == |Lead(atts, end)| && atts == [] ==> Char(i) == rest[0] && Rest(i, rest)
      ensures d == |Lead(atts, end)| && atts != [] ==> IsNameChar(Char(i)) && AtName(i, atts, end, rest)
    {
      var lead, core := Lead(atts, end), Core(atts, end, rest);
      if d < |lead| {
        LeadWhite(atts, end);
        hide Lead, Core, AttributesOk, AllWhite, IsWhite;
        assert lead[d..] + core == [lead[d]] + (lead[d + 1..] + core);
        CharAt(i, [lead[d]] + (lead[d + 1..] + core), 0);
        Pass(i, [lead[d]], lead[d + 1..] + core);
      } else {
        assert lead[d..] + core == core;
        if atts == [] {
          CharAt(i, rest, 0);
        } else {
          AttInside(i, atts, AttributesText(atts[1..]) + (end + rest));
        }
      }
    }

    lemma LeadWhite(atts: seq<Attribute>, end: string)
      requires AttributesOk(atts) && AllWhite(end)
      ensures forall j :: 0 <= j < |Lead(atts, end)| ==> IsWhite(Lead(atts, end)[j])
    {
      if atts != [] {
        assert AttributeOk(atts[0]);
      }
    }

    lemma AttInside(i: nat, atts: seq<Attribute>, more: string)
      requires atts != [] && AttributesOk(atts) && Rest(i, BareText(atts[0]) + more) && i < |text|
      ensures IsNameChar(Char(i))
    {
      assert AttributeOk(atts[0]);
      BareParts(atts[0], more);
      hide AttributesText, BareText, AttributeOk, Rest, Char;
      CharAt(i, BareText(atts[0]) + more, 0);
    }

    /** The reading of attributes that began at `start` has come to attribute `k`. */
    ghost predicate AttState(start: nat, i: nat, k: nat, d: nat, atts: seq<Attribute>, end: string, rest: string) {
      && k <= |atts| && AttRest(i, d, atts[k..], end, rest) && d <= i
      && start + |AttributesText(atts)| == i - d + |AttributesText(atts[k..])|
      && (EqualsCut(atts, |text| - start) <==> EqualsCut(atts[k..], |text| - (i - d)))
    }

    lemma AttStarts(start: nat, atts: seq<Attribute>, end: string, rest: string)
      requires AttRest(start, 0, atts, end, rest)
      ensures AttState(start, start, 0, 0, atts, end, rest)
    {
      hide AttRest;
      assert atts[0..] == atts;
    }

    lemma AttOpens(start: nat, i: nat, k: nat, d: nat, atts: seq<Attribute>, end: string, rest: string)
      requires AttState(start, i, k, d, atts, end, rest) && i < |text|
      ensures rest != "" && (rest[0] == '/' || rest[0] == '>') && k <= |atts| && d <= |Lead(atts[k..], end)|
      ensures d < |Lead(atts[k..], end)| ==> IsWhite(Char(i)) && AttState(start, i + 1, k, d + 1, atts, end, rest)
      ensures d == |Lead(atts[k..], end)| && k == |atts| ==> Char(i) == rest[0] && Rest(i, rest) && i == start + |AttributesText(atts)| + |end|
      ensures d == |Lead(atts[k..], end)| && k == |atts| ==> !EqualsCut(atts, |text| - start)
      ensures d == |Lead(atts[k..], end)| && k < |atts| ==> IsNameChar(Char(i)) && AtName(i, atts[k..], end, rest)
    {
      hide AttRest, AtName;
      AttFirst(i, d, atts[k..], end, rest);
    }

    lemma AttCloses(start: nat, i: nat, k: nat, d: nat, atts: seq<Attribute>, end: string, rest: string)
      requires AttState(start, i, k, d, atts, end, rest) && k < |atts| && d == |Lead(atts[k..], end)| && i + |BareText(atts[k])| - 1 < |text|
      requires AttRest(i + |BareText(atts[k])|, 0, atts[k + 1..], end, rest)
      ensures i + |atts[k].name| + |atts[k].style.before| + 1 != |text|
      ensures AttState(start, i + |BareText(atts[k])|, k + 1, 0, atts, end, rest)
    {
      hide AttRest;
      assert atts[k..][1..] == atts[k + 1..];
      BareParts(atts[k], "");
      LeadCore(atts[k..], end, rest);
      hide BareText, AttributesText;
    }

    lemma AttFails(start: nat, i: nat, k: nat, d: nat, atts: seq<Attribute>, end: string, rest: string)
      requires AttState(start, i, k, d, atts, end, rest) && k < |atts| && d == |Lead(atts[k..], end)| && |text| <= i + |BareText(atts[k])| - 1
      ensures EqualsCut(atts, |text| - start) <==> i + |atts[k].name| + |atts[k].style.before| + 1 == |text|
      ensures |text| <= start + |AttributesText(atts)|
    {
      hide AttRest, BareText;
      LeadCore(atts[k..], end, rest);
      var m := |text| - (i - d);
      EqualsLow(atts[k..][1..], m - |AttributeText(atts[k])|);
    }

    lemma AttEnds(start: nat, i: nat, k: nat, d: nat, atts: seq<Attribute>, end: string, rest: string)
      requires AttState(start, i, k, d, atts, end, rest) && i >= |text|
      ensures !EqualsCut(atts, |text| - start) && |text| <= start + |AttributesText(atts)| + |end|
    {
      hide BareText;
      LeadCore(atts[k..], end, rest);
      if k < |atts| {
        EqualsLow(atts[k..][1..], |text| - (i - d) - |AttributeText(atts[k])|);
      }
    }

    /** Reads attributes up to the end of the tag. */
    method ParseAtt(ghost good: bool, ghost atts: seq<Attribute>, ghost end: string, ghost rest: string) returns (fail: bool)
      requires good ==> AttRest(pos, 0, atts, end, rest)
      modifies this
      ensures old(pos) <= pos && (!fail ==> pos < |text|)
      ensures past ==> old(past) || AtEdge()
      ensures good ==> (past <==> old(past) || EqualsCut(atts, |text| - old(pos)))
      ensures good ==> (fail <==> old(pos) + |AttributesText(atts)| + |end| >= |text|)
      ensures good && !fail ==> pos == old(pos) + |AttributesText(atts)| + |end| && Rest(pos, rest) && events == old(events) + AttributeEvents(atts)
      ensures good && fail ==> events <= old(events) + AttributeEvents(atts)
    {
      hide *;
      ghost var k, d := 0, 0;
      NoEvents(events, atts);
      if good {
        AttStarts(pos, atts, end, rest);
      }
      while pos < |text|
        invariant old(pos) <= pos && (past ==> old(past) || AtEdge())
        invariant good ==> k <= |atts| && AttState(old(pos), pos, k, d, atts, end, rest)
        invariant good ==> past == old(past) && events == old(events) + AttributeEvents(atts[..k])
        decreases |text| - pos
      {
        if good {
          AttOpens(old(pos), pos, k, d, atts, end, rest);
          SomeEvents(old(events), atts, k);
        }
        Stops(At(pos));
        if At(pos) == '/' || At(pos) == '>' {
          return false;
        }
        if !IsWhite(At(pos)) {
          ghost var here := pos;
          fail := OneAttribute(good, atts[if k < |atts| then k else 0..], end, rest);
          if good {
            if fail {
              AttFails(old(pos), here, k, d, atts, end, rest);
            } else {
              assert atts[k..][1..] == atts[k + 1..];
              AttCloses(old(pos), here, k, d, atts, end, rest);
              MoreEvents(old(events), atts, k);
              k, d := k + 1, 0;
            }
          }
          if fail {
            return true;
          }
        } else if good {
          d := d + 1;
        }
        pos := pos + 1;
      }
      if good {
        AttEnds(old(pos), pos, k, d, atts, end, rest);
        SomeEvents(old(events), atts, k);
      }
      fail := true;
    }

    lemma Stops(c: char)
      ensures IsNameChar(c) ==> !IsWhite(c) && c != '/' && c != '>' && c != ':'
      ensures IsWhite(c) ==> c != '/' && c != '>'
    {
    }

    lemma SomeEvents(es: seq<Event>, atts: seq<Attribute>, k: nat)
      requires k <= |atts|
      ensures es + AttributeEvents(atts[..k]) <= es + AttributeEvents(atts) && (k == |atts| ==> atts[..k] == atts)
    {
      AttEventsPrefix(atts, k);
    }

    lemma {:induction false} AttEventsPrefix(atts: seq<Attribute>, k: nat)
      requires k <= |atts|
      ensures AttributeEvents(atts[..k]) <= AttributeEvents(atts)
      decreases |atts|
    {
      if k > 0 {
        assert atts[..k][1..] == atts[1..][..k - 1];
        AttEventsPrefix(atts[1..], k - 1);
      }
    }

    lemma NoEvents(es: seq<Event>, atts: seq<Attribute>)
      ensures es == es + AttributeEvents(atts[..0]) && atts[0..] == atts
    {
    }

    lemma MoreEvents(es: seq<Event>, atts: seq<Attribute>, k: nat)
      requires k < |atts|
      ensures es + AttributeEvents(atts[..k]) + [Att(atts[k].name, atts[k].value)] == es + AttributeEvents(atts[..k + 1])
    {
      AttEventsAppend(atts[..k], atts[k]);
      assert atts[..k + 1] == atts[..k] + [atts[k]];
    }

    lemma {:induction false} AttEventsAppend(atts: seq<Attribute>, a: Attribute)
      ensures AttributeEvents(atts + [a]) == AttributeEvents(atts) + [Att(a.name, a.value)]
    {
      if atts != [] {
        assert (atts + [a])[1..] == atts[1..] + [a];
        AttEventsAppend(atts[1..], a);
      }
    }

    // ----- elements

    /** From index `i` on, the name of an element runs to the end of the text, and the last colon it skips is the last character. */
    ghost predicate ColonLast(i: nat)
      decreases |text| - i
    {
      && i + 1 < |text| && !Stop(text[i])
      && if text[i + 1] == ':' then i + 2 == |text| || ColonLast(i + 2) else ColonLast(i + 1)
    }

    /** Reads the name of an element, without its namespace. */
    method ElementName(ghost good: bool, ghost tag: Tag, ghost rest: string) returns (name: string, fail: bool)
      requires pos < |text|
      requires good ==> TagOk(tag) && Rest(pos, FullName(tag) + rest) && rest != "" && Stop(rest[0])
      modifies this`pos, this`past
      ensures old(pos) <= pos && (!fail ==> pos < |text| && Stop(text[pos]))
      ensures past <==> old(past) || ColonLast(old(pos))
      ensures past ==> old(past) || AtEdge()
      ensures good ==> (past <==> old(past) || (tag.prefix != "" && old(pos) + |tag.prefix| + 1 == |text|))
      ensures good ==> (fail <==> old(pos) + |FullName(tag)| >= |text|)
      ensures good && !fail ==> name == tag.name && pos == old(pos) + |FullName(tag)| && Rest(pos, rest)
      ensures Char(old(pos)) == '/' ==> !fail && name == "" && pos == old(pos) && past == old(past)
    {
      hide *;
      fail := false;
      ghost var hit := false;
      var start, i := pos, 0;
      NameSize(tag);
      ColonStep(pos);
      while !Stop(At(pos))
        invariant old(pos) <= start && start + i == pos && 0 <= i && (if hit then pos == |text| && AtEdge() else pos < |text|)
        invariant (past <==> old(past) || hit) && (ColonLast(old(pos)) <==> hit || ColonLast(pos))
        invariant pos > old(pos) ==> !Stop(Char(old(pos)))
        invariant good ==> InName(tag, pos - old(pos), start - old(pos)) && (hit ==> tag.prefix != "" && pos == old(pos) + |tag.prefix| + 1)
        decreases |text| + 1 - pos
      {
        if !hit {
          ColonStep(pos);
          if good {
            NameMove(old(pos), tag, rest, pos - old(pos), start - old(pos));
          }
        }
        i := i + 1;
        pos := pos + 1;
        if pos >= |text| {
          StopSlash();
          return "", true;
        }
        if At(pos) == ':' {
          i := 0;
          pos := pos + 1;
          start := pos;
          past := past || pos >= |text|;
          hit := pos >= |text|;
        }
      }
      Behind(pos);
      StopSlash();
      ColonStep(pos);
      if good {
        NameDone(old(pos), tag, rest, pos - old(pos), start - old(pos));
      }
      name := text[start..start + i];
    }

    /** A character that ends the name of an element. */
    static predicate Stop(c: char) {
      IsWhite(c) || c == '>' || c == '/'
    }

    lemma StopSlash()
      ensures Stop('/') && !Stop('\0')
    {
    }

    /** The `j` characters of a name that have been read leave the prefix and its colon behind, or not yet. */
    ghost predicate InName(tag: Tag, j: int, s: int) {
      var first := if tag.prefix == "" then 0 else |tag.prefix| + 1;
      0 <= j <= first + |tag.name| && j != first - 1 && s == if j < first then 0 else first
    }

    lemma NameMove(i: nat, tag: Tag, rest: string, j: nat, s: int)
      requires TagOk(tag) && Rest(i, FullName(tag) + rest) && rest != "" && Stop(rest[0])
      requires InName(tag, j, s) && i + j < |text| && !Stop(Char(i + j))
      ensures tag.name != "" && j + 1 <= |FullName(tag)| && (tag.prefix != "" ==> |tag.prefix| + 1 < |FullName(tag)|)
      ensures i + j + 1 >= |text| ==> !(tag.prefix != "" && i + |tag.prefix| + 1 == |text|)
      ensures i + j + 1 < |text| ==> if Char(i + j + 1) == ':' then InName(tag, j + 2, j + 2) && tag.prefix != "" && j + 2 == |tag.prefix| + 1
                                     else InName(tag, j + 1, s)
    {
      NameSize(tag);
      NameStep(i, tag, rest, j);
      hide Char, Rest, TagOk, FullName;
    }

    lemma NameDone(i: nat, tag: Tag, rest: string, j: nat, s: int)
      requires TagOk(tag) && Rest(i, FullName(tag) + rest) && rest != "" && Stop(rest[0])
      requires InName(tag, j, s) && i + j < |text| && Stop(Char(i + j))
      ensures j == |FullName(tag)| && 0 <= s <= j && text[i + s..i + j] == tag.name && Rest(i + j, rest)
      ensures !(tag.prefix != "" && i + |tag.prefix| + 1 == |text|)
    {
      NameSize(tag);
      NameChars(i, tag, rest, j);
      NameEnd(i, tag, rest);
      hide Char, Rest, TagOk, FullName;
    }

    lemma ColonStep(i: nat)
      ensures ColonLast(i) <==> (&& i + 1 < |text| && !Stop(Char(i))
                                 && if Char(i + 1) == ':' then i + 2 == |text| || ColonLast(i + 2) else ColonLast(i + 1))
      ensures i + 1 < |text| && Char(i + 1) == ':' && i + 2 == |text| ==> AtEdge()
    {
    }

    lemma NameSize(tag: Tag)
      ensures |FullName(tag)| == (if tag.prefix == "" then 0 else |tag.prefix| + 1) + |tag.name| && InName(tag, 0, 0)
    {
    }

    /** No colon is skipped where there is none. */
    lemma NoColon(i: nat)
      requires forall j :: i <= j < |text| ==> text[j] != ':'
      ensures !ColonLast(i)
      decreases |text| - i
    {
      if i + 1 < |text| {
        NoColon(i + 1);
      }
    }

    /** The characters of the name of a tag and the one behind it. */
    lemma NameChars(i: nat, tag: Tag, rest: string, j: nat)
      requires TagOk(tag) && Rest(i, FullName(tag) + rest) && rest != "" && Stop(rest[0])
      ensures var first := if tag.prefix == "" then 0 else |tag.prefix| + 1;
              && |tag.name| > 0
              && (j < first + |tag.name| && j != first - 1 && i + j < |text| ==> IsNameChar(Char(i + j)))
              && (j == first - 1 && i + j < |text| ==> Char(i + j) == ':')
              && (j == first + |tag.name| && i + j < |text| ==> Char(i + j) == rest[0])
    {
      CharAt(i, FullName(tag) + rest, j);
    }

    /** Behind a character of the name comes another one, or the colon of the prefix, or the end. */
    lemma NameStep(i: nat, tag: Tag, rest: string, j: nat)
      requires TagOk(tag) && Rest(i, FullName(tag) + rest) && rest != "" && Stop(rest[0])
      requires var first := if tag.prefix == "" then 0 else |tag.prefix| + 1;
               j <= first + |tag.name| && j != first - 1 && i + j < |text|
      requires !IsWhite(Char(i + j)) && Char(i + j) != '>' && Char(i + j) != '/'
      ensures var first := if tag.prefix == "" then 0 else |tag.prefix| + 1;
              j < first + |tag.name| && |tag.name| > 0 && (i + j + 1 < |text| ==> (Char(i + j + 1) == ':' <==> j + 1 == first - 1))
    {
      NameChars(i, tag, rest, j);
      NameChars(i, tag, rest, j + 1);
      hide Char, Rest, TagOk, FullName;
    }

    lemma NameEnd(i: nat, tag: Tag, rest: string)
      requires Rest(i, FullName(tag) + rest) && i + |FullName(tag)| <= |text|
      ensures var first := if tag.prefix == "" then 0 else |tag.prefix| + 1;
              i + first + |tag.name| <= |text| && text[i + first..i + first + |tag.name|] == tag.name && Rest(i + first + |tag.name|, rest)
    {
      hide *;
      NameSize(tag);
      NameSplit(tag, rest);
      var before := if tag.prefix == "" then "" else tag.prefix + ":";
      Pass(i, before, tag.name + rest);
      Pass(i + |before|, tag.name, rest);
    }

    lemma NameSplit(tag: Tag, rest: string)
      ensures FullName(tag) + rest == (if tag.prefix == "" then "" else tag.prefix + ":") + (tag.name + rest)
    {
      if tag.prefix == "" {
        assert "" + (tag.name + rest) == tag.name + rest;
      } else {
        assert tag.prefix + ":" + tag.name + rest == tag.prefix + ":" + (tag.name + rest);
      }
    }

    /** Reads a closing tag from behind its slash on. */
    method CloseTag(ghost good: bool, ghost n: string, ghost rest: string) returns (fail: bool)
      requires pos <= |text|
      requires good ==> NameOk(n) && Rest(pos, n + (">" + rest))
      modifies this`pos, this`events
      ensures old(pos) <= pos && (!fail ==> old(pos) < pos <= |text|)
      ensures good ==> (fail <==> old(pos) + |n| >= |text|)
      ensures good && !fail ==> events == old(events) + [End(n)] && pos == old(pos) + |n| + 1 && Rest(pos, rest)
      ensures fail ==> events == old(events)
    {
      fail := false;
      var start := pos;
      if good {
        CloseThen(pos, n, rest);
      }
      if pos >= |text| {
        return true;
      }
      while At(pos) != '>'
        invariant start <= pos < |text|
        invariant good ==> pos - start <= |n|
        modifies this`pos
        decreases |text| - pos
      {
        pos := pos + 1;
        if pos >= |text| {
          return true;
        }
      }
      if good {
        Pass(start, n, ">" + rest);
        Pass(pos, ">", rest);
      }
      events := events + [End(text[start..pos])];
      pos := pos + 1;
    }

    lemma CloseThen(i: nat, n: string, rest: string)
      requires NameOk(n) && Rest(i, n + (">" + rest))
      ensures forall j {:trigger Char(j)} :: i <= j < i + |n| && j < |text| ==> Char(j) != '>'
      ensures i + |n| < |text| ==> Char(i + |n|) == '>'
    {
      forall j {:trigger Char(j)} | i <= j <= i + |n| && j < |text|
        ensures Char(j) == (n + (">" + rest))[j - i]
      {
        CharAt(i, n + (">" + rest), j - i);
      }
      assert forall j :: 0 <= j < |n| ==> n[j] in n;
    }

    /** From index `i` on there is nothing but white space, and at least some, in front of a last `<`. */
    ghost predicate BlankBeforeLast(i: nat) {
      i + 1 < |text| && text[|text| - 1] == '<' && forall j :: i <= j < |text| - 1 ==> IsWhite(text[j])
    }

    /** Passes over white space. */
    method SkipWhite() returns (fail: bool)
      requires pos < |text|
      modifies this`pos
      ensures old(pos) <= pos <= |text| && (forall j :: old(pos) <= j < pos ==> IsWhite(text[j]))
      ensures if fail then pos == |text| else pos < |text| && !IsWhite(text[pos])
    {
      fail := false;
      while IsWhite(At(pos))
        invariant old(pos) <= pos < |text| && (forall j :: old(pos) <= j < pos ==> IsWhite(text[j]))
        decreases |text| - pos
      {
        pos := pos + 1;
        if pos >= |text| {
          return true;
        }
      }
    }

    /** Reads text up to the next tag and reports it in front of a closing one; it began at `data`. */
    method TextData(data: nat) returns (fail: bool)
      requires data <= pos < |text|
      modifies this
      ensures old(pos) <= pos && (!fail ==> pos < |text|)
      ensures fail <==> forall j :: old(pos) <= j < |text| && (j == old(pos) || j + 1 < |text|) ==> text[j] != '<'
      ensures !fail ==> text[pos] == '<' && forall j :: old(pos) <= j < pos ==> text[j] != '<'
      ensures past <==> old(past) || (data < old(pos) == |text| - 1 && text[old(pos)] == '<')
      ensures events == old(events) + if !fail && data < pos && pos + 1 < |text| && text[pos + 1] == '/' then [Data(text[data..pos])] else []
    {
      fail := false;
      while At(pos) != '<'
        invariant old(pos) <= pos < |text| && (pos == old(pos) || pos + 1 < |text|)
        invariant forall j :: old(pos) <= j < pos ==> text[j] != '<'
        modifies this`pos
        decreases |text| - pos
      {
        pos := pos + 1;
        if pos + 1 >= |text| {
          return true;
        }
      }
      if pos > data {
        past := past || pos + 1 >= |text|;
        if At(pos + 1) == '/' {
          events := events + [Data(text[data..pos])];
        }
      }
    }

    /** The characters of a text and of the tag behind it, as far as they are there. */
    lemma TextThen(data: nat, t: string, rest: string)
      requires '<' !in t && Rest(data, t + rest) && |rest| >= 2 && rest[0] == '<'
      ensures forall i {:trigger text[i]} :: data <= i < data + |t| && i < |text| ==> text[i] == t[i - data] && text[i] != '<'
      ensures data + |t| < |text| ==> text[data + |t|] == '<' && text[data..data + |t|] == t && Rest(data + |t|, rest)
      ensures data + |t| + 1 < |text| ==> text[data + |t| + 1] == rest[1]
      ensures data + |t| + 1 >= |text| ==> tail != ""
    {
      CharAt(data, t + rest, |t|);
      CharAt(data, t + rest, |t| + 1);
      forall i {:trigger text[i]} | data <= i < data + |t| && i < |text|
        ensures text[i] == t[i - data] && text[i] != '<'
      {
        CharAt(data, t + rest, i - data);
        assert t[i - data] in t;
      }
      if data + |t| < |text| {
        Pass(data, t, rest);
      }
    }

    /** What may stand behind the content of an element: a tag or a comment. */
    static predicate Follows(rest: string) {
      |rest| >= 2 && rest[0] == '<' && (rest[1] == '!' ==> |rest| >= 3 && rest[2] == '-')
    }

    /** Reads the content behind an opening tag. */
    method ElementData(ghost good: bool, ghost c: Content, ghost rest: string) returns (fail: bool)
      requires pos <= |text|
      requires good ==> ContentOk(c) && Rest(pos, ContentText(c) + rest) && Follows(rest) && (c.Cdata? ==> tail == "")
      modifies this
      ensures old(pos) <= pos && (!fail ==> pos <= |text|)
      ensures past <==> old(past) || BlankBeforeLast(old(pos))
      ensures past ==> old(past) || AtEdge()
      ensures good ==> (past <==> old(past) || (c.Chars? && c.text != "" && AllWhite(c.text) && old(pos) + |c.text| + 1 == |text|))
      ensures good ==> (fail ==> tail != "" && old(pos) + |ContentText(c)| + 1 >= |text|)
      ensures good && !fail ==> pos == old(pos) + |ContentText(c)| && Rest(pos, rest)
      ensures good && !fail ==> events == old(events) + ContentEvents(c, rest[1] == '/' && pos + 1 < |text|)
      ensures good && fail ==> events == old(events)
      ensures good && old(pos) + |ContentText(c)| + 1 >= |text| ==> tail != ""
    {
      hide *;
      fail := false;
      var data := pos;
      if good {
        ContentThen(pos, c, rest);
      }
      BlankNone(data);
      if pos >= |text| {
        return true;
      }
      fail := SkipWhite();
      BlankIs(data, pos);
      if good {
        WhiteContent(data, c, rest, pos);
      }
      if fail {
        return;
      }
      if |text| >= pos + 12 && Looking(pos, "<![CDATA[") {
        CdataAhead(data, pos);
        if good && c.Chars? {
          NotCdata(data, c.text, rest, pos);
        } else if good {
          CdataParts(data, c, rest);
        }
        fail := ReadCdata(good && c.Cdata?, if c.Cdata? then c.body else "", if c.Cdata? then c.after else "", rest);
      } else {
        fail := TextData(data);
      }
    }

    lemma BlankNone(data: nat)
      ensures data >= |text| ==> !BlankBeforeLast(data)
      ensures text != "" && text[|text| - 1] == '<' ==> AtEdge()
    {
    }

    /** When white space has been passed over, the next character tells. */
    lemma BlankIs(data: nat, i: nat)
      requires data <= i <= |text| && (forall j :: data <= j < i ==> IsWhite(text[j])) && (i < |text| ==> !IsWhite(text[i]))
      ensures BlankBeforeLast(data) <==> data < i == |text| - 1 && text[i] == '<'
    {
      if BlankBeforeLast(data) {
        assert i >= |text| - 1;
        assert !IsWhite('<');
      }
    }

    /** What is there of the content. */
    lemma ContentThen(i: nat, c: Content, rest: string)
      requires ContentOk(c) && Rest(i, ContentText(c) + rest) && Follows(rest)
      ensures i + |ContentText(c)| + 1 >= |text| ==> tail != ""
      ensures |rest| >= 2 && rest[0] == '<' && !IsWhite('<')
      ensures c.Chars? ==> && (forall j {:trigger text[j]} :: i <= j < i + |c.text| && j < |text| ==> text[j] == c.text[j - i] && text[j] != '<')
                           && (i + |c.text| < |text| ==> text[i + |c.text|] == '<' && text[i..i + |c.text|] == c.text && Rest(i + |c.text|, rest))
                           && (i + |c.text| + 1 < |text| ==> text[i + |c.text| + 1] == rest[1])
                           && (c.text != "" && AllWhite(c.text) && i + |c.text| + 1 == |text| <==> BlankBeforeLast(i))
                           && '<' !in c.text && ContentText(c) == c.text
      ensures forall closes :: ContentEvents(c, closes) == if c.Chars? then (if c.text != "" && closes then [Data(c.text)] else []) else ContentEvents(c, true)
      ensures c.Cdata? ==> ContentEvents(c, true) == (if c.body != "" then [Data(c.body)] else []) && Unbroken(c.body, "]]>") && '<' !in c.after
    {
      CharAt(i, ContentText(c) + rest, 0);
      if c.Chars? {
        TextThen(i, c.text, rest);
        WhiteThen(i, c.text, rest);
      }
    }

    lemma WhiteContent(data: nat, c: Content, rest: string, i: nat)
      requires ContentOk(c) && Rest(data, ContentText(c) + rest) && Follows(rest) && (c.Cdata? ==> tail == "")
      requires data <= i <= |text| && (forall j :: data <= j < i ==> IsWhite(text[j])) && (i < |text| ==> !IsWhite(text[i]))
      ensures c.Chars? ==> i <= data + |c.text| && (i < |text| ==> (AllWhite(c.text) <==> i == data + |c.text|))
      ensures c.Cdata? ==> i + 12 <= |text| && i == data + |c.before| && Looking(i, "<![CDATA[")
    {
      if c.Chars? {
        WhitePart(data, c.text, rest, i);
      } else {
        CdataThere(data, c, rest);
        hide Rest, ContentOk, Unbroken;
        assert forall j :: data <= j < data + |c.before| ==> IsWhite(text[j]);
        assert text[data + |c.before|] == '<';
      }
    }

    /** The beginning of a CDATA section is not white. */
    lemma CdataAhead(data: nat, i: nat)
      requires Looking(i, "<![CDATA[") && data <= i && |text| >= i + 12
      ensures !BlankBeforeLast(data)
    {
      assert text[i..i + 9][0] == '<';
      assert text[i] == '<';
    }

    lemma CdataJoined(a: string, b: string, c: string, d: string, e: string, rest: string)
      ensures a + (b + (c + (d + e))) + rest == a + (b + (c + (d + (e + rest))))
    {
      assert (c + (d + e)) + rest == c + (d + (e + rest));
      assert (b + (c + (d + e))) + rest == b + ((c + (d + e)) + rest);
    }

    lemma CdataParts(data: nat, c: Content, rest: string)
      requires c.Cdata? && Rest(data, ContentText(c) + rest) && tail == ""
      ensures data + |ContentText(c)| + |rest| == |text| && |ContentText(c)| == |c.before| + |c.body| + |c.after| + 12
      ensures Rest(data + |c.before|, "<![CDATA[" + (c.body + ("]]>" + (c.after + rest)))) && text[data..data + |c.before|] == c.before
    {
      CharAt(data, ContentText(c) + rest, 0);
      CdataJoined(c.before, "<![CDATA[", c.body, "]]>", c.after, rest);
      hide ContentText;
      Pass(data, c.before, "<![CDATA[" + (c.body + ("]]>" + (c.after + rest))));
    }

    lemma CdataThere(data: nat, c: Content, rest: string)
      requires c.Cdata? && ContentOk(c) && Rest(data, ContentText(c) + rest) && |rest| >= 2 && tail == ""
      ensures var i := data + |c.before|;
              i + 12 <= |text| && Looking(i, "<![CDATA[") && text[i] == '<' && forall j :: data <= j < i ==> IsWhite(text[j])
    {
      CdataParts(data, c, rest);
      var i := data + |c.before|;
      Pass(i, "<![CDATA[", c.body + ("]]>" + (c.after + rest)));
      assert text[i] == text[i..i + 9][0];
      forall j | data <= j < i
        ensures IsWhite(text[j])
      {
        assert text[j] == c.before[j - data];
      }
    }

    /** A text is all white, and the next tag begins behind it, exactly when the characters say so. */
    lemma WhiteThen(data: nat, t: string, rest: string)
      requires '<' !in t && Rest(data, t + rest) && |rest| >= 2 && rest[0] == '<'
      ensures t != "" && AllWhite(t) && data + |t| + 1 == |text| <==> BlankBeforeLast(data)
    {
      TextThen(data, t, rest);
      hide Rest;
      if BlankBeforeLast(data) {
        assert forall j :: data <= j < |text| - 1 ==> text[j] != '<';
        assert forall i :: 0 <= i < |t| ==> text[data + i] == t[i];
      }
      if t != "" && AllWhite(t) && data + |t| + 1 == |text| {
        assert forall j :: data <= j < |text| - 1 ==> text[j] == t[j - data];
      }
    }

    /** How far the white space in front of index `i`, where it ends, reaches into a text. */
    lemma WhitePart(data: nat, t: string, rest: string, i: nat)
      requires '<' !in t && Rest(data, t + rest) && |rest| >= 2 && rest[0] == '<'
      requires data <= i <= |text| && (forall j :: data <= j < i ==> IsWhite(text[j])) && (i < |text| ==> !IsWhite(text[i]))
      ensures i <= data + |t| && (i < |text| ==> (AllWhite(t) <==> i == data + |t|))
    {
      TextThen(data, t, rest);
      hide Rest;
      assert forall j :: data <= j < i ==> text[j] != '<';
      if i == data + |t| {
        assert forall j :: 0 <= j < |t| ==> text[data + j] == t[j];
      } else if i < |text| {
        assert text[i] == t[i - data];
      }
    }

    lemma NotCdata(data: nat, t: string, rest: string, i: nat)
      requires '<' !in t && Rest(data, t + rest) && Follows(rest) && data <= i <= data + |t|
      ensures !Looking(i, "<![CDATA[")
    {
      TextThen(data, t, rest);
      hide Rest;
      if Looking(i, "<![CDATA[") {
        CdataMark(i);
        if i == data + |t| {
          ThirdChar(i, rest);
        }
      }
    }

    lemma CdataMark(i: nat)
      requires Looking(i, "<![CDATA[")
      ensures i + 9 <= |text| && text[i] == '<' && text[i + 1] == '!' && text[i + 2] == '['
    {
      var m := text[i..i + 9];
      assert m[0] == '<' && m[1] == '!' && m[2] == '[';
    }

    lemma ThirdChar(i: nat, rest: string)
      requires Rest(i, rest) && Follows(rest) && i + 9 <= |text| && text[i + 1] == '!'
      ensures text[i + 2] != '['
    {
      CharAt(i, rest, 1);
      CharAt(i, rest, 2);
    }

    /** Reads a CDATA section and what follows it up to the next tag. */
    method ReadCdata(ghost good: bool, ghost body: string, ghost after: string, ghost rest: string) returns (fail: bool)
      requires pos + 12 <= |text|
      requires good ==> Unbroken(body, "]]>") && '<' !in after && |rest| >= 2 && rest[0] == '<' && tail == ""
      requires good ==> Rest(pos, "<![CDATA[" + (body + ("]]>" + (after + rest))))
      modifies this`pos, this`events
      ensures old(pos) <= pos && (!fail ==> pos <= |text|)
      ensures good ==> !fail && pos == old(pos) + 9 + |body| + 3 + |after| && Rest(pos, rest)
      ensures good ==> events == old(events) + if body != "" then [Data(body)] else []
    {
      hide Rest, Looking, Unbroken;
      fail := false;
      pos := pos + 9;
      var data := pos;
      if good {
        Pass(data - 9, "<![CDATA[", body + ("]]>" + (after + rest)));
        MarkThen(data, body, "]]>", after + rest);
        BodyThen(data, body, after, rest);
      }
      while !Looking(pos, "]]>")
        invariant data <= pos && pos + 3 <= |text|
        invariant good ==> pos <= data + |body|
        modifies this`pos
        decreases |text| - pos
      {
        pos := pos + 1;
        if pos + 3 >= |text| {
          return true;
        }
      }
      if pos > data {
        events := events + [Data(text[data..pos])];
      }
      while At(pos) != '<'
        invariant data <= pos < |text|
        invariant good ==> pos <= data + |body| + 3 + |after|
        modifies this`pos
        decreases |text| - pos
      {
        pos := pos + 1;
        if pos >= |text| {
          return true;
        }
      }
    }

    /** The first place where a mark stands is behind a text in which it does not. */
    lemma MarkThen(i: nat, s: string, mark: string, rest: string)
      requires Unbroken(s, mark) && Rest(i, s + (mark + rest))
      ensures forall j {:trigger Looking(j, mark)} :: i <= j < i + |s| ==> !Looking(j, mark)
      ensures i + |s| + |mark| <= |text| ==> Looking(i + |s|, mark) && text[i..i + |s|] == s && Rest(i + |s| + |mark|, rest)
    {
      forall j {:trigger Looking(j, mark)} | i <= j < i + |s| && Looking(j, mark)
        ensures false
      {
        MarkInside(i, s, mark, rest, j);
      }
      if i + |s| + |mark| <= |text| {
        Pass(i, s, mark + rest);
        Pass(i + |s|, mark, rest);
      }
    }

    lemma MarkInside(i: nat, s: string, mark: string, rest: string, j: nat)
      requires Rest(i, s + (mark + rest)) && i <= j < i + |s| && Looking(j, mark)
      ensures MarkAt(s + mark, j - i, mark)
    {
      var t, k := s + mark, j - i;
      assert s + (mark + rest) == t + rest;
      assert (text[i..] + tail)[k..k + |mark|] == text[j..j + |mark|];
      assert (t + rest)[k..k + |mark|] == t[k..k + |mark|];
    }

    lemma BodyThen(i: nat, body: string, after: string, rest: string)
      requires Rest(i, body + ("]]>" + (after + rest))) && '<' !in after && |rest| >= 2 && rest[0] == '<' && tail == ""
      ensures var k := i + |body| + 3 + |after|;
              && k + 2 <= |text| && text[k] == '<' && Rest(k, rest)
              && forall j :: i + |body| <= j < k ==> text[j] != '<'
    {
      var k := i + |body| + 3 + |after|;
      CharAt(i, body + ("]]>" + (after + rest)), 0);
      Pass(i, body, "]]>" + (after + rest));
      Pass(i + |body|, "]]>", after + rest);
      Pass(i + |body| + 3, after, rest);
      CharAt(k, rest, 0);
      forall j | i + |body| <= j < k
        ensures text[j] != '<'
      {
        if j < i + |body| + 3 {
          assert text[j] == text[i + |body|..i + |body| + 3][j - i - |body|];
        } else {
          assert text[j] == text[i + |body| + 3..k][j - i - |body| - 3];
          assert text[j] in after;
        }
      }
    }

    // ----- documents

    /** What the parser has still to read: text and comments that it skips, then tokens; if the end is missing, without CDATA. */
    ghost predicate Ahead(i: nat, gap: Gap, ts: seq<Token>) {
      GapOk(gap) && TokensOk(ts) && Rest(i, GapText(gap) + TokensText(ts)) && (tail == "" || CdataFree(ts))
    }

    lemma GapChar(i: nat, gap: Gap, ts: seq<Token>)
      requires Ahead(i, gap, ts) && gap.text != "" && i < |text|
      ensures Char(i) != '<' && Ahead(i + 1, Gap(gap.text[1..], gap.notes), ts) && |GapText(Gap(gap.text[1..], gap.notes))| == |GapText(gap)| - 1
    {
      hide TokensText, TokensOk, NotesText, NotesOk, CdataFree;
      var g := Gap(gap.text[1..], gap.notes);
      Shorter(gap.text, NotesText(gap.notes), TokensText(ts));
      CharAt(i, [gap.text[0]] + (GapText(g) + TokensText(ts)), 0);
      Pass(i, [gap.text[0]], GapText(g) + TokensText(ts));
    }

    lemma Shorter(a: string, b: string, s: string)
      requires '<' !in a && a != ""
      ensures a[0] != '<' && '<' !in a[1..] && a + b + s == [a[0]] + (a[1..] + b + s)
    {
      assert a[0] in a;
    }

    /** A comment at the cursor. */
    lemma CommentAt(i: nat, gap: Gap, ts: seq<Token>)
      requires Ahead(i, gap, ts) && gap.text == "" && gap.notes != []
      ensures var c, rest := gap.notes[0].comment, Gap(gap.notes[0].text, gap.notes[1..]);
              && Unbroken(c, "-->") && Rest(i, "<!--" + (c + ("-->" + (GapText(rest) + TokensText(ts)))))
              && |GapText(gap)| == 7 + |c| + |GapText(rest)| && |GapText(rest) + TokensText(ts)| >= 0
              && (forall j :: i + 7 + |c| <= j <= |text| && Rest(j, GapText(rest) + TokensText(ts)) ==> Ahead(j, rest, ts))
              && (ts != [] && tail == "" ==> i + 7 + |c| < |text|)
    {
      hide TokensText, TokensOk, NotesOk, CdataFree, Unbroken;
      var n := gap.notes[0];
      var rest := Gap(n.text, gap.notes[1..]);
      NotesFirst(gap.notes);
      hide NotesText;
      CommentJoined("<!--", n.comment, "-->", n.text, NotesText(gap.notes[1..]), TokensText(ts));
      if ts != [] {
        FirstToken(ts);
      }
      CharAt(i, GapText(gap) + TokensText(ts), 0);
    }

    lemma NotesFirst(ns: seq<Note>)
      requires NotesOk(ns) && ns != []
      ensures Unbroken(ns[0].comment, "-->") && '<' !in ns[0].text && NotesOk(ns[1..])
      ensures NotesText(ns) == CommentText(ns[0].comment) + (ns[0].text + NotesText(ns[1..]))
    {
      hide Unbroken;
    }

    lemma CommentJoined(a: string, b: string, c: string, d: string, e: string, s: string)
      ensures "" + (a + (b + c) + (d + e)) + s == a + (b + (c + (d + e + s)))
    {
      assert (b + c) + (d + e) + s == b + (c + (d + e + s));
      assert "" + (a + (b + c) + (d + e)) + s == a + ((b + c) + (d + e) + s);
    }

    /** Its first characters, as far as they are there. */
    lemma CommentChars(i: nat, rest: string)
      requires Rest(i, "<!--" + rest) && i + 1 < |text|
      ensures Char(i) == '<' && Char(i + 1) == '!' && (i + 4 <= |text| ==> Looking(i, "<!--"))
      ensures i + 4 > |text| ==> tail != "" && forall j :: i < j < |text| ==> text[j] == '!' || text[j] == '-'
    {
      var s := "<!--" + rest;
      CharAt(i, s, 0);
      CharAt(i, s, 1);
      CharAt(i, s, 2);
      if i + 4 <= |text| {
        Pass(i, "<!--", rest);
      } else {
        assert s[1] == '!' && s[2] == '-';
        assert i + 2 < |text| ==> text[i + 2] == '-';
      }
    }

    /** A token at the cursor. */
    lemma TokenAt(i: nat, ts: seq<Token>)
      requires Ahead(i, NoGap, ts) && ts != [] && i + 1 < |text|
      ensures Rest(i, TokenText(ts[0]) + TokensText(ts[1..])) && TokenOk(ts[0]) && TokensOk(ts[1..]) && (tail == "" || CdataFree(ts[1..]))
      ensures Char(i) == '<' && Char(i + 1) != '?' && Char(i + 1) != '!' && (Char(i + 1) == '/' <==> ts[0].Close?)
      ensures ts[0].Open? ==> |ts| > 1 && (tail == "" || ts[0].content.Chars?)
    {
      hide *;
      var s := TokenText(ts[0]) + TokensText(ts[1..]);
      AheadIs(i, NoGap, ts);
      TokensFirst(ts);
      FirstText(ts);
      FirstChars(ts[0]);
      CharAt(i, s, 0);
      CharAt(i, s, 1);
    }

    lemma AheadIs(i: nat, gap: Gap, ts: seq<Token>)
      requires Ahead(i, gap, ts)
      ensures GapOk(gap) && TokensOk(ts) && Rest(i, GapText(gap) + TokensText(ts)) && (tail == "" || CdataFree(ts))
    {
    }

    lemma TokensFirst(ts: seq<Token>)
      requires TokensOk(ts) && ts != []
      ensures TokenOk(ts[0]) && TokensOk(ts[1..]) && (ts[0].Open? ==> |ts| > 1)
      ensures CdataFree(ts) ==> CdataFree(ts[1..]) && (ts[0].Open? ==> ts[0].content.Chars?)
    {
      hide TokenOk;
    }

    lemma FirstText(ts: seq<Token>)
      requires ts != []
      ensures GapText(NoGap) + TokensText(ts) == TokenText(ts[0]) + TokensText(ts[1..])
    {
      hide *;
      TextStep(ts);
      NothingBefore();
      assert "" + TokensText(ts) == TokensText(ts);
    }

    lemma NothingBefore()
      ensures GapText(NoGap) == ""
    {
    }

    lemma TextStep(ts: seq<Token>)
      requires ts != []
      ensures TokensText(ts) == TokenText(ts[0]) + TokensText(ts[1..])
    {
      hide TokenText;
    }

    lemma FirstChars(t: Token)
      requires TokenOk(t)
      ensures var s := TokenText(t); |s| >= 2 && s[0] == '<' && s[1] != '?' && s[1] != '!' && (s[1] == '/' <==> t.Close?)
    {
      if !t.Close? {
        var name := FullName(t.tag);
        assert name != "" && IsNameChar(name[0]) && TokenText(t)[1] == name[0];
      }
    }

    lemma FirstToken(ts: seq<Token>)
      requires TokensOk(ts) && ts != []
      ensures var s := TokensText(ts); |s| >= 2 && s[0] == '<' && s[1] != '!' && (s[1] == '/' <==> ts[0].Close?)
    {
      FirstChars(ts[0]);
    }

    /** What follows the content of an element. */
    lemma ContentFollowed(ns: seq<Note>, ts: seq<Token>)
      requires NotesOk(ns) && TokensOk(ts) && ts != []
      ensures var s := NotesText(ns) + TokensText(ts); Follows(s) && (s[1] == '/' <==> ns == [] && ts[0].Close?)
    {
      hide TokensText, TokensOk, NotesOk;
      FirstToken(ts);
      if ns == [] {
        assert NotesText(ns) + TokensText(ts) == TokensText(ts);
      } else {
        NoteChars(ns);
        hide NotesText;
      }
    }

    lemma NoteChars(ns: seq<Note>)
      requires ns != []
      ensures var s := NotesText(ns); |s| >= 3 && s[0] == '<' && s[1] == '!' && s[2] == '-'
    {
      var c := CommentText(ns[0].comment);
      assert c[0] == '<' && c[1] == '!' && c[2] == '-';
    }

    /** What follows the name of an opening tag. */
    ghost function TagRest(t: Token, ts: seq<Token>): (s: string)
      requires !t.Close?
    {
      AttributesText(t.tag.atts) + (t.tag.end + TagEnd(t, ts))
    }

    ghost function TagEnd(t: Token, ts: seq<Token>): (s: string) {
      match t
      case Open(_, content, notes) => ">" + (ContentText(content) + (NotesText(notes) + TokensText(ts)))
      case Self(_, gap) => "/>" + (GapText(gap) + TokensText(ts))
      case Close(_, _) => ""
    }

    lemma Joined(n: string, a: string, w: string, e: string, x: string, y: string, z: string)
      ensures ("<" + n + a + w + e) + x + y + z == "<" + (n + (a + (w + (e + (x + (y + z))))))
    {
      assert ("<" + n + a + w + e) + x + y + z == "<" + n + a + (w + (e + (x + (y + z))));
    }

    lemma TagParts(t: Token, ts: seq<Token>)
      requires TokenOk(t) && !t.Close?
      ensures TokenText(t) + TokensText(ts) == "<" + (FullName(t.tag) + TagRest(t, ts))
      ensures TagRest(t, ts) != "" && Stop(TagRest(t, ts)[0])
      ensures TagEnd(t, ts) != "" && (TagEnd(t, ts)[0] == '/' || TagEnd(t, ts)[0] == '>') && TagOk(t.tag) && t.tag.name != ""
    {
      hide FullName, AttributesText, ContentText, NotesText, GapText, TokensText, OpenText, SelfText, TagOk;
      TagFacts(t.tag);
      FirstBlank(t.tag.atts, t.tag.end, TagEnd(t, ts));
      if t.Open? {
        Joined(FullName(t.tag), AttributesText(t.tag.atts), t.tag.end, ">", ContentText(t.content), NotesText(t.notes), TokensText(ts));
      } else {
        Joined(FullName(t.tag), AttributesText(t.tag.atts), t.tag.end, "/>", GapText(t.gap), "", TokensText(ts));
        assert SelfText(t.tag) + GapText(t.gap) + "" == SelfText(t.tag) + GapText(t.gap);
        assert GapText(t.gap) + ("" + TokensText(ts)) == GapText(t.gap) + TokensText(ts);
      }
    }

    lemma TagFacts(t: Tag)
      requires TagOk(t)
      ensures AttributesOk(t.atts) && AllWhite(t.end) && t.name != ""
      ensures OpenText(t) == "<" + FullName(t) + AttributesText(t.atts) + t.end + ">"
      ensures SelfText(t) == "<" + FullName(t) + AttributesText(t.atts) + t.end + "/>"
    {
    }

    lemma FirstBlank(atts: seq<Attribute>, end: string, rest: string)
      requires AttributesOk(atts) && AllWhite(end) && rest != "" && (rest[0] == '/' || rest[0] == '>')
      ensures var s := AttributesText(atts) + (end + rest); s != "" && Stop(s[0])
    {
      LeadCore(atts, end, rest);
      LeadWhite(atts, end);
      hide AttributesText;
      if atts != [] {
        assert AttributeOk(atts[0]);
      }
    }

    lemma EndParts(t: Token, ts: seq<Token>)
      requires TokenOk(t) && !t.Close?
      ensures t.Open? ==> TagEnd(t, ts) == ">" + (ContentText(t.content) + (NotesText(t.notes) + TokensText(ts))) && ContentOk(t.content)
                          && GapOk(Gap("", t.notes)) && GapText(Gap("", t.notes)) == NotesText(t.notes) && NotesOk(t.notes)
      ensures t.Self? ==> var g := Gap("/>" + t.gap.text, t.gap.notes);
                          TagEnd(t, ts) == GapText(g) + TokensText(ts) && GapOk(g) && TagEnd(t, ts)[0] == '/' && |GapText(g)| == 2 + |GapText(t.gap)|
    {
      hide TokensText, NotesText, ContentText, NotesOk, ContentOk;
      if t.Open? {
        assert "" + NotesText(t.notes) == NotesText(t.notes);
      } else {
        assert "/>" + (t.gap.text + NotesText(t.gap.notes) + TokensText(ts)) == "/>" + t.gap.text + NotesText(t.gap.notes) + TokensText(ts);
      }
    }

    lemma MakeAhead(i: nat, gap: Gap, ts: seq<Token>)
      requires GapOk(gap) && TokensOk(ts) && Rest(i, GapText(gap) + TokensText(ts)) && (tail == "" || CdataFree(ts))
      ensures Ahead(i, gap, ts)
    {
    }

    lemma OpenEvents(es: seq<Event>, t: Token, closes: bool)
      requires !t.Close?
      ensures es + [Start(t.tag.name)] + AttributeEvents(t.tag.atts) + (if t.Open? then ContentEvents(t.content, closes && t.notes == []) else [])
              == es + TokenEvents(t, closes)
      ensures es + [Start(t.tag.name)] + AttributeEvents(t.tag.atts) <= es + TokenEvents(t, closes)
    {
      hide AttributeEvents, ContentEvents;
    }

    /** Less is reported of the content if the next character is not there. */
    lemma LessContent(es: seq<Event>, c: Content, closes: bool)
      ensures es + ContentEvents(c, false) <= es + ContentEvents(c, closes)
    {
    }

    /** Reads the rest of an opening tag behind its name, with the content that follows. */
    method OpenRest(name: string, ghost good: bool, ghost t: Token, ghost ts: seq<Token>) returns (fail: bool, ghost gap: Gap)
      requires pos <= |text|
      requires good ==> TokenOk(t) && !t.Close? && TokensOk(ts) && (t.Open? ==> ts != []) && name == t.tag.name && Rest(pos, TagRest(t, ts))
      requires good && tail != "" ==> CdataFree(ts) && (t.Open? ==> t.content.Chars?)
      modifies this
      ensures old(pos) <= pos && (!fail ==> pos <= |text|)
      ensures past ==> old(past) || AtEdge()
      ensures good ==> (past <==> old(past) || NameCut(t, |text| - old(pos)))
      ensures good && fail ==> tail != "" && old(pos) + |TokenText(t)| - |FullName(t.tag)| >= |text|
      ensures good && !fail ==> Ahead(pos, gap, ts) && pos + |GapText(gap)| == old(pos) + |TokenText(t)| - 1 - |FullName(t.tag)|
      ensures good ==> events <= old(events) + TokenEvents(t, ts != [] && ts[0].Close?)
      ensures good && !fail && (tail == "" || pos + 1 < |text|) ==> events == old(events) + TokenEvents(t, ts != [] && ts[0].Close?)
    {
      hide *;
      gap := NoGap;
      events := events + [Start(name)];
      if good {
        TagParts(t, ts);
        StartAtts(t, ts);
        EndParts(t, ts);
        OpenEvents(old(events), t, ts != [] && ts[0].Close?);
        TokenSize(t);
        NameCutIs(t, |text| - pos);
        CharAt(pos, TagRest(t, ts), 0);
        TagRestSize(t, ts);
      }
      fail := ParseAtt(good, if t.Close? then [] else t.tag.atts, if t.Close? then "" else t.tag.end, TagEnd(t, ts));
      if fail {
        return;
      }
      if good {
        CharAt(pos, TagEnd(t, ts), 0);
      }
      if At(pos) != '/' {
        ghost var before := events;
        ghost var rest := if t.Open? then NotesText(t.notes) + TokensText(ts) else "";
        if good {
          Pass(pos, ">", ContentText(t.content) + rest);
          ContentFollowed(t.notes, ts);
          LessContent(before, t.content, t.notes == [] && ts[0].Close?);
          gap := Gap("", t.notes);
        }
        pos := pos + 1;
        fail := ElementData(good, if t.Open? then t.content else Chars(""), rest);
        if good && !fail {
          MakeAhead(pos, gap, ts);
        }
      } else if good {
        gap := Gap("/>" + t.gap.text, t.gap.notes);
        MakeAhead(pos, gap, ts);
      }
    }

    lemma TagRestSize(t: Token, ts: seq<Token>)
      requires !t.Close?
      ensures |TagRest(t, ts)| == |AttributesText(t.tag.atts)| + |t.tag.end| + |TagEnd(t, ts)|
    {
      hide AttributesText, TagEnd;
    }

    lemma NameCutIs(t: Token, m: int)
      requires !t.Close?
      ensures NameCut(t, m) <==> || EqualsCut(t.tag.atts, m)
                                 || (t.Open? && t.content.Chars? && t.content.text != "" && AllWhite(t.content.text)
                                     && m == |AttributesText(t.tag.atts)| + |t.tag.end| + |t.content.text| + 2)
      ensures m >= |AttributesText(t.tag.atts)| ==> !EqualsCut(t.tag.atts, m)
      ensures m <= 0 ==> !NameCut(t, m)
    {
      if m >= |AttributesText(t.tag.atts)| {
        EqualsHigh(t.tag.atts, m);
      }
      if m <= 0 {
        EqualsLow(t.tag.atts, m);
      }
    }

    lemma StartAtts(t: Token, ts: seq<Token>)
      requires TokenOk(t) && !t.Close? && Rest(pos, TagRest(t, ts))
      ensures AttRest(pos, 0, t.tag.atts, t.tag.end, TagEnd(t, ts))
    {
      TagParts(t, ts);
      hide TagEnd, AttributesText;
      NextAtts(pos, t.tag.atts, t.tag.end, TagEnd(t, ts));
    }

    /** Skips a comment. */
    method SkipComment(ghost good: bool, ghost comment: string, ghost rest: string) returns (fail: bool)
      requires pos + 4 <= |text|
      requires good ==> Unbroken(comment, "-->") && Rest(pos, "<!--" + (comment + ("-->" + rest)))
      modifies this`pos
      ensures old(pos) < pos && (!fail ==> pos <= |text|)
      ensures good ==> (fail <==> old(pos) + 7 + |comment| >= |text|)
      ensures good && !fail ==> pos == old(pos) + 7 + |comment| && Rest(pos, rest)
    {
      hide Rest, Looking, Unbroken;
      if good {
        Pass(pos, "<!--", comment + ("-->" + rest));
        MarkThen(pos + 4, comment, "-->", rest);
      }
      pos := pos + 3;
      while true
        invariant old(pos) < pos && pos + 1 <= |text|
        invariant good ==> pos < old(pos) + 4 + |comment|
        decreases |text| - pos
      {
        pos := pos + 1;
        if pos + 3 >= |text| {
          return true;
        }
        if Looking(pos, "-->") {
          break;
        }
      }
      pos := pos + 3;
      fail := false;
    }

    /** Reads an element tag, opening or closing.  `torn` is the beginning of a comment that is cut short. */
    method Element(ghost good: bool, ghost ts: seq<Token>, ghost torn: bool) returns (fail: bool, ghost gap: Gap)
      requires pos + 1 < |text|
      requires good ==> Ahead(pos, NoGap, ts) && ts != []
      requires torn ==> !good && forall j :: pos < j < |text| ==> text[j] == '!' || text[j] == '-'
      modifies this
      ensures old(pos) < pos && (!fail ==> pos <= |text|)
      ensures past ==> old(past) || AtEdge()
      ensures torn ==> fail && events == old(events) && past == old(past)
      ensures good ==> (past <==> old(past) || TokenCut(ts[0], |text| - old(pos)))
      ensures good && fail ==> tail != "" && old(pos) + |TokenText(ts[0])| + 1 >= |text|
      ensures good && !fail ==> Ahead(pos, gap, ts[1..]) && pos + |GapText(gap)| == old(pos) + |TokenText(ts[0])|
      ensures good ==> events <= old(events) + TokenEvents(ts[0], |ts| > 1 && ts[1].Close?)
      ensures good && !fail && (tail == "" || pos + 1 < |text|) ==> events == old(events) + TokenEvents(ts[0], |ts| > 1 && ts[1].Close?)
    {
      hide *;
      gap := NoGap;
      ghost var t, more := if good then ts[0] else Close("", NoGap), if good then ts[1..] else [];
      if good {
        TokenAt(pos, ts);
        if t.Close? {
          ClosesAt(pos, t, more);
        } else {
          OpensAt(pos, t, more);
        }
      }
      pos := pos + 1;
      if torn {
        NoColon(pos);
        NoStops();
      }
      var name;
      name, fail := ElementName(good && !t.Close?, if t.Close? then Tag("", "", [], "") else t.tag, if t.Close? then "" else TagRest(t, more));
      if fail {
        return;
      }
      if name != "" {
        fail, gap := OpenRest(name, good && !t.Close?, t, more);
      } else if At(pos) == '/' {
        pos := pos + 1;
        fail := CloseTag(good && t.Close?, if t.Close? then t.name else "", if t.Close? then GapText(t.gap) + TokensText(more) else "");
        gap := if t.Close? then t.gap else NoGap;
        if good && !fail {
          MakeAhead(pos, gap, more);
        }
      }
    }

    lemma NoStops()
      ensures !Stop('!') && !Stop('-')
    {
    }

    lemma OpensAt(i: nat, t: Token, ts: seq<Token>)
      requires Rest(i, TokenText(t) + TokensText(ts)) && TokenOk(t) && !t.Close? && i + 1 < |text|
      ensures Rest(i + 1, FullName(t.tag) + TagRest(t, ts)) && TagOk(t.tag) && t.tag.name != ""
      ensures TagRest(t, ts) != "" && Stop(TagRest(t, ts)[0])
      ensures i + 1 + |FullName(t.tag)| >= |text| ==> tail != ""
      ensures |TokenText(t)| >= 1 + |FullName(t.tag)|
      ensures TokenCut(t, |text| - i) <==> || (t.tag.prefix != "" && i + |t.tag.prefix| + 2 == |text|)
                                           || (i + 1 + |FullName(t.tag)| < |text| && NameCut(t, |text| - i - 1 - |FullName(t.tag)|))
      ensures t.tag.prefix != "" && i + |t.tag.prefix| + 2 == |text| ==> i + 1 + |FullName(t.tag)| >= |text|
    {
      hide *;
      TokenSize(t);
      TokenCutIs(t, |text| - i);
      TagParts(t, ts);
      Pass(i, "<", FullName(t.tag) + TagRest(t, ts));
      CharAt(i, "<" + (FullName(t.tag) + TagRest(t, ts)), 0);
    }

    lemma ClosesAt(i: nat, t: Token, ts: seq<Token>)
      requires Rest(i, TokenText(t) + TokensText(ts)) && TokenOk(t) && t.Close? && i + 1 < |text|
      ensures Rest(i + 2, t.name + (">" + (GapText(t.gap) + TokensText(ts)))) && NameOk(t.name) && GapOk(t.gap)
      ensures TokenEvents(t, true) == TokenEvents(t, false) == [End(t.name)]
      ensures |TokenText(t)| == |t.name| + |GapText(t.gap)| + 3 && (i + 2 + |t.name| >= |text| ==> tail != "") && !TokenCut(t, |text| - i)
    {
      hide *;
      TokenSize(t);
      TokenCutIs(t, |text| - i);
      CloseParts(t, ts);
      Pass(i, "</", t.name + (">" + (GapText(t.gap) + TokensText(ts))));
      CharAt(i, "</" + (t.name + (">" + (GapText(t.gap) + TokensText(ts)))), 0);
    }

    lemma TokenCutIs(t: Token, m: int)
      ensures t.Close? ==> !TokenCut(t, m)
      ensures !t.Close? ==> (TokenCut(t, m) <==> (t.tag.prefix != "" && m == |t.tag.prefix| + 2) || NameCut(t, m - 1 - |FullName(t.tag)|))
      ensures !t.Close? && m <= 1 + |FullName(t.tag)| ==> !NameCut(t, m - 1 - |FullName(t.tag)|)
      ensures !t.Close? ==> |FullName(t.tag)| == (if t.tag.prefix == "" then 0 else |t.tag.prefix| + 1) + |t.tag.name|
    {
      if !t.Close? {
        NameCutIs(t, m - 1 - |FullName(t.tag)|);
        hide NameCut;
      }
    }

    lemma CloseParts(t: Token, ts: seq<Token>)
      requires TokenOk(t) && t.Close?
      ensures TokenText(t) + TokensText(ts) == "</" + (t.name + (">" + (GapText(t.gap) + TokensText(ts)))) && NameOk(t.name) && GapOk(t.gap)
      ensures TokenEvents(t, true) == TokenEvents(t, false) == [End(t.name)]
    {
      hide TokensText, GapText, GapOk;
      JoinedClose(t.name, GapText(t.gap), TokensText(ts));
    }

    lemma JoinedClose(n: string, x: string, y: string)
      ensures "</" + n + ">" + x + y == "</" + (n + (">" + (x + y)))
    {
    }

    lemma EventsStep(es: seq<Event>, ts: seq<Token>)
      requires ts != []
      ensures es + TokenEvents(ts[0], |ts| > 1 && ts[1].Close?) + TokensEvents(ts[1..]) == es + TokensEvents(ts)
    {
      hide TokenEvents;
      Together(es, TokenEvents(ts[0], |ts| > 1 && ts[1].Close?), TokensEvents(ts[1..]));
    }

    lemma Together(a: seq<Event>, b: seq<Event>, c: seq<Event>)
      ensures a + b + c == a + (b + c)
    {
    }

    lemma EventsLeft(es: seq<Event>, ts: seq<Token>)
      ensures es <= es + TokensEvents(ts) && (ts == [] ==> es + TokensEvents(ts) == es)
    {
    }

    /** What an element may have added to the events. */
    lemma Reported(before: seq<Event>, es: seq<Event>, ts: seq<Token>)
      requires ts != []
      ensures var e := before + TokenEvents(ts[0], |ts| > 1 && ts[1].Close?);
              && (es <= e ==> es <= before + TokensEvents(ts))
              && (es == e ==> es + TokensEvents(ts[1..]) == before + TokensEvents(ts))
    {
      hide TokenEvents, TokensEvents;
      EventsStep(before, ts);
      var e := before + TokenEvents(ts[0], |ts| > 1 && ts[1].Close?);
      if es <= e {
        Prefix(es, e, TokensEvents(ts[1..]));
      }
    }

    lemma NothingAhead(i: nat)
      requires Ahead(i, NoGap, [])
      ensures i == |text|
    {
      CharAt(i, GapText(NoGap) + TokensText([]), 0);
    }

    lemma LookingAt(i: nat)
      requires Looking(i, "<!--")
      ensures i + 4 <= |text| && Char(i) == '<' && Char(i + 1) == '!'
    {
      assert text[i] == text[i..i + 4][0] && text[i + 1] == text[i..i + 4][1];
    }

    lemma Enough(i: nat, gap: Gap, ts: seq<Token>)
      requires Ahead(i, gap, ts) && ts != [] && tail == ""
      ensures i + 1 < |text|
    {
      FirstToken(ts);
      CharAt(i, GapText(gap) + TokensText(ts), 0);
    }

    /** The start of a document; with a declaration its first character is passed over by itself. */
    ghost predicate Begins(declared: bool, start: Gap, ts: seq<Token>) {
      if declared then
        |text| + |tail| >= 2 && (|text| >= 2 ==> text[0] == '<' && text[1] == '?' && Ahead(1, start, ts))
      else
        Ahead(0, start, ts)
    }

    /** The parser stands in front of `gap` and `ts`, or in front of a declaration. */
    ghost predicate Stands(i: nat, declared: bool, gap: Gap, ts: seq<Token>) {
      if declared && i == 0 then |text| >= 2 ==> Char(0) == '<' && Char(1) == '?' && Ahead(1, gap, ts) else Ahead(i, gap, ts)
    }

    /** How many characters of the tokens in front of the parser are there. */
    ghost function There(i: nat, declared: bool, gap: Gap): (m: int) {
      |text| - (if declared && i == 0 then 1 else i) - |GapText(gap)|
    }

    /** What is left of a gap behind one character. */
    ghost function Onward(i: nat, declared: bool, gap: Gap): (g: Gap) {
      if (declared && i == 0) || gap.text == "" then gap else Gap(gap.text[1..], gap.notes)
    }

    /** One character in front of the tokens. */
    lemma OneChar(i: nat, declared: bool, gap: Gap, ts: seq<Token>)
      requires Stands(i, declared, gap, ts) && i + 1 < |text| && (gap.text != "" || (declared && i == 0))
      ensures Char(i) != '<' || Char(i + 1) == '?'
      ensures Char(i) != '<' || Char(i + 1) != '!'
      ensures var next := Onward(i, declared, gap);
              Stands(i + 1, declared, next, ts) && There(i + 1, declared, next) == There(i, declared, gap)
    {
      if !(declared && i == 0) {
        GapChar(i, gap, ts);
      }
    }

    /** A comment in front of the tokens. */
    lemma AComment(i: nat, declared: bool, gap: Gap, ts: seq<Token>)
      requires Stands(i, declared, gap, ts) && i + 1 < |text| && gap.text == "" && gap.notes != [] && !(declared && i == 0)
      ensures var c, rest := gap.notes[0].comment, Gap(gap.notes[0].text, gap.notes[1..]);
              && Char(i) == '<' && Char(i + 1) == '!' && (i + 4 <= |text| ==> Looking(i, "<!--"))
              && Unbroken(c, "-->") && Rest(i, "<!--" + (c + ("-->" + (GapText(rest) + TokensText(ts)))))
              && (i + 4 > |text| ==> tail != "" && forall j :: i < j < |text| ==> text[j] == '!' || text[j] == '-')
              && (i + 7 + |c| >= |text| ==> !EdgeCut(ts, There(i, declared, gap)) && (tail == "" ==> ts == []))
    {
      hide Rest, GapText, TokensText, EdgeCut, Looking, Unbroken, Ahead, Char;
      CommentAt(i, gap, ts);
      var c, rest := gap.notes[0].comment, Gap(gap.notes[0].text, gap.notes[1..]);
      CommentChars(i, c + ("-->" + (GapText(rest) + TokensText(ts))));
      if i + 7 + |c| >= |text| {
        EdgeLow(ts, There(i, declared, gap));
      }
    }

    /** Behind it. */
    lemma BehindComment(i: nat, declared: bool, gap: Gap, ts: seq<Token>)
      requires Stands(i, declared, gap, ts) && gap.text == "" && gap.notes != [] && !(declared && i == 0)
      requires Rest(i + 7 + |gap.notes[0].comment|, GapText(Gap(gap.notes[0].text, gap.notes[1..])) + TokensText(ts))
      ensures var j, rest := i + 7 + |gap.notes[0].comment|, Gap(gap.notes[0].text, gap.notes[1..]);
              Stands(j, declared, rest, ts) && There(j, declared, rest) == There(i, declared, gap)
    {
      hide GapText, TokensText, Ahead, Char;
      CommentAt(i, gap, ts);
    }

    /** A token, or the end. */
    lemma AToken(i: nat, declared: bool, gap: Gap, ts: seq<Token>)
      requires Stands(i, declared, gap, ts) && gap.text == "" && gap.notes == [] && i + 1 < |text| && !(declared && i == 0)
      ensures gap == NoGap && ts != [] && Ahead(i, NoGap, ts) && Char(i) == '<' && Char(i + 1) != '?' && Char(i + 1) != '!'
    {
      if ts == [] {
        NothingAhead(i);
      } else {
        TokenAt(i, ts);
      }
    }

    /** Behind a token. */
    lemma NextToken(i: nat, declared: bool, ts: seq<Token>, j: nat, gap: Gap)
      requires ts != [] && i < j && Ahead(j, gap, ts[1..]) && j + |GapText(gap)| == i + |TokenText(ts[0])| && !(declared && i == 0)
      ensures Stands(j, declared, gap, ts[1..])
      ensures EdgeCut(ts, There(i, declared, NoGap)) <==> TokenCut(ts[0], |text| - i) || EdgeCut(ts[1..], There(j, declared, gap))
    {
      hide TokenCut, TokenText, Ahead;
      EdgeCutIs(ts, |text| - i);
      hide EdgeCut;
    }

    lemma EdgeCutIs(ts: seq<Token>, m: int)
      requires ts != []
      ensures EdgeCut(ts, m) <==> TokenCut(ts[0], m) || EdgeCut(ts[1..], m - |TokenText(ts[0])|)
    {
      hide TokenCut, TokenText;
    }

    /** Inside a token. */
    lemma LastToken(i: nat, declared: bool, ts: seq<Token>)
      requires ts != [] && i + |TokenText(ts[0])| + 1 >= |text| && !(declared && i == 0)
      ensures EdgeCut(ts, There(i, declared, NoGap)) <==> TokenCut(ts[0], |text| - i)
    {
      hide TokenCut, TokenText, EdgeCut;
      EdgeCutIs(ts, |text| - i);
      EdgeLow(ts[1..], |text| - i - |TokenText(ts[0])|);
    }

    lemma AtEnd(i: nat, declared: bool, gap: Gap, ts: seq<Token>)
      requires Stands(i, declared, gap, ts) && i + 1 >= |text|
      ensures !EdgeCut(ts, There(i, declared, gap))
      ensures tail == "" && (declared && i == 0 ==> |text| >= 2) ==> ts == []
    {
      EdgeLow(ts, There(i, declared, gap));
      if tail == "" && (declared && i == 0 ==> |text| >= 2) && ts != [] {
        Enough(if declared && i == 0 then 1 else i, gap, ts);
      }
    }

    lemma Prefix(a: seq<Event>, b: seq<Event>, c: seq<Event>)
      requires a <= b
      ensures a <= b + c
    {
    }

    /** Reads a document and reports its events. */
    method ParseElt(ghost good: bool, ghost declared: bool, ghost start: Gap, ghost tokens: seq<Token>)
      requires pos == 0 && (good ==> Begins(declared, start, tokens))
      modifies this
      ensures past ==> old(past) || AtEdge()
      ensures good ==> (past <==> old(past) || EdgeCut(tokens, There(0, declared, start)))
      ensures good ==> events <= old(events) + TokensEvents(tokens) && (tail == "" ==> events == old(events) + TokensEvents(tokens))
    {
      hide *;
      ghost var gap, ts, done := start, tokens, old(events) + TokensEvents(tokens);
      var fail := false;
      if good {
        StandsAt(declared, start, tokens);
      }
      while pos + 1 < |text|
        invariant past ==> old(past) || AtEdge()
        invariant good ==> Stands(pos, declared, gap, ts)
        invariant good ==> (old(past) || EdgeCut(tokens, There(0, declared, start)) <==> past || EdgeCut(ts, There(pos, declared, gap)))
        invariant good ==> events + TokensEvents(ts) == done || (pos + 1 >= |text| && tail != "" && events <= done)
        decreases |text| - pos
      {
        ghost var plain, note := gap.text != "" || (declared && pos == 0), gap.notes != [];
        ghost var rest := if note then Gap(gap.notes[0].text, gap.notes[1..]) else NoGap;
        if good {
          if plain {
            OneChar(pos, declared, gap, ts);
          } else if note {
            AComment(pos, declared, gap, ts);
          } else {
            AToken(pos, declared, gap, ts);
          }
        }
        if pos + 4 <= |text| && Looking(pos, "<!--") {
          LookingAt(pos);
          ghost var here := pos;
          fail := SkipComment(good, if note then gap.notes[0].comment else "", GapText(rest) + TokensText(ts));
          if good {
            EventsLeft(events, ts);
            if !fail {
              BehindComment(here, declared, gap, ts);
            }
          }
          if fail {
            return;
          }
          gap := rest;
        } else if At(pos) == '<' && At(pos + 1) != '?' {
          ghost var next;
          ghost var before, here := events, pos;
          fail, next := Element(good && !note, ts, good && note);
          if good && note {
            EventsLeft(events, ts);
          } else if good {
            Reported(before, events, ts);
            if fail {
              LastToken(here, declared, ts);
            } else {
              NextToken(here, declared, ts, pos, next);
            }
          }
          if fail {
            return;
          }
          gap, ts := next, if good then ts[1..] else ts;
        } else {
          gap := Onward(pos, declared, gap);
          pos := pos + 1;
        }
      }
      if good {
        AtEnd(pos, declared, gap, ts);
        EventsLeft(events, ts);
      }
    }

    lemma StandsAt(declared: bool, start: Gap, ts: seq<Token>)
      requires Begins(declared, start, ts)
      ensures Stands(0, declared, start, ts) && (declared && tail == "" ==> |text| >= 2)
    {
    }
  }

  lemma DocumentTokens(prolog: Gap, tree: Tree, epilog: Gap)
    requires TreeOk(tree) && GapOk(epilog)
    ensures var ts := TreeTokens(tree, epilog);
            TokensOk(ts) && GapText(prolog) + TokensText(ts) == GapText(prolog) + TreeText(tree) + GapText(epilog) && [] + TokensEvents(ts) == TreeEvents(tree)
  {
    hide TreeText, TokensText, TreeEvents, TokensEvents, TreeTokens, TokensOk, TreeOk, GapText;
    TreeTokensText(tree, epilog);
    TreeTokensShape(tree, epilog);
    TreeTokensEvents(tree, epilog);
  }

  /** A tree in print, behind a declaration and other text. */
  function Document(declared: bool, prolog: Gap, tree: Tree, epilog: Gap): (s: string) {
    (if declared then "<?" else "") + GapText(prolog) + TreeText(tree) + GapText(epilog)
  }

  /** A document of which only the first `size` characters are there ends in front of a character that the parser looks at. */
  predicate ReadsOn(declared: bool, prolog: Gap, tree: Tree, epilog: Gap, size: nat) {
    EdgeCut(TreeTokens(tree, epilog), size - |GapText(prolog)| - if declared then 2 else 0)
  }

  /**
   * Parses any text.  Something behind its end is read only if it ends in `=`, `:` or `<`.  If it is a printed document
   * without its last part, then exactly where the cut stands behind the equals sign of an attribute, the colon of a prefix, or
   * a `<` that only white space separates from an opening tag; and the events are the first ones of the whole document.
   */
  method ParseXml(text: string, ghost good: bool, ghost tail: string, ghost declared: bool, ghost prolog: Gap, ghost tree: Tree, ghost epilog: Gap)
    returns (events: seq<Event>, past: bool)
    requires good ==> TreeOk(tree) && GapOk(prolog) && GapOk(epilog) && text + tail == Document(declared, prolog, tree, epilog)
    requires good ==> tail == "" || CdataFree(TreeTokens(tree, epilog))
    ensures past ==> text != "" && text[|text| - 1] in ['=', ':', '<']
    ensures good ==> (past <==> ReadsOn(declared, prolog, tree, epilog, |text|))
    ensures good ==> events <= TreeEvents(tree) && (tail == "" ==> events == TreeEvents(tree) && !past)
  {
    hide TreeText, TokensText, TreeEvents, TokensEvents, TreeTokens, TokensOk, TreeOk, EdgeCut, NotesText, NotesOk, CdataFree, XmlParser.Begins;
    ghost var ts, start := TreeTokens(tree, epilog), Gap((if declared then "?" else "") + prolog.text, prolog.notes);
    var parser := new XmlParser(text, tail);
    if good {
      DocumentTokens(start, tree, epilog);
      DocumentBegins(parser, declared, prolog, tree, epilog);
    }
    parser.ParseElt(good, declared, start, ts);
    events, past := parser.events, parser.past;
  }

  lemma DocumentBegins(p: XmlParser, declared: bool, prolog: Gap, tree: Tree, epilog: Gap)
    requires TreeOk(tree) && GapOk(prolog) && GapOk(epilog) && p.text + p.tail == Document(declared, prolog, tree, epilog)
    requires p.tail == "" || CdataFree(TreeTokens(tree, epilog))
    ensures p.Begins(declared, Gap((if declared then "?" else "") + prolog.text, prolog.notes), TreeTokens(tree, epilog))
    ensures p.tail == "" ==> !ReadsOn(declared, prolog, tree, epilog, |p.text|)
  {
    hide TreeText, TokensText, TreeEvents, TokensEvents, TreeTokens, TokensOk, TreeOk, GapText, GapOk, CdataFree, XmlCuts.EdgeCut, ReadsOn,
         XmlParser.Ahead;
    var ts, start := TreeTokens(tree, epilog), Gap((if declared then "?" else "") + prolog.text, prolog.notes);
    StartGap(declared, prolog);
    DocumentTokens(start, tree, epilog);
    DocumentWhole(p, declared, prolog, tree, epilog);
    if declared {
      Declared(p.text, p.tail, GapText(prolog), TreeText(tree), GapText(epilog));
      if |p.text| >= 2 {
        p.MakeAhead(1, start, ts);
      }
    } else {
      assert p.text[0..] == p.text && "" + GapText(prolog) == GapText(prolog);
      p.MakeAhead(0, start, ts);
    }
  }

  lemma StartGap(declared: bool, prolog: Gap)
    requires GapOk(prolog)
    ensures var start := Gap((if declared then "?" else "") + prolog.text, prolog.notes);
            GapOk(start) && GapText(start) == (if declared then "?" else "") + GapText(prolog)
  {
    hide NotesText, NotesOk;
  }

  lemma DocumentWhole(p: XmlParser, declared: bool, prolog: Gap, tree: Tree, epilog: Gap)
    requires TreeOk(tree) && GapOk(epilog) && p.text + p.tail == Document(declared, prolog, tree, epilog)
    ensures p.tail == "" ==> !ReadsOn(declared, prolog, tree, epilog, |p.text|)
  {
    hide TreeText, TokensText, TreeEvents, TokensEvents, TreeTokens, TokensOk, TreeOk, GapText, GapOk, EdgeCut;
    if p.tail == "" {
      DocumentTokens(prolog, tree, epilog);
      EdgeHigh(TreeTokens(tree, epilog), |p.text| - |GapText(prolog)| - if declared then 2 else 0);
    }
  }

  lemma Declared(text: string, tail: string, a: string, b: string, c: string)
    requires text + tail == "<?" + a + b + c
    ensures |text| + |tail| >= 2
    ensures |text| >= 2 ==> text[1..] + tail == "?" + a + b + c && text[0] == '<' && text[1] == '?'
  {
    if |text| >= 2 {
      assert (text + tail)[0] == '<' && (text + tail)[1] == '?';
      assert text[1..] + tail == (text + tail)[1..];
    }
  }

  /** Parsing a printed document reports the events of its tree in document order, and reads nothing behind its end. */
  method ParseDocument(text: string, ghost declared: bool, ghost prolog: Gap, ghost tree: Tree, ghost epilog: Gap) returns (events: seq<Event>, past: bool)
    requires TreeOk(tree) && GapOk(prolog) && GapOk(epilog) && text == Document(declared, prolog, tree, epilog)
    ensures events == TreeEvents(tree) && !past
  {
    assert text + "" == text;
    hide *;
    events, past := ParseXml(text, true, "", declared, prolog, tree, epilog);
  }

  /** A text that ends behind an equals sign. */
  lemma EqualsExample()
    ensures var t := Leaf(Tag("", "a", [Attribute("b", "c", Usual)], ""), Chars(""), []);
            && TreeOk(t) && CdataFree(TreeTokens(t, NoGap))
            && "<a b=" + "\"c\"></a>" == Document(false, NoGap, t, NoGap) && ReadsOn(false, NoGap, t, NoGap, 5)
  {
    var a := Attribute("b", "c", Usual);
    var tag := Tag("", "a", [a], "");
    TagExample(a, tag);
    hide AttributesText, OpenText, TagOk, AttributeText, BareText;
    assert EqualsCut([a], 3);
    hide EqualsCut;
  }

  lemma TagExample(a: Attribute, tag: Tag)
    requires a == Attribute("b", "c", Usual) && tag == Tag("", "a", [a], "")
    ensures TagOk(tag) && OpenText(tag) == "<a b=\"c\">"
  {
    assert IsName("a") && IsName("b") && AttributeOk(a);
    assert BareText(a) == "b=\"c\"";
    hide BareText;
    assert [a][1..] == [] && AttributesText([a]) == " b=\"c\"";
  }

  /** One that ends behind a colon. */
  lemma ColonExample()
    ensures var t := Leaf(Tag("a", "b", [], ""), Chars(""), []);
            && TreeOk(t) && CdataFree(TreeTokens(t, NoGap))
            && "<a:" + "b></a:b>" == Document(false, NoGap, t, NoGap) && ReadsOn(false, NoGap, t, NoGap, 3)
  {
    var tag := Tag("a", "b", [], "");
    PrefixExample(tag);
    hide FullName, OpenText, CloseText, TagOk, NameCut;
    assert TreeText(Leaf(tag, Chars(""), [])) == "<a:b></a:b>";
    assert TokenCut(Open(tag, Chars(""), []), 3);
    hide TokenCut;
  }

  lemma PrefixExample(tag: Tag)
    requires tag == Tag("a", "b", [], "")
    ensures TagOk(tag) && FullName(tag) == "a:b" && OpenText(tag) == "<a:b>" && CloseText("a:b") == "</a:b>"
  {
    assert IsName("a") && IsName("b");
  }

  /** One that ends behind a `<`. */
  lemma BlankExample()
    ensures var t := Leaf(Tag("", "a", [], ""), Chars(" "), []);
            && TreeOk(t) && CdataFree(TreeTokens(t, NoGap))
            && "<a> <" + "/a>" == Document(false, NoGap, t, NoGap) && ReadsOn(false, NoGap, t, NoGap, 5)
  {
    var tag := Tag("", "a", [], "");
    assert IsName("a") && TagOk(tag) && AllWhite(" ");
    assert OpenText(tag) == "<a>" && AttributesText([]) == "";
    assert NameCut(Open(tag, Chars(" "), []), 3);
  }

  /** `<a b=`, `<a:` and `<a> <` lead the parser behind their ends. */
  method ReadsBehind() returns (equals: bool, colon: bool, blank: bool)
    ensures equals && colon && blank
  {
    GapNone();
    hide *;
    EqualsExample();
    ColonExample();
    BlankExample();
    var _, e := ParseXml("<a b=", true, "\"c\"></a>", false, NoGap, Leaf(Tag("", "a", [Attribute("b", "c", Usual)], ""), Chars(""), []), NoGap);
    var _, c := ParseXml("<a:", true, "b></a:b>", false, NoGap, Leaf(Tag("a", "b", [], ""), Chars(""), []), NoGap);
    var _, b := ParseXml("<a> <", true, "/a>", false, NoGap, Leaf(Tag("", "a", [], ""), Chars(" "), []), NoGap);
    equals, colon, blank := e, c, b;
  }

  lemma GapNone()
    ensures GapOk(NoGap)
  {
  }
}
