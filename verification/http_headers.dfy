/** Finding the end of the headers of a response, and the two headers that matter. */
module HttpHeaders {
  import opened ByteStrings
  import opened HttpText

  // ----- the end of the headers

  /** One step of the scan at index `i`: where it goes on, and the end of the headers if it has been found (0 if not). */
  function ScanStep(s: seq<Byte>, i: nat): (r: (nat, nat))
    requires i + 1 < |s|
    ensures r.0 > i && r.1 <= |s| && (r.1 != 0 ==> r.0 == r.1 && r.1 > i + 1)
  {
    if s[i] == CR then
      if s[i + 1] != LF then (i + 2, 0)
      else if i + 2 < |s| && s[i + 2] == CR then
        if i + 3 < |s| && s[i + 3] == LF then (i + 4, i + 4) else (i + 4, 0)
      else (i + 3, 0)
    else if s[i] == LF then
      if s[i + 1] == LF then (i + 2, i + 2) else (i + 2, 0)
    else
      (i + 1, 0)
  }

  /** The index behind the end of the headers, or 0. */
  function EndFrom(s: seq<Byte>, i: nat): (r: nat)
    ensures r <= |s|
    decreases |s| - i
  {
    if i + 1 >= |s| then 0
    else
      var step := ScanStep(s, i);
      if step.1 != 0 then step.1 else EndFrom(s, step.0)
  }

  /** The scan of what has been received so far, from its beginning. */
  method FindEnd(buf: seq<Byte>) returns (endOfHeaders: nat)
    ensures endOfHeaders == EndFrom(buf, 0)
  {
    endOfHeaders := 0;
    var i := 0;
    while i < |buf| - 1 && endOfHeaders == 0
      invariant 0 <= i
      invariant EndFrom(buf, 0) == if endOfHeaders != 0 then endOfHeaders else EndFrom(buf, i)
      decreases |buf| - i
    {
      if buf[i] == CR {
        i := i + 1;
        if buf[i] == LF {
          i := i + 1;
          if i < |buf| && buf[i] == CR {
            i := i + 1;
            if i < |buf| && buf[i] == LF {
              endOfHeaders := i + 1;
            }
          }
        }
      } else if buf[i] == LF {
        i := i + 1;
        if buf[i] == LF {
          endOfHeaders := i + 1;
        }
      }
      i := i + 1;
    }
  }

  lemma {:induction false} EndBehind(s: seq<Byte>, i: nat)
    requires EndFrom(s, i) != 0
    ensures EndFrom(s, i) > i + 1
    decreases |s| - i
  {
    if ScanStep(s, i).1 == 0 {
      EndBehind(s, ScanStep(s, i).0);
    }
  }

  /** A step looks at nothing behind the place where it goes on. */
  lemma StepPrefix(s: seq<Byte>, m: nat, i: nat)
    requires m <= |s| && i + 1 < m
    ensures ScanStep(s, i).0 <= m ==> ScanStep(s[..m], i) == ScanStep(s, i)
    ensures ScanStep(s[..m], i).0 <= m ==> ScanStep(s[..m], i) == ScanStep(s, i)
  {
  }

  /** The end is found as soon as it has been received. */
  lemma {:induction false} EndSooner(s: seq<Byte>, m: nat, i: nat)
    requires EndFrom(s, i) != 0 && EndFrom(s, i) <= m <= |s|
    ensures EndFrom(s[..m], i) == EndFrom(s, i)
    decreases |s| - i
  {
    EndBehind(s, i);
    if ScanStep(s, i).1 == 0 {
      EndBehind(s, ScanStep(s, i).0);
      StepPrefix(s, m, i);
      EndSooner(s, m, ScanStep(s, i).0);
    } else {
      StepPrefix(s, m, i);
    }
  }

  /** What comes later does not change it. */
  lemma {:induction false} EndLater(s: seq<Byte>, m: nat, i: nat)
    requires m <= |s| && EndFrom(s[..m], i) != 0
    ensures EndFrom(s, i) == EndFrom(s[..m], i)
    decreases |s| - i
  {
    StepPrefix(s, m, i);
    if ScanStep(s[..m], i).1 == 0 {
      EndBehind(s[..m], ScanStep(s[..m], i).0);
      EndLater(s, m, ScanStep(s[..m], i).0);
    }
  }

  /** Headers whose lines end in a line feed only are ended by two of them, too. */
  lemma {:induction false} LineFeeds(s: seq<Byte>, e: nat, i: nat)
    requires i + 2 <= e <= |s| && s[e - 2] == 10 && s[e - 1] == 10
    requires forall j :: 0 <= j < e ==> s[j] != 13
    requires forall j :: 0 <= j < e - 2 ==> s[j] != 10 || s[j + 1] != 10
    ensures EndFrom(s, i) == e
    decreases e - i
  {
    if i < e - 2 {
      assert s[i] != 13 && (s[i] != 10 || s[i + 1] != 10);
      LineFeeds(s, e, if s[i] == 10 then i + 2 else i + 1);
    }
  }

  // ----- header fields

  predicate IsBlank(c: Byte) {
    c == 32 || c == 9
  }

  predicate IsSpace(c: Byte) {
    c == 32 || 9 <= c <= 13
  }

  predicate IsDigit(c: Byte) {
    48 <= c <= 57
  }

  predicate IsEnd(c: Byte) {
    c == CR || c == LF
  }

  function Lower(c: Byte): (r: Byte) {
    if 65 <= c <= 90 then c + 32 else c
  }

  /** The leading digits as a number. */
  function Number(s: seq<Byte>, v: nat): (r: nat) {
    if s == [] || !IsDigit(s[0]) then v else Number(s[1..], 10 * v + (s[0] - 48))
  }

  /** `atoi` */
  function Atoi(s: seq<Byte>): (r: int) {
    if s == [] then 0
    else if IsSpace(s[0]) then Atoi(s[1..])
    else if s[0] == 45 then (var n: int := Number(s[1..], 0); -n)
    else if s[0] == 43 then Number(s[1..], 0)
    else Number(s, 0)
  }

  /** Behind the leading digits something else stands. */
  predicate NumberStops(s: seq<Byte>) {
    s != [] && (!IsDigit(s[0]) || NumberStops(s[1..]))
  }

  /** `atoi` comes to its end inside the text, and not only behind it. */
  predicate AtoiStops(s: seq<Byte>) {
    s != [] && if IsSpace(s[0]) then AtoiStops(s[1..]) else if s[0] == 45 || s[0] == 43 then NumberStops(s[1..]) else NumberStops(s)
  }

  /** `strncasecmp` of a text of known length with a word: equal as far as the text goes. */
  predicate Alike(s: seq<Byte>, word: seq<Byte>) {
    && (forall k :: 0 <= k < |s| && k < |word| ==> Lower(s[k]) == word[k])
    && (|s| > |word| ==> s[|word|] == 0)
  }

  /** `strncasecmp` over the length of a word. */
  predicate StartsLike(s: seq<Byte>, word: seq<Byte>) {
    |s| >= |word| && forall k :: 0 <= k < |word| ==> Lower(s[k]) == word[k]
  }

  /** `content-length`, `transfer-encoding` and `chunked` */
  const LengthWord: seq<Byte> := [99, 111, 110, 116, 101, 110, 116, 45, 108, 101, 110, 103, 116, 104]
  const EncodingWord: seq<Byte> := [116, 114, 97, 110, 115, 102, 101, 114, 45, 101, 110, 99, 111, 100, 105, 110, 103]
  const ChunkedWord: seq<Byte> := [99, 104, 117, 110, 107, 101, 100]

  datatype Field = Field(name: seq<Byte>, pad: seq<Byte>, value: seq<Byte>)

  datatype Framing = Framing(contentLength: int, chunked: bool)

  predicate Plain(s: seq<Byte>) {
    forall i :: 0 <= i < |s| ==> !IsEnd(s[i])
  }

  /** A name without a colon, blanks, and a value. */
  predicate FieldOk(f: Field) {
    && f.name != [] && Plain(f.name) && Colon !in f.name
    && (forall i :: 0 <= i < |f.pad| ==> f.pad[i] == 32 || f.pad[i] == 9)
    && Plain(f.value) && (f.value != [] ==> f.value[0] != 32 && f.value[0] != 9)
  }

  predicate FieldsOk(fs: seq<Field>) {
    forall i :: 0 <= i < |fs| ==> FieldOk(fs[i])
  }

  function FieldLine(f: Field): (s: seq<Byte>) {
    f.name + [Colon] + f.pad + f.value
  }

  /** The lines of the fields, and the empty line behind them. */
  function FieldsText(fs: seq<Field>): (s: seq<Byte>) {
    if fs == [] then Crlf else FieldLine(fs[0]) + Crlf + FieldsText(fs[1..])
  }

  function HeaderText(status: seq<Byte>, fs: seq<Field>): (s: seq<Byte>) {
    status + Crlf + FieldsText(fs)
  }

  /** What one field says about the framing of the content; `text` is all that has been received from its value on. */
  function Apply(a: Framing, name: seq<Byte>, text: seq<Byte>): (b: Framing) {
    if Alike(name, LengthWord) then a.(contentLength := Atoi(text))
    else if Alike(name, EncodingWord) && StartsLike(text, ChunkedWord) then a.(chunked := true)
    else a
  }

  /** What is received from the value of field `k` on, with `after` behind the headers. */
  function FromValue(fs: seq<Field>, k: nat, after: seq<Byte>): (s: seq<Byte>)
    requires k < |fs|
  {
    fs[k].value + (Crlf + FieldsText(fs[k + 1..]) + after)
  }

  /** What the first `k` fields say, in order. */
  function Said(fs: seq<Field>, k: nat, after: seq<Byte>): (a: Framing)
    requires k <= |fs|
  {
    if k == 0 then Framing(-1, false) else Apply(Said(fs, k - 1, after), fs[k - 1].name, FromValue(fs, k - 1, after))
  }

  /** What all of them say. */
  function Interpret(fs: seq<Field>, after: seq<Byte>): (a: Framing) {
    Said(fs, |fs|, after)
  }

  // ----- the end of well-formed headers

  lemma StepShift(s: seq<Byte>, i: nat, d: nat)
    requires d <= i && i + 1 < |s|
    ensures var step := ScanStep(s, i);
            step.0 > i && ScanStep(s[d..], i - d) == (step.0 - d, if step.1 == 0 then 0 else step.1 - d) && (step.1 != 0 ==> step.1 > d)
  {
  }

  lemma {:induction false} EndShift(s: seq<Byte>, i: nat, d: nat)
    requires d <= i <= |s|
    ensures EndFrom(s, i) == if EndFrom(s[d..], i - d) == 0 then 0 else EndFrom(s[d..], i - d) + d
    decreases |s| - i
  {
    hide ScanStep;
    if i + 1 < |s| {
      StepShift(s, i, d);
      var step := ScanStep(s, i);
      if step.1 == 0 && step.0 <= |s| {
        EndShift(s, step.0, d);
      }
    }
  }

  /** The scan passes over plain text. */
  lemma {:induction false} EndPlain(x: seq<Byte>, y: seq<Byte>)
    requires Plain(x) && |y| >= 2
    ensures EndFrom(x + y, 0) == if EndFrom(y, 0) == 0 then 0 else |x| + EndFrom(y, 0)
  {
    if x == [] {
      assert x + y == y;
    } else {
      var s := x + y;
      assert s[1..] == x[1..] + y;
      EndShift(s, 1, 1);
      EndPlain(x[1..], y);
    }
  }

  /** The scan passes over a line end in front of another line. */
  lemma EndOfLine(y: seq<Byte>)
    requires |y| >= 3 && !IsEnd(y[0])
    ensures EndFrom(Crlf + y, 0) == if EndFrom(y[1..], 0) == 0 then 0 else 3 + EndFrom(y[1..], 0)
  {
    var s := Crlf + y;
    assert s[0] == CR && s[1] == LF && s[2] == y[0];
    assert s[3..] == y[1..];
    EndShift(s, 3, 3);
  }

  lemma {:induction false} LinesEnd(x: seq<Byte>, fs: seq<Field>, body: seq<Byte>)
    requires Plain(x) && FieldsOk(fs)
    ensures EndFrom(x + (Crlf + (FieldsText(fs) + body)), 0) == |x| + 2 + |FieldsText(fs)|
    decreases |fs|
  {
    hide EndFrom;
    var y := FieldsText(fs) + body;
    EndPlain(x, Crlf + y);
    if fs == [] {
      EmptyLine(body);
    } else {
      var line, more := FieldLine(fs[0]), FieldsText(fs[1..]) + body;
      LineShape(fs[0]);
      assert y == line + (Crlf + more);
      EndOfLine(y);
      assert y[1..] == line[1..] + (Crlf + more);
      LinesEnd(line[1..], fs[1..], body);
    }
  }

  lemma EmptyLine(body: seq<Byte>)
    ensures EndFrom(Crlf + (Crlf + body), 0) == 4
  {
    var s := Crlf + (Crlf + body);
    assert s[0] == CR && s[1] == LF && s[2] == CR && s[3] == LF;
  }

  lemma LineShape(f: Field)
    requires FieldOk(f)
    ensures FieldLine(f) != [] && Plain(FieldLine(f)) && Plain(FieldLine(f)[1..])
  {
    var line := FieldLine(f);
    forall i | 0 <= i < |line|
      ensures !IsEnd(line[i])
    {
      if i < |f.name| {
        assert line[i] == f.name[i];
      } else if i == |f.name| {
        assert line[i] == Colon;
      } else if i < |f.name| + 1 + |f.pad| {
        assert line[i] == f.pad[i - |f.name| - 1];
      } else {
        assert line[i] == f.value[i - |f.name| - 1 - |f.pad|];
      }
    }
  }

  /** The scan finds the end of well-formed headers, whatever follows them. */
  lemma HeaderEnd(status: seq<Byte>, fs: seq<Field>, body: seq<Byte>)
    requires Plain(status) && FieldsOk(fs)
    ensures EndFrom(HeaderText(status, fs) + body, 0) == |HeaderText(status, fs)|
  {
    hide EndFrom, FieldsOk;
    assert HeaderText(status, fs) + body == status + (Crlf + (FieldsText(fs) + body));
    LinesEnd(status, fs, body);
  }

  // ----- what the fields say by themselves

  lemma StartsLine(v: seq<Byte>, rest: seq<Byte>)
    requires rest != [] && IsEnd(rest[0])
    ensures StartsLike(v + rest, ChunkedWord) == StartsLike(v, ChunkedWord)
  {
    if |v| < 7 {
      assert (v + rest)[|v|] == rest[0];
    }
  }

  lemma {:induction false} NumberFixed(s: seq<Byte>, x: seq<Byte>, v: nat)
    requires NumberStops(s)
    ensures NumberStops(s + x) && Number(s + x, v) == Number(s, v)
    decreases |s|
  {
    assert (s + x)[0] == s[0];
    if IsDigit(s[0]) {
      assert (s + x)[1..] == s[1..] + x;
      NumberFixed(s[1..], x, 10 * v + (s[0] - 48));
    }
  }

  /** What follows the place where `atoi` stops does not matter. */
  lemma {:induction false} AtoiFixed(s: seq<Byte>, x: seq<Byte>)
    requires AtoiStops(s)
    ensures AtoiStops(s + x) && Atoi(s + x) == Atoi(s)
    decreases |s|
  {
    assert (s + x)[0] == s[0] && (s + x)[1..] == s[1..] + x;
    if IsSpace(s[0]) {
      AtoiFixed(s[1..], x);
    } else if s[0] == 45 || s[0] == 43 {
      NumberFixed(s[1..], x, 0);
    } else {
      NumberFixed(s, x, 0);
    }
  }

  lemma {:induction false} NumberStopsAt(s: seq<Byte>, q: nat)
    requires q < |s| && !IsDigit(s[q])
    ensures NumberStops(s)
    decreases |s|
  {
    if q > 0 {
      NumberStopsAt(s[1..], q - 1);
    }
  }

  lemma {:induction false} AtoiStopsAt(s: seq<Byte>, p: nat, q: nat)
    requires p < q < |s| && !IsSpace(s[p]) && !IsDigit(s[q])
    ensures AtoiStops(s)
    decreases |s|
  {
    if IsSpace(s[0]) {
      AtoiStopsAt(s[1..], p - 1, q - 1);
    } else if s[0] == 45 || s[0] == 43 {
      NumberStopsAt(s[1..], q - 1);
    } else {
      NumberStopsAt(s, q);
    }
  }

  /** White space is passed over. */
  lemma {:induction false} AtoiSpace(s: seq<Byte>, x: seq<Byte>)
    requires AllSpace(s)
    ensures Atoi(s + x) == Atoi(x) && (AtoiStops(s + x) <==> AtoiStops(x))
    decreases |s|
  {
    if s == [] {
      assert s + x == x;
    } else {
      assert (s + x)[0] == s[0] && (s + x)[1..] == s[1..] + x;
      AtoiSpace(s[1..], x);
    }
  }

  predicate AllSpace(s: seq<Byte>) {
    forall i :: 0 <= i < |s| ==> IsSpace(s[i])
  }

  /** The last field is a length without anything visible in its value. */
  predicate EndsBlank(fs: seq<Field>) {
    fs != [] && Alike(fs[|fs| - 1].name, LengthWord) && AllSpace(fs[|fs| - 1].value)
  }

  /** The number in a value ends on its line, or on the next one; there is none on either only at the end of the headers. */
  lemma ValueStops(fs: seq<Field>, k: nat)
    requires FieldsOk(fs) && k < |fs|
    ensures AtoiStops(FromValue(fs, k, [])) <==> !(AllSpace(fs[k].value) && k == |fs| - 1)
  {
    var v, more := fs[k].value, fs[k + 1..];
    var s := FromValue(fs, k, []);
    assert s[|v|] == CR;
    if !AllSpace(v) {
      var p :| 0 <= p < |v| && !IsSpace(v[p]);
      assert s[p] == v[p];
      AtoiStopsAt(s, p, |v|);
    } else if k < |fs| - 1 {
      var f := fs[k + 1];
      var q := |v| + 2 + |f.name|;
      assert more[0] == f && FieldsText(more) == FieldLine(f) + Crlf + FieldsText(more[1..]);
      assert FieldLine(f)[|f.name|] == Colon;
      assert s[q] == Colon && s[|v| + 2 + |FieldLine(f)|] == CR;
      AtoiStopsAt(s, q, |v| + 2 + |FieldLine(f)|);
    } else {
      assert more == [] && s == v + (Crlf + Crlf);
      AtoiSpace(v, Crlf + Crlf);
      AtoiSpace(Crlf + Crlf, []);
      assert Crlf + Crlf + [] == Crlf + Crlf;
    }
  }

  lemma SaidMore(fs: seq<Field>, k: nat, after: seq<Byte>)
    requires k < |fs|
    ensures FromValue(fs, k, after) == fs[k].value + (Crlf + FieldsText(fs[k + 1..]) + after)
    ensures Said(fs, k + 1, after) == Apply(Said(fs, k, after), fs[k].name, FromValue(fs, k, after))
  {
    hide Apply;
  }

  lemma SaidNone(fs: seq<Field>, after: seq<Byte>)
    ensures Said(fs, 0, after) == Framing(-1, false)
  {
  }

  lemma FromValueMore(fs: seq<Field>, k: nat, x: seq<Byte>)
    requires k < |fs|
    ensures FromValue(fs, k, x) == FromValue(fs, k, []) + x
    ensures StartsLike(FromValue(fs, k, x), ChunkedWord) == StartsLike(fs[k].value, ChunkedWord)
  {
    hide FieldsText;
    assert FromValue(fs, k, x) == FromValue(fs, k, []) + x;
    StartsLine(fs[k].value, Crlf + FieldsText(fs[k + 1..]) + x);
  }

  lemma ApplyFixed(fs: seq<Field>, k: nat, a: Framing, x: seq<Byte>)
    requires FieldsOk(fs) && k < |fs| && (k == |fs| - 1 ==> !EndsBlank(fs))
    ensures Apply(a, fs[k].name, FromValue(fs, k, x)) == Apply(a, fs[k].name, FromValue(fs, k, []))
  {
    hide FromValue, FieldsOk, AtoiStops, Atoi, Alike, StartsLike;
    FromValueMore(fs, k, x);
    FromValueMore(fs, k, []);
    ValueStops(fs, k);
    if Alike(fs[k].name, LengthWord) {
      AtoiFixed(FromValue(fs, k, []), x);
    }
  }

  /** All fields but a blank length at the end say the same whatever follows the headers. */
  lemma {:induction false} SaidFixed(fs: seq<Field>, k: nat, x: seq<Byte>)
    requires FieldsOk(fs) && k <= |fs| && (k == |fs| ==> !EndsBlank(fs))
    ensures Said(fs, k, x) == Said(fs, k, [])
  {
    hide *;
    if k == 0 {
      SaidNone(fs, x);
      SaidNone(fs, []);
    } else {
      SaidFixed(fs, k - 1, x);
      SaidMore(fs, k - 1, x);
      SaidMore(fs, k - 1, []);
      ApplyFixed(fs, k - 1, Said(fs, k - 1, []), x);
    }
  }

  /** A blank length at the end says what follows the headers. */
  lemma SaidBlank(fs: seq<Field>, x: seq<Byte>)
    requires FieldsOk(fs) && EndsBlank(fs)
    ensures Interpret(fs, x) == Said(fs, |fs| - 1, []).(contentLength := Atoi(x))
    ensures AtoiStops(FromValue(fs, |fs| - 1, x)) <==> AtoiStops(x)
  {
    var k := |fs| - 1;
    SaidFixed(fs, k, x);
    var v := fs[k].value;
    assert fs[k + 1..] == [] && FromValue(fs, k, x) == v + (Crlf + Crlf + x);
    AtoiSpace(v, Crlf + Crlf + x);
    AtoiSpace(Crlf + Crlf, x);
  }

  /** The framing does not depend on what follows the headers if and only if they do not end in a blank length. */
  lemma FramingIff(fs: seq<Field>)
    requires FieldsOk(fs)
    ensures (forall x, y :: Interpret(fs, x) == Interpret(fs, y)) <==> !EndsBlank(fs)
  {
    if EndsBlank(fs) {
      SaidBlank(fs, []);
      SaidBlank(fs, [53]);
      assert Atoi([53]) == Number([53], 0) == Number([], 5) == 5 by {
        assert [53][1..] == [];
      }
      assert Interpret(fs, []) != Interpret(fs, [53]);
    } else {
      forall x, y
        ensures Interpret(fs, x) == Interpret(fs, y)
      {
        SaidFixed(fs, |fs|, x);
        SaidFixed(fs, |fs|, y);
      }
    }
  }

  /** Once the number has ended, more input does not change it. */
  lemma FramingLater(fs: seq<Field>, x: seq<Byte>, y: seq<Byte>)
    requires FieldsOk(fs) && (EndsBlank(fs) ==> AtoiStops(x))
    ensures Interpret(fs, x + y) == Interpret(fs, x)
  {
    if EndsBlank(fs) {
      SaidBlank(fs, x);
      SaidBlank(fs, x + y);
      AtoiFixed(x, y);
    } else {
      SaidFixed(fs, |fs|, x);
      SaidFixed(fs, |fs|, x + y);
    }
  }

  // ----- names

  /** A name that is a word, and not only the beginning of it. */
  predicate Named(name: seq<Byte>, word: seq<Byte>) {
    |name| == |word| && Alike(name, word)
  }

  /** What one field says if only whole names count. */
  function ApplyNamed(a: Framing, name: seq<Byte>, text: seq<Byte>): (b: Framing) {
    if Named(name, LengthWord) then a.(contentLength := Atoi(text))
    else if Named(name, EncodingWord) && StartsLike(text, ChunkedWord) then a.(chunked := true)
    else a
  }

  function SaidNamed(fs: seq<Field>, k: nat, after: seq<Byte>): (a: Framing)
    requires k <= |fs|
  {
    if k == 0 then Framing(-1, false) else ApplyNamed(SaidNamed(fs, k - 1, after), fs[k - 1].name, FromValue(fs, k - 1, after))
  }

  /** The name is neither the beginning of one of the words, nor one of them with a zero byte behind it. */
  predicate WholeName(name: seq<Byte>) {
    (Alike(name, LengthWord) ==> Named(name, LengthWord)) && (Alike(name, EncodingWord) ==> Named(name, EncodingWord))
  }

  /** With such names the framing is the one that the fields with these names declare. */
  lemma {:induction false} NamesExact(fs: seq<Field>, k: nat, after: seq<Byte>)
    requires k <= |fs| && forall i :: 0 <= i < |fs| ==> WholeName(fs[i].name)
    ensures Said(fs, k, after) == SaidNamed(fs, k, after)
  {
    hide FromValue, Alike, Said, SaidNamed, Atoi, StartsLike;
    NamedSteps(fs, k, after);
    if k == 0 {
      SaidNone(fs, after);
    } else {
      NamesExact(fs, k - 1, after);
      assert WholeName(fs[k - 1].name);
      SaidMore(fs, k - 1, after);
    }
  }

  lemma NamedSteps(fs: seq<Field>, k: nat, after: seq<Byte>)
    requires k <= |fs|
    ensures SaidNamed(fs, k, after) == if k == 0 then Framing(-1, false)
                                       else ApplyNamed(SaidNamed(fs, k - 1, after), fs[k - 1].name, FromValue(fs, k - 1, after))
  {
    hide ApplyNamed;
  }

  /** And only with such names, whatever the value. */
  lemma NameIff(name: seq<Byte>)
    ensures (forall v :: Interpret([Field(name, [], v)], []) == SaidNamed([Field(name, [], v)], 1, [])) <==> WholeName(name)
  {
    hide FromValue, Atoi, Alike;
    if WholeName(name) {
      forall v
        ensures Interpret([Field(name, [], v)], []) == SaidNamed([Field(name, [], v)], 1, [])
      {
        NamesExact([Field(name, [], v)], 1, []);
      }
    } else if Alike(name, LengthWord) && !Named(name, LengthWord) {
      ShortLength(name);
    } else {
      WordsApart(name);
      ShortEncoding(name);
    }
  }

  lemma WordsApart(name: seq<Byte>)
    ensures Named(name, LengthWord) ==> !Alike(name, EncodingWord)
  {
    if Named(name, LengthWord) {
      assert Lower(name[0]) == LengthWord[0] != EncodingWord[0];
    }
  }

  lemma ShortLength(name: seq<Byte>)
    requires Alike(name, LengthWord) && !Named(name, LengthWord)
    ensures Interpret([Field(name, [], [53])], []) != SaidNamed([Field(name, [], [53])], 1, [])
  {
    var fs := [Field(name, [], [53])];
    var s := FromValue(fs, 0, []);
    assert s[0] == 53 && s[1..][0] == CR;
    assert Atoi(s) == Number(s, 0) == Number(s[1..], 5) == 5;
    hide Atoi, FromValue, Alike;
    assert Said(fs, 1, []) == Apply(Said(fs, 0, []), name, s);
    assert SaidNamed(fs, 1, []) == ApplyNamed(SaidNamed(fs, 0, []), name, s);
  }

  lemma ShortEncoding(name: seq<Byte>)
    requires !Alike(name, LengthWord) && Alike(name, EncodingWord) && !Named(name, EncodingWord)
    ensures Interpret([Field(name, [], ChunkedWord)], []) != SaidNamed([Field(name, [], ChunkedWord)], 1, [])
  {
    var fs := [Field(name, [], ChunkedWord)];
    FromValueMore(fs, 0, []);
    assert StartsLike(ChunkedWord, ChunkedWord);
    hide FromValue, Alike, StartsLike;
    assert Said(fs, 1, []) == Apply(Said(fs, 0, []), name, FromValue(fs, 0, []));
    assert SaidNamed(fs, 1, []) == ApplyNamed(SaidNamed(fs, 0, []), name, FromValue(fs, 0, []));
  }

  // ----- reading the fields

  /** The line that starts at `start`, with the headers up to `end` behind it. */
  ghost predicate LineAt(buf: seq<Byte>, start: nat, end: nat, line: seq<Byte>, fs: seq<Field>) {
    start <= end <= |buf| && buf[start..end] == line + (Crlf + FieldsText(fs))
  }

  lemma LineBytes(buf: seq<Byte>, start: nat, end: nat, line: seq<Byte>, fs: seq<Field>, j: nat)
    requires LineAt(buf, start, end, line, fs) && j <= |line|
    ensures start + |line| + 4 <= end && buf[start + j] == if j < |line| then line[j] else CR
  {
    assert buf[start..end][j] == (line + (Crlf + FieldsText(fs)))[j];
    assert |FieldsText(fs)| >= 2;
  }

  /** Behind the end of a line the next one starts. */
  lemma NextLine(buf: seq<Byte>, start: nat, end: nat, line: seq<Byte>, fs: seq<Field>)
    requires LineAt(buf, start, end, line, fs) && FieldsOk(fs)
    ensures var e := start + |line|;
            && e + 4 <= end && buf[e] == CR && buf[e + 1] == LF
            && (fs != [] ==> !IsEnd(buf[e + 2]) && LineAt(buf, e + 2, end, FieldLine(fs[0]), fs[1..]))
            && (fs == [] ==> end == e + 4 && buf[e + 2] == CR && buf[e + 3] == LF)
  {
    var e := start + |line|;
    assert |FieldsText(fs)| >= 2;
    BehindLine(buf, start, end, line, FieldsText(fs));
    if fs != [] {
      LineShape(fs[0]);
      assert FieldsText(fs) == FieldLine(fs[0]) + (Crlf + FieldsText(fs[1..]));
    }
  }

  lemma BehindLine(buf: seq<Byte>, start: nat, end: nat, line: seq<Byte>, rest: seq<Byte>)
    requires start <= end <= |buf| && buf[start..end] == line + (Crlf + rest) && |rest| >= 2
    ensures var e := start + |line|;
            && e + 2 + |rest| == end && buf[e] == CR && buf[e + 1] == LF && buf[e + 2..end] == rest
            && buf[e + 2] == rest[0] && buf[e + 3] == rest[1]
  {
    var e, s := start + |line|, line + (Crlf + rest);
    assert buf[e] == s[|line|] && buf[e + 1] == s[|line| + 1] && buf[e + 2] == s[|line| + 2] && buf[e + 3] == s[|line| + 3];
    assert buf[e + 2..end] == s[|line| + 2..] == rest;
  }

  /** How far the reading of a well-formed header has come: `k` fields are done. */
  ghost predicate Progress(buf: seq<Byte>, end: nat, status: seq<Byte>, fs: seq<Field>, k: nat,
                           i: nat, start: nat, colon: nat, value: nat, a: Framing)
  {
    && k <= |fs| && end <= |buf| && a == Said(fs, k, buf[end..])
    && if i + 1 >= end then k == |fs|
       else if start == 0 then k == 0 && LineAt(buf, 0, end, status, fs) && i <= |status| && colon == 0 && value == 0
       else
         && k < |fs| && LineAt(buf, start, end, FieldLine(fs[k]), fs[k + 1..])
         && var name := start + |fs[k].name|;
            || (colon == start && value == 0 && start < i <= name)
            || (colon == name && value == name + 1 + |fs[k].pad| && value <= i <= start + |FieldLine(fs[k])|)
  }

  /** The end of a line: what its field says, and where the next line starts. */
  method EndLine(buf: seq<Byte>, at: nat, start: nat, colon: nat, value: nat, a: Framing) returns (i: nat, b: Framing, past: bool)
    requires at < |buf| && IsEnd(buf[at]) && (colon > start && value > colon ==> start <= colon <= |buf| && value <= |buf|)
    ensures at < i <= |buf| && (forall j :: at <= j < i ==> IsEnd(buf[j])) && (i < |buf| ==> !IsEnd(buf[i]))
    ensures b == if colon > start && value > colon then Apply(a, buf[start..colon], buf[value..]) else a
    ensures past <==> colon > start && value > colon && Alike(buf[start..colon], LengthWord) && !AtoiStops(buf[value..])
  {
    b, past := a, false;
    if colon > start && value > colon {
      if Alike(buf[start..colon], LengthWord) {
        b := b.(contentLength := Atoi(buf[value..]));
        past := !AtoiStops(buf[value..]);
      } else if Alike(buf[start..colon], EncodingWord) && StartsLike(buf[value..], ChunkedWord) {
        b := b.(chunked := true);
      }
    }
    i := at;
    while i < |buf| && IsEnd(buf[i])
      invariant at <= i <= |buf| && (forall j :: at <= j < i ==> IsEnd(buf[j])) && (i == at ==> IsEnd(buf[i]))
    {
      i := i + 1;
    }
  }

  /** The blanks behind a colon. */
  method SkipBlanks(buf: seq<Byte>, at: nat, end: nat) returns (i: nat)
    requires at + 1 < end <= |buf|
    ensures at <= i < end && (forall j :: at < j <= i ==> IsBlank(buf[j])) && (i + 1 < end ==> !IsBlank(buf[i + 1]))
  {
    i := at;
    while i + 1 < end && IsBlank(buf[i + 1])
      invariant at <= i < end && (forall j :: at < j <= i ==> IsBlank(buf[j]))
    {
      i := i + 1;
    }
  }

  lemma ProgressStart(buf: seq<Byte>, end: nat, status: seq<Byte>, fs: seq<Field>)
    requires end <= |buf| && buf[..end] == HeaderText(status, fs)
    ensures Progress(buf, end, status, fs, 0, 0, 0, 0, 0, Framing(-1, false))
  {
    assert HeaderText(status, fs) == status + (Crlf + FieldsText(fs));
    assert buf[0..end] == buf[..end];
    assert LineAt(buf, 0, end, status, fs);
    LineBytes(buf, 0, end, status, fs, 0);
  }

  /** The bytes of a field line. */
  lemma FieldByte(f: Field, j: nat)
    requires FieldOk(f) && j < |FieldLine(f)|
    ensures !IsEnd(FieldLine(f)[j])
    ensures j < |f.name| ==> FieldLine(f)[j] != Colon
    ensures j == |f.name| ==> FieldLine(f)[j] == Colon
    ensures |f.name| < j <= |f.name| + |f.pad| ==> IsBlank(FieldLine(f)[j])
    ensures j == |f.name| + 1 + |f.pad| ==> !IsBlank(FieldLine(f)[j])
  {
    LineShape(f);
  }

  /** Between the colon and the value stand the blanks. */
  lemma ProgressColon(buf: seq<Byte>, end: nat, status: seq<Byte>, fs: seq<Field>, k: nat, i: nat, start: nat, colon: nat, value: nat, a: Framing, next: nat)
    requires FieldsOk(fs) && end <= |buf| && Progress(buf, end, status, fs, k, i, start, colon, value, a)
    requires i + 1 < end && start > 0 && colon <= start && buf[i] == Colon
    requires i <= next < end && (forall j :: i < j <= next ==> IsBlank(buf[j])) && (next + 1 < end ==> !IsBlank(buf[next + 1]))
    ensures Progress(buf, end, status, fs, k, next + 1, start, i, next + 1, a)
  {
    hide FieldsOk, FieldOk, FieldLine, Said, LineAt;
    var f := fs[k];
    FieldAt(fs, k);
    FieldSizes(f);
    LineBytes(buf, start, end, FieldLine(f), fs[k + 1..], i - start);
    FieldByte(f, i - start);
    var name := start + |f.name|;
    assert i == name;
    var stop := name + |f.pad|;
    forall j | name < j <= stop
      ensures IsBlank(buf[j])
    {
      LineBytes(buf, start, end, FieldLine(f), fs[k + 1..], j - start);
      FieldByte(f, j - start);
    }
    LineBytes(buf, start, end, FieldLine(f), fs[k + 1..], stop + 1 - start);
    if stop + 1 < start + |FieldLine(f)| {
      FieldByte(f, stop + 1 - start);
    }
    assert next == stop;
  }

  lemma FieldAt(fs: seq<Field>, k: nat)
    requires FieldsOk(fs) && k < |fs|
    ensures FieldOk(fs[k]) && FieldsOk(fs[k + 1..])
  {
  }

  lemma FieldSizes(f: Field)
    requires FieldOk(f)
    ensures |FieldLine(f)| == |f.name| + 1 + |f.pad| + |f.value| && |f.name| > 0
  {
  }

  /** In front of the colon, and inside a value, a byte is passed over. */
  lemma ProgressPlain(buf: seq<Byte>, end: nat, status: seq<Byte>, fs: seq<Field>, k: nat, i: nat, start: nat, colon: nat, value: nat, a: Framing)
    requires Plain(status) && FieldsOk(fs) && end <= |buf| && Progress(buf, end, status, fs, k, i, start, colon, value, a)
    requires i + 1 < end && !(start > 0 && colon <= start && buf[i] == Colon) && !IsEnd(buf[i])
    ensures Progress(buf, end, status, fs, k, i + 1, start, colon, value, a)
  {
    hide FieldsOk, FieldOk, FieldLine, Said, LineAt;
    if start == 0 {
      LineBytes(buf, 0, end, status, fs, i);
    } else {
      FieldAt(fs, k);
      FieldSizes(fs[k]);
      LineBytes(buf, start, end, FieldLine(fs[k]), fs[k + 1..], i - start);
      if i - start < |FieldLine(fs[k])| {
        FieldByte(fs[k], i - start);
      }
    }
  }

  /** The parts of a field line, cut out of the buffer. */
  lemma FieldParts(buf: seq<Byte>, start: nat, end: nat, f: Field, fs: seq<Field>)
    requires FieldOk(f) && LineAt(buf, start, end, FieldLine(f), fs)
    ensures var name, value := start + |f.name|, start + |f.name| + 1 + |f.pad|;
            && name <= value <= end && buf[start..name] == f.name
            && buf[value..] == f.value + (Crlf + FieldsText(fs) + buf[end..])
  {
    hide FieldsText, FieldOk;
    CutOut(buf, start, end, f.name, [Colon] + f.pad, f.value, Crlf + FieldsText(fs));
    assert FieldLine(f) == f.name + ([Colon] + f.pad) + f.value;
  }

  lemma CutOut(buf: seq<Byte>, start: nat, end: nat, a: seq<Byte>, b: seq<Byte>, c: seq<Byte>, d: seq<Byte>)
    requires start <= end <= |buf| && buf[start..end] == a + b + c + d
    ensures var m, n := start + |a|, start + |a| + |b|;
            m <= n <= end && buf[start..m] == a && buf[n..] == c + (d + buf[end..])
  {
    var n, s := start + |a| + |b|, a + b + c + d;
    assert s[..|a|] == a && s[|a| + |b|..] == c + d;
    assert buf[start..end][..|a|] == buf[start..start + |a|];
    assert buf[start..end][|a| + |b|..] == buf[n..end];
    assert buf[n..] == buf[n..end] + buf[end..];
  }

  /** At the end of a line its field has been read. */
  lemma ProgressField(buf: seq<Byte>, end: nat, status: seq<Byte>, fs: seq<Field>, k: nat, i: nat, start: nat, colon: nat, value: nat, a: Framing)
    requires FieldsOk(fs) && end <= |buf| && Progress(buf, end, status, fs, k, i, start, colon, value, a)
    requires i + 1 < end && start > 0 && IsEnd(buf[i])
    ensures k < |fs| && i == start + |FieldLine(fs[k])| && colon > start && value > colon && value <= |buf|
    ensures buf[value..] == FromValue(fs, k, buf[end..]) && buf[start..colon] == fs[k].name && Apply(a, buf[start..colon], buf[value..]) == Said(fs, k + 1, buf[end..])
  {
    hide FieldsOk, FieldOk, FieldLine, Said, LineAt, Apply;
    var f := fs[k];
    FieldAt(fs, k);
    FieldSizes(f);
    LineBytes(buf, start, end, FieldLine(f), fs[k + 1..], i - start);
    if i - start < |FieldLine(f)| {
      FieldByte(f, i - start);
    }
    FieldParts(buf, start, end, f, fs[k + 1..]);
    SaidMore(fs, k, buf[end..]);
  }

  /** And the next line starts, or the headers end. */
  lemma ProgressEnd(buf: seq<Byte>, end: nat, status: seq<Byte>, fs: seq<Field>, k: nat, start: nat, line: seq<Byte>, a: Framing, next: nat)
    requires FieldsOk(fs) && k <= |fs| && end <= |buf| && LineAt(buf, start, end, line, fs[k..]) && a == Said(fs, k, buf[end..])
    requires start + |line| < next <= |buf| && (forall j :: start + |line| <= j < next ==> IsEnd(buf[j])) && (next < |buf| ==> !IsEnd(buf[next]))
    ensures Progress(buf, end, status, fs, k, next + 1, next, next, 0, a)
  {
    hide FieldsOk, FieldOk, FieldLine, Said, LineAt;
    FieldsFrom(fs, k);
    NextLine(buf, start, end, line, fs[k..]);
    var e := start + |line|;
    if k < |fs| {
      assert next == e + 2;
      FieldAt(fs, k);
      FieldSizes(fs[k]);
      assert fs[k..][1..] == fs[k + 1..];
      LineBytes(buf, e + 2, end, FieldLine(fs[k]), fs[k + 1..], 0);
    } else {
      assert fs[k..] == [];
      assert next != e + 1 && next != e + 2 && next != e + 3;
    }
  }

  /** After `k` fields a length has been read behind what has been received. */
  predicate PastSaid(fs: seq<Field>, k: nat, after: seq<Byte>) {
    k == |fs| && EndsBlank(fs) && !AtoiStops(after)
  }

  lemma PastStep(fs: seq<Field>, k: nat, after: seq<Byte>)
    requires FieldsOk(fs) && k < |fs|
    ensures PastSaid(fs, k + 1, after) <==> Alike(fs[k].name, LengthWord) && !AtoiStops(FromValue(fs, k, after))
  {
    hide FromValue, AtoiStops, Alike, FieldsOk;
    FromValueMore(fs, k, after);
    ValueStops(fs, k);
    if AtoiStops(FromValue(fs, k, [])) {
      AtoiFixed(FromValue(fs, k, []), after);
    } else if Alike(fs[k].name, LengthWord) {
      SaidBlank(fs, after);
    }
  }

  /** The end of the status line, or of a field. */
  lemma ProgressLine(buf: seq<Byte>, end: nat, status: seq<Byte>, fs: seq<Field>, k: nat, i: nat, start: nat, colon: nat, value: nat, a: Framing,
                     next: nat, b: Framing) returns (k': nat)
    requires Plain(status) && FieldsOk(fs) && end <= |buf| && Progress(buf, end, status, fs, k, i, start, colon, value, a)
    requires i + 1 < end && IsEnd(buf[i]) && start <= colon <= |buf| && value <= |buf|
    requires i < next <= |buf| && (forall j :: i <= j < next ==> IsEnd(buf[j])) && (next < |buf| ==> !IsEnd(buf[next]))
    requires b == if colon > start && value > colon then Apply(a, buf[start..colon], buf[value..]) else a
    ensures Progress(buf, end, status, fs, k', next + 1, next, next, 0, b) && !PastSaid(fs, k, buf[end..])
    ensures PastSaid(fs, k', buf[end..]) <==> colon > start && value > colon && Alike(buf[start..colon], LengthWord) && !AtoiStops(buf[value..])
  {
    hide FieldsOk, FieldLine, Said, LineAt, Apply, AtoiStops, Alike, FromValue;
    if start == 0 {
      k' := 0;
      LineBytes(buf, 0, end, status, fs, i);
      assert fs[0..] == fs;
      ProgressEnd(buf, end, status, fs, 0, 0, status, b, next);
    } else {
      ProgressField(buf, end, status, fs, k, i, start, colon, value, a);
      k' := k + 1;
      PastStep(fs, k, buf[end..]);
      ProgressEnd(buf, end, status, fs, k', start, FieldLine(fs[k]), b, next);
    }
  }

  lemma ProgressDone(buf: seq<Byte>, end: nat, status: seq<Byte>, fs: seq<Field>, k: nat, i: nat, start: nat, colon: nat, value: nat, a: Framing)
    requires i + 1 >= end && Progress(buf, end, status, fs, k, i, start, colon, value, a)
    ensures a == Interpret(fs, buf[end..]) && (PastSaid(fs, k, buf[end..]) <==> EndsBlank(fs) && !AtoiStops(buf[end..]))
  {
  }

  lemma FieldsFrom(fs: seq<Field>, k: nat)
    requires FieldsOk(fs) && k <= |fs|
    ensures FieldsOk(fs[k..])
  {
  }

  /**
   * Reads the header lines: the last length, and whether the content is chunked.  What has been received is read past its end
   * exactly when the headers end in a blank length and no number ends in what follows them.
   */
  method ParseHeaders(buf: seq<Byte>, end: nat, ghost good: bool, ghost status: seq<Byte>, ghost fs: seq<Field>) returns (a: Framing, past: bool)
    requires end <= |buf|
    requires good ==> Plain(status) && FieldsOk(fs) && buf[..end] == HeaderText(status, fs)
    ensures good ==> a == Interpret(fs, buf[end..]) && (past <==> EndsBlank(fs) && !AtoiStops(buf[end..]))
  {
    hide *;
    a, past := Framing(-1, false), false;
    var i, start, colon, value: nat := 0, 0, 0, 0;
    ghost var k := 0;
    if good {
      ProgressStart(buf, end, status, fs);
      PastStart(fs, buf[end..]);
    }
    while i < end - 1
      invariant good ==> Progress(buf, end, status, fs, k, i, start, colon, value, a) && (past <==> PastSaid(fs, k, buf[end..]))
      invariant start <= colon <= |buf| && start <= i && value <= |buf|
      decreases end - i
    {
      if start > 0 && colon <= start && buf[i] == Colon {
        var next := SkipBlanks(buf, i, end);
        if good {
          ProgressColon(buf, end, status, fs, k, i, start, colon, value, a, next);
        }
        colon, value, i := i, next + 1, next;
      } else if IsEnd(buf[i]) {
        var next, b, p := EndLine(buf, i, start, colon, value, a);
        if good {
          k := ProgressLine(buf, end, status, fs, k, i, start, colon, value, a, next, b);
        }
        past := past || p;
        i, a, start, colon, value := next, b, next, next, 0;
      } else {
        if good {
          ProgressPlain(buf, end, status, fs, k, i, start, colon, value, a);
        }
      }
      i := i + 1;
    }
    if good {
      ProgressDone(buf, end, status, fs, k, i, start, colon, value, a);
    }
  }

  lemma PastStart(fs: seq<Field>, after: seq<Byte>)
    ensures !PastSaid(fs, 0, after)
  {
  }
}
