/** Reading a response from a socket that delivers it in fragments. */
module HttpResponse {
  import opened ByteStrings
  import opened HttpText
  import opened HttpHeaders
  import opened HttpNumbers
  import opened HttpChunks

  /** A response: well-formed headers, and content that is chunked, counted, or ended by the end of the connection. */
  datatype Response = Response(status: seq<Byte>, fields: seq<Field>, body: seq<Byte>, chunks: seq<Chunk>, zero: seq<Byte>, junk: seq<Byte>)

  /**
   * The body of a chunked response is its chunks, and possibly more behind the last one; there must be no length beside it.
   * `first` is the part of the body that arrives together with the end of the headers.
   */
  ghost predicate ResponseOk(r: Response, first: seq<Byte>) {
    && Plain(r.status) && HttpHeaders.FieldsOk(r.fields)
    && var a := Interpret(r.fields, first);
       a.chunked ==> ChunksOk(r.chunks) && ZeroOk(r.zero) && r.body == Body(r.chunks, r.zero) + r.junk && a.contentLength <= 0
  }

  /** What arrives behind the first `e` bytes in the same fragment as the last of them. */
  function FirstPart(fragments: seq<seq<Byte>>, e: nat): (s: seq<Byte>) {
    if fragments == [] then [] else if |fragments[0]| >= e then fragments[0][e..] else FirstPart(fragments[1..], e - |fragments[0]|)
  }

  ghost function ResponseText(r: Response): (s: seq<Byte>) {
    HeaderText(r.status, r.fields) + r.body
  }

  /** As much of `s` as a length allows, if it is positive. */
  function Limited(s: seq<Byte>, length: int): (t: seq<Byte>) {
    if 0 < length < |s| then s[..length] else s
  }

  /** How many bytes of the chunks do not arrive when `tail` does not. */
  function Lost(r: Response, tail: seq<Byte>): (n: nat) {
    if |tail| <= |r.junk| then 0 else |tail| - |r.junk|
  }

  /** The content of a response of which all but `tail` arrives: the data of the chunks that do, or the counted part of the body. */
  ghost predicate IsContent(r: Response, first: seq<Byte>, tail: seq<Byte>, content: seq<Byte>)
    requires |tail| <= |ResponseText(r)|
  {
    var a := Interpret(r.fields, first);
    if a.chunked then
      content == Arrived(r.chunks, r.zero, Lost(r, tail))
    else
      content == Limited(r.body[..if |tail| <= |r.body| then |r.body| - |tail| else 0], a.contentLength)
  }

  /** A number is read behind what has been received: the headers end in a blank length, and no number ends in what came with them. */
  ghost predicate ReadsPast(r: Response, first: seq<Byte>, tail: seq<Byte>) {
    |tail| <= |r.body| && EndsBlank(r.fields) && !AtoiStops(first)
  }

  lemma TextSplit(r: Response, header: seq<Byte>, rest: seq<Byte>)
    requires header + rest == ResponseText(r) && |header| >= |HeaderText(r.status, r.fields)|
    ensures var e := |HeaderText(r.status, r.fields)|;
            header[..e] == HeaderText(r.status, r.fields) && header[e..] + rest == r.body
  {
    var e := |HeaderText(r.status, r.fields)|;
    assert (header + rest)[..e] == header[..e] && ResponseText(r)[..e] == HeaderText(r.status, r.fields);
    assert (header + rest)[e..] == header[e..] + rest && ResponseText(r)[e..] == r.body;
  }

  /** An end that was not there before lies in what has come in. */
  lemma NewEnd(header: seq<Byte>, buf: seq<Byte>)
    requires EndFrom(header, 0) == 0
    ensures EndFrom(header + buf, 0) == 0 || |header| < EndFrom(header + buf, 0)
  {
    var all := header + buf;
    if EndFrom(all, 0) != 0 && EndFrom(all, 0) <= |header| {
      assert all[..|header|] == header;
      EndSooner(all, |header|, 0);
    }
  }

  /** The scan finds the end of the headers exactly when they have been received. */
  lemma EndFound(r: Response, header: seq<Byte>, rest: seq<Byte>)
    requires Plain(r.status) && HttpHeaders.FieldsOk(r.fields) && header + rest == ResponseText(r)
    ensures var e := |HeaderText(r.status, r.fields)|;
            EndFrom(header, 0) == (if |header| >= e then e else 0) && e > 0
  {
    hide EndFrom, FieldsText, Interpret, HttpHeaders.FieldsOk, Plain, Body, ChunksOk, ZeroOk;
    var e, all := |HeaderText(r.status, r.fields)|, ResponseText(r);
    HeaderEnd(r.status, r.fields, r.body);
    assert header == all[..|header|];
    if |header| >= e {
      EndSooner(all, |header|, 0);
    } else if EndFrom(header, 0) != 0 {
      EndLater(all, |header|, 0);
    }
  }

  lemma BodyStart(r: Response, first: seq<Byte>, lost: nat)
    requires ResponseOk(r, first) && Interpret(r.fields, first).chunked
    ensures var t := Line([], r.chunks, r.zero);
            TodoOk(t) && Text(t) + r.junk == r.body && Output(t, lost) == Arrived(r.chunks, r.zero, lost) && SizeRead(t) == [] && Left(t) == 0
  {
    var t := Line([], r.chunks, r.zero);
    assert [] + Body(r.chunks, r.zero) == Body(r.chunks, r.zero);
  }

  class Reader {
    var header: seq<Byte>
    var end: nat               // the length of the headers, 0 until it is known
    var framing: Framing
    var past: bool             // a number has been read behind what had been received
    const decoder: Decoder     // holds the content

    constructor ()
      ensures header == [] && end == 0 && !past && decoder.content == [] && decoder.chunkSize == 0 && decoder.sizeBuf == [] && fresh(decoder)
    {
      header, end, framing, past := [], 0, Framing(-1, false), false;
      decoder := new Decoder();
    }

    ghost predicate Valid()
      reads this, decoder
    {
      && decoder.chunkSize < Word && |decoder.sizeBuf| <= SizeDigits && AllHex(decoder.sizeBuf)
      && (end == 0 ==> decoder.content == [] && EndFrom(header, 0) == 0)
      && (end != 0 && !framing.chunked && framing.contentLength > 0 ==> |decoder.content| < framing.contentLength)
    }

    /** The headers have not ended yet. */
    ghost predicate InHeaders(r: Response, rest: seq<Byte>)
      reads this, decoder
    {
      && end == 0 && !past && header + rest == ResponseText(r) && |header| < |HeaderText(r.status, r.fields)|
      && decoder.content == [] && decoder.chunkSize == 0 && decoder.sizeBuf == []
    }

    /** The headers have been read, and `rest` is what is left of the body. */
    ghost predicate InBody(r: Response, first: seq<Byte>, rest: seq<Byte>, t: Todo, lost: nat)
      reads this, decoder
    {
      && end != 0 && framing == Interpret(r.fields, first) && (past <==> EndsBlank(r.fields) && !AtoiStops(first))
      && if framing.chunked then
           && TodoOk(t) && decoder.Holds(t) && !t.Done? && Text(t) + r.junk == rest
           && decoder.content + Output(t, lost) == Arrived(r.chunks, r.zero, lost)
         else
           decoder.content + rest == r.body && (framing.contentLength > 0 ==> |decoder.content| < framing.contentLength)
    }

    /** Nothing more is to be read, though `rest` is left. */
    ghost predicate Complete(r: Response, first: seq<Byte>, rest: seq<Byte>, lost: nat)
      reads this, decoder
    {
      && end != 0 && framing == Interpret(r.fields, first) && (past <==> EndsBlank(r.fields) && !AtoiStops(first))
      && if framing.chunked then decoder.content == Arrived(r.chunks, r.zero, lost)
         else 0 < framing.contentLength <= |r.body| - |rest| && decoder.content == r.body[..framing.contentLength]
    }

    /** Adds a fragment to the headers; returns the part of it that belongs to the content, which fits where the fragment was. */
    method TakeHeaders(buf: seq<Byte>, ghost good: bool, ghost r: Response, ghost first: seq<Byte>, ghost rest: seq<Byte>, ghost lost: nat)
      returns (body: seq<Byte>, ghost t: Todo)
      requires Valid() && end == 0 && (good ==> ResponseOk(r, first) && InHeaders(r, buf + rest))
      requires good ==> var n := |HeaderText(r.status, r.fields)| - |header|; n <= |buf| ==> first == buf[n..]
      modifies this
      ensures Valid() && decoder.content == old(decoder.content) && |body| <= |buf|
      ensures good && end == 0 ==> InHeaders(r, rest) && header == old(header) + buf
      ensures good && end != 0 ==> InBody(r, first, body + rest, t, lost) && |rest| <= |r.body|
    {
      hide EndFrom, Interpret, AtoiStops, EndsBlank, HeaderText, HttpHeaders.FieldsOk, Plain;
      t := Done;
      header := header + buf;
      if good {
        assert header + rest == ResponseText(r) by {
          assert old(header) + buf + rest == old(header) + (buf + rest);
        }
        EndFound(r, header, rest);
      }
      end := FindEnd(header);
      body := [];
      if end == 0 {
        return;
      }
      NewEnd(old(header), buf);
      body := header[end..];
      if good {
        TextSplit(r, header, rest);
        assert body == first;
      }
      framing, past := ParseHeaders(header, end, good, r.status, r.fields);
      if good && framing.chunked {
        BodyStart(r, first, lost);
        t := Line([], r.chunks, r.zero);
        assert [] + Output(t, lost) == Output(t, lost);
      } else if good {
        assert [] + (body + rest) == body + rest;
      }
    }

    /** Takes a fragment of the content; `stop` says that nothing more is to be read. */
    method TakeContent(buf: seq<Byte>, ghost good: bool, ghost r: Response, ghost first: seq<Byte>, ghost rest: seq<Byte>, ghost t: Todo, ghost lost: nat)
      returns (stop: bool, ghost u: Todo)
      requires Valid() && end != 0 && (good ==> ResponseOk(r, first) && InBody(r, first, buf + rest, t, lost) && (lost == 0 || lost + |r.junk| <= |rest|))
      modifies decoder
      ensures !stop ==> Valid()
      ensures good && !stop ==> InBody(r, first, rest, u, lost)
      ensures good && stop ==> Complete(r, first, rest, lost)
    {
      hide Interpret, AtoiStops, EndsBlank, HttpHeaders.FieldsOk, Plain, Arrived, Text;
      u := t;
      if framing.chunked {
        assert buf[0..] == buf;
        var ended;
        ended, u := decoder.Feed(buf, good, t, r.junk, rest, lost);
        if ended {
          assert good ==> decoder.content + [] == decoder.content;
          return true, u;
        }
      } else {
        var n := |buf|;
        if framing.contentLength > 0 && |decoder.content| + n > framing.contentLength {
          n := framing.contentLength - |decoder.content|;
        }
        if good {
          Divide(decoder.content, buf, rest, r.body, n);
        }
        decoder.content := decoder.content + buf[..n];
      }
      stop := framing.contentLength > 0 && |decoder.content| >= framing.contentLength;
    }

    lemma AtStart(r: Response)
      requires header == [] && end == 0 && !past && decoder.content == [] && decoder.chunkSize == 0 && decoder.sizeBuf == []
      ensures Valid() && (Plain(r.status) && HttpHeaders.FieldsOk(r.fields) ==> InHeaders(r, ResponseText(r)))
    {
      if Plain(r.status) && HttpHeaders.FieldsOk(r.fields) {
        EndFound(r, [], ResponseText(r));
      }
    }

    lemma HeadersLeft(r: Response, rest: seq<Byte>)
      requires InHeaders(r, rest)
      ensures |header| < |HeaderText(r.status, r.fields)|
    {
    }

    lemma AtComplete(r: Response, first: seq<Byte>, rest: seq<Byte>, tail: seq<Byte>)
      requires Complete(r, first, rest, Lost(r, tail)) && |tail| <= |rest| <= |r.body|
      ensures IsContent(r, first, tail, decoder.content) && (past <==> ReadsPast(r, first, tail))
    {
    }

    lemma AtEnd(r: Response, first: seq<Byte>, tail: seq<Byte>, t: Todo)
      requires ResponseOk(r, first) && |tail| <= |ResponseText(r)|
      requires if end == 0 then InHeaders(r, tail) else InBody(r, first, tail, t, Lost(r, tail))
      requires end != 0 ==> |tail| <= |r.body|
      ensures IsContent(r, first, tail, decoder.content) && (past <==> ReadsPast(r, first, tail))
    {
      if end == 0 {
        AtHeaders(r, first, tail);
      } else if framing.chunked {
        AtChunks(r, first, tail, t);
      } else {
        assert decoder.content == r.body[..|r.body| - |tail|];
      }
    }

    lemma AtHeaders(r: Response, first: seq<Byte>, tail: seq<Byte>)
      requires ResponseOk(r, first) && InHeaders(r, tail)
      ensures |tail| <= |ResponseText(r)| && IsContent(r, first, tail, decoder.content) && |tail| > |r.body|
    {
      assert |header| + |tail| == |HeaderText(r.status, r.fields)| + |r.body|;
      if Interpret(r.fields, first).chunked {
        NoneArrived(r.chunks, r.zero, Lost(r, tail));
      }
    }

    lemma AtChunks(r: Response, first: seq<Byte>, tail: seq<Byte>, t: Todo)
      requires ResponseOk(r, first) && |tail| <= |ResponseText(r)| && end != 0 && framing.chunked && InBody(r, first, tail, t, Lost(r, tail))
      ensures IsContent(r, first, tail, decoder.content)
    {
      hide Output, Arrived, ResponseOk;
      NoOutput(t, Lost(r, tail));
      assert decoder.content + [] == decoder.content;
    }
  }

  lemma Divide(content: seq<Byte>, buf: seq<Byte>, rest: seq<Byte>, body: seq<Byte>, n: nat)
    requires content + (buf + rest) == body && n <= |buf|
    ensures content + buf[..n] == body[..|content| + n] && (n == |buf| ==> content + buf[..n] + rest == body)
  {
    assert content + (buf + rest) == content + buf[..n] + (buf[n..] + rest);
  }

  lemma ConcatStep(fragments: seq<seq<Byte>>, k: nat, tail: seq<Byte>)
    requires k < |fragments|
    ensures Concat(fragments[k..]) + tail == fragments[k] + (Concat(fragments[k + 1..]) + tail)
  {
    assert fragments[k..][1..] == fragments[k + 1..];
  }

  /**
   * Reads a response.  The fragments matter only through the part of the body that arrives together with the end of the
   * headers, and that part only if the headers end in a blank length (`OneContent`).
   */
  method GetResponse(fragments: seq<seq<Byte>>, ghost good: bool, ghost r: Response, ghost tail: seq<Byte>) returns (content: seq<Byte>, past: bool)
    requires good ==> ResponseOk(r, FirstPart(fragments, |HeaderText(r.status, r.fields)|)) && Concat(fragments) + tail == ResponseText(r)
    ensures good ==> |tail| <= |ResponseText(r)|
    ensures good ==> Delivers(r, tail, content)
    ensures good ==> var first := FirstPart(fragments, |HeaderText(r.status, r.fields)|);
                     && IsContent(r, first, tail, content) && (past <==> ReadsPast(r, first, tail))
  {
    hide *;
    var reader := new Reader();
    ghost var t, lost, e := Done, Lost(r, tail), |HeaderText(r.status, r.fields)|;
    ghost var first := FirstPart(fragments, e);
    if good {
      Delivered(r, first, tail);
      HeadersOk(r, first);
    }
    LostBound(r, tail);
    assert fragments[0..] == fragments;
    reader.AtStart(r);
    var k := 0;
    while k < |fragments|
      invariant k <= |fragments| && reader.Valid() && fresh(reader) && fresh(reader.decoder)
      invariant good && reader.end == 0 ==> reader.InHeaders(r, Concat(fragments[k..]) + tail)
      invariant good && reader.end == 0 ==> |reader.header| <= e && first == FirstPart(fragments[k..], e - |reader.header|)
      invariant good && reader.end != 0 ==> reader.InBody(r, first, Concat(fragments[k..]) + tail, t, lost)
      invariant good && reader.end != 0 ==> |Concat(fragments[k..]) + tail| <= |r.body|
    {
      ghost var rest := Concat(fragments[k + 1..]) + tail;
      ConcatStep(fragments, k, tail);
      var buf := fragments[k];
      if good && reader.end == 0 {
        reader.HeadersLeft(r, Concat(fragments[k..]) + tail);
        FirstStep(fragments, k, e - |reader.header|);
      }
      k := k + 1;
      if reader.end == 0 {
        buf, t := reader.TakeHeaders(buf, good, r, first, rest, lost);
        if reader.end == 0 {
          if good {
            reader.HeadersLeft(r, rest);
          }
          continue;
        }
      }
      var stop;
      stop, t := reader.TakeContent(buf, good, r, first, rest, t, lost);
      if stop {
        if good {
          TailFits(r, tail, rest);
          reader.AtComplete(r, first, rest, tail);
        }
        return reader.decoder.content, reader.past;
      }
    }
    if good {
      NoMore(fragments, k, tail);
      reader.AtEnd(r, first, tail, t);
    }
    content, past := reader.decoder.content, reader.past;
  }

  lemma HeadersOk(r: Response, first: seq<Byte>)
    requires ResponseOk(r, first)
    ensures Plain(r.status) && HttpHeaders.FieldsOk(r.fields)
  {
  }

  lemma TailFits(r: Response, tail: seq<Byte>, rest: seq<Byte>)
    requires |tail| <= |rest| <= |r.body|
    ensures |tail| <= |ResponseText(r)|
  {
  }

  lemma FirstStep(fragments: seq<seq<Byte>>, k: nat, e: nat)
    requires k < |fragments|
    ensures FirstPart(fragments[k..], e)
            == if |fragments[k]| >= e then fragments[k][e..] else FirstPart(fragments[k + 1..], e - |fragments[k]|)
  {
    assert fragments[k..][1..] == fragments[k + 1..];
  }

  /** In the words of the fields: all data of the chunks, or as many of the bytes of the body that arrive as the length says, or all of them. */
  ghost predicate Delivers(r: Response, tail: seq<Byte>, content: seq<Byte>) {
    if SaysChunked(r.fields) then
      |tail| <= |r.junk| ==> content == Content(r.chunks)
    else
      var got := r.body[..if |tail| <= |r.body| then |r.body| - |tail| else 0];
      && (forall n: nat :: 0 < n <= |got| && Declares(r.fields, n) ==> content == got[..n])
      && (forall n: nat :: (n > |got| || n == 0) && Declares(r.fields, n) ==> content == got)
      && ((forall i :: 0 <= i < |r.fields| ==> !Alike(r.fields[i].name, LengthWord)) ==> content == got)
  }

  lemma Delivered(r: Response, first: seq<Byte>, tail: seq<Byte>)
    requires ResponseOk(r, first) && |tail| <= |ResponseText(r)|
    ensures forall content :: IsContent(r, first, tail, content) ==> Delivers(r, tail, content)
  {
    hide Arrived, SaysChunked, Declares, Said, HeaderText, HttpHeaders.FieldsOk, Plain, Alike;
    assert r.fields[..|r.fields|] == r.fields;
    ChunkedIff(r.fields, |r.fields|, first);
    ArrivedAll(r.chunks, r.zero);
    forall n: nat | Declares(r.fields, n)
      ensures Interpret(r.fields, first).contentLength == n
    {
      Declared(r.fields, n, first);
    }
    if forall i :: 0 <= i < |r.fields| ==> !Alike(r.fields[i].name, LengthWord) {
      NoLength(r.fields, |r.fields|, first);
    }
  }

  /** Unless the headers end in a blank length, the content is the same for all fragments. */
  lemma OneContent(r: Response, x: seq<Byte>, y: seq<Byte>, tail: seq<Byte>, c: seq<Byte>, d: seq<Byte>)
    requires HttpHeaders.FieldsOk(r.fields) && !EndsBlank(r.fields) && |tail| <= |ResponseText(r)|
    requires IsContent(r, x, tail, c) && IsContent(r, y, tail, d)
    ensures c == d && !ReadsPast(r, x, tail)
  {
    FramingIff(r.fields);
    assert Interpret(r.fields, x) == Interpret(r.fields, y);
  }

  /** And if they do, it is the same once a number has ended in what comes with the headers. */
  lemma LaterContent(r: Response, x: seq<Byte>, y: seq<Byte>, tail: seq<Byte>, c: seq<Byte>, d: seq<Byte>)
    requires HttpHeaders.FieldsOk(r.fields) && AtoiStops(x) && |tail| <= |ResponseText(r)|
    requires IsContent(r, x, tail, c) && IsContent(r, x + y, tail, d)
    ensures c == d
  {
    FramingLater(r.fields, x, y);
  }

  /** A response whose content depends on the fragments: seven bytes, or only five if two of them come with the headers. */
  lemma FragmentsMatter()
    ensures var r := Response([], [Field(LengthWord, [], [])], [53, 97, 98, 99, 100, 101, 102], [], [], []);
            && ResponseOk(r, []) && ResponseOk(r, [53, 97]) && EndsBlank(r.fields) && !AtoiStops([]) && AtoiStops([53, 97])
            && IsContent(r, [], [], r.body) && IsContent(r, [53, 97], [], r.body[..5])
  {
    var fs := [Field(LengthWord, [], [])];
    BlankSaid(fs, []);
    BlankSaid(fs, [53, 97]);
    assert [53, 97][1..] == [97];
    assert Atoi([53, 97]) == Number([53, 97], 0) == Number([97], 5) == 5;
    assert NumberStops([97]) && AtoiStops([53, 97]);
  }

  lemma BlankSaid(fs: seq<Field>, x: seq<Byte>)
    requires fs == [Field(LengthWord, [], [])]
    ensures EndsBlank(fs) && HttpHeaders.FieldsOk(fs) && Interpret(fs, x) == Framing(Atoi(x), false)
  {
    assert Alike(LengthWord, LengthWord);
    SaidBlank(fs, x);
  }

  lemma LostBound(r: Response, tail: seq<Byte>)
    ensures Lost(r, tail) == 0 || Lost(r, tail) + |r.junk| <= |tail|
  {
  }

  lemma NoMore(fragments: seq<seq<Byte>>, k: nat, tail: seq<Byte>)
    requires k == |fragments|
    ensures Concat(fragments[k..]) + tail == tail
  {
  }
}
