/** The decoder of chunked content, fed fragment by fragment. */
module HttpChunks {
  import opened ByteStrings
  import opened HttpText

  /** A chunk: the digits of its size and its data. */
  datatype Chunk = Chunk(digits: seq<Byte>, data: seq<Byte>)

  const SizeDigits: nat := 31

  predicate ChunkOk(c: Chunk) {
    && 1 <= |c.digits| <= 31 && AllHex(c.digits) && Hex(c.digits) == |c.data| && 1 <= |c.data| < Word
  }

  predicate ChunksOk(cs: seq<Chunk>) {
    forall i :: 0 <= i < |cs| ==> ChunkOk(cs[i])
  }

  /** The digits of the size of the last chunk. */
  predicate ZeroOk(z: seq<Byte>) {
    1 <= |z| <= 31 && AllHex(z) && Hex(z) == 0
  }

  function ChunkText(c: Chunk): (s: seq<Byte>) {
    c.digits + Crlf + c.data + Crlf
  }

  function ChunksText(cs: seq<Chunk>): (s: seq<Byte>) {
    if cs == [] then [] else ChunkText(cs[0]) + ChunksText(cs[1..])
  }

  /** Chunked content as it is sent. */
  function Body(cs: seq<Chunk>, zero: seq<Byte>): (s: seq<Byte>) {
    ChunksText(cs) + zero + Crlf
  }

  /** The content itself. */
  function Content(cs: seq<Chunk>): (s: seq<Byte>) {
    if cs == [] then [] else cs[0].data + Content(cs[1..])
  }

  /** Chunks as a sender writes them: the size of each in hexadecimal. */
  function Written(pieces: seq<seq<Byte>>, capital: bool): (cs: seq<Chunk>) {
    if pieces == [] then [] else [Chunk(HexText(|pieces[0]|, capital), pieces[0])] + Written(pieces[1..], capital)
  }

  /** They are well formed, and their content is what was to be sent, however it was divided. */
  lemma {:induction false} WrittenOk(pieces: seq<seq<Byte>>, capital: bool)
    requires forall i :: 0 <= i < |pieces| ==> 1 <= |pieces[i]| < Word
    ensures ChunksOk(Written(pieces, capital)) && Content(Written(pieces, capital)) == Concat(pieces)
  {
    if pieces != [] {
      var n := |pieces[0]|;
      HexReads(n, capital);
      WordDigits();
      HexShort(n, 8, capital);
      WrittenOk(pieces[1..], capital);
      assert Written(pieces, capital)[1..] == Written(pieces[1..], capital);
    }
  }

  lemma WordDigits()
    ensures Pow(16, 8) == Word
  {
    assert Pow(16, 2) == 256;
    assert Pow(16, 4) == 65536;
    assert Pow(16, 6) == 0x100_0000;
  }

  /** What is left to be read, seen from between two bytes. */
  datatype Todo =
    | Line(gap: seq<Byte>, chunks: seq<Chunk>, zero: seq<Byte>)
    | Size(read: seq<Byte>, more: seq<Byte>, end: seq<Byte>, data: seq<Byte>, chunks: seq<Chunk>, zero: seq<Byte>)
    | Last(read: seq<Byte>, more: seq<Byte>, end: seq<Byte>)
    | Data(data: seq<Byte>, chunks: seq<Chunk>, zero: seq<Byte>)
    | Done

  predicate TodoOk(t: Todo) {
    match t
    case Line(gap, chunks, zero) => (gap == [] || gap == [LF] || gap == Crlf) && ChunksOk(chunks) && ZeroOk(zero)
    case Size(read, more, end, data, chunks, zero) =>
      && read != [] && ChunkOk(Chunk(read + more, data)) && (end == Crlf || (end == [LF] && more == []))
      && ChunksOk(chunks) && ZeroOk(zero)
    case Last(read, more, end) => read != [] && ZeroOk(read + more) && (end == Crlf || (end == [LF] && more == []))
    case Data(data, chunks, zero) => 1 <= |data| < Word && ChunksOk(chunks) && ZeroOk(zero)
    case Done => true
  }

  function Text(t: Todo): (s: seq<Byte>) {
    match t
    case Line(gap, chunks, zero) => gap + Body(chunks, zero)
    case Size(_, more, end, data, chunks, zero) => more + (end + (data + (Crlf + Body(chunks, zero))))
    case Last(_, more, end) => more + end
    case Data(data, chunks, zero) => data + (Crlf + Body(chunks, zero))
    case Done => []
  }

  /** The data of a chunk and of those behind it, as far as they do not lie in the last `lost` bytes. */
  function DataBefore(data: seq<Byte>, cs: seq<Chunk>, zero: seq<Byte>, lost: nat): (s: seq<Byte>)
    decreases |cs|, 1
  {
    var behind := 2 + |Body(cs, zero)|;
    if lost <= behind then data + Arrived(cs, zero, lost)
    else if lost - behind <= |data| then data[..|data| - (lost - behind)]
    else []
  }

  /** The data of chunked content of which the last `lost` bytes do not arrive. */
  function Arrived(cs: seq<Chunk>, zero: seq<Byte>, lost: nat): (s: seq<Byte>)
    decreases |cs|, 0
  {
    if cs == [] then [] else DataBefore(cs[0].data, cs[1..], zero, lost)
  }

  /** When all of it arrives, that is the content. */
  lemma {:induction false} ArrivedAll(cs: seq<Chunk>, zero: seq<Byte>)
    ensures Arrived(cs, zero, 0) == Content(cs)
    decreases |cs|
  {
    if cs != [] {
      ArrivedAll(cs[1..], zero);
    }
  }

  /** The content that is still to come, if the last `lost` bytes do not arrive. */
  function Output(t: Todo, lost: nat): (s: seq<Byte>) {
    match t
    case Line(_, chunks, zero) => Arrived(chunks, zero, lost)
    case Size(_, _, _, data, chunks, zero) => DataBefore(data, chunks, zero, lost)
    case Last(_, _, _) => []
    case Data(data, chunks, zero) => DataBefore(data, chunks, zero, lost)
    case Done => []
  }

  lemma NoneArrived(cs: seq<Chunk>, zero: seq<Byte>, lost: nat)
    requires |Body(cs, zero)| <= lost
    ensures Arrived(cs, zero, lost) == []
  {
    if cs != [] {
      BodyFirst(cs, zero);
    }
  }

  /** Nothing comes of what does not arrive. */
  lemma NoOutput(t: Todo, lost: nat)
    requires |Text(t)| <= lost
    ensures Output(t, lost) == []
  {
    hide Body, Arrived;
    if !t.Last? && !t.Done? {
      NoneArrived(t.chunks, t.zero, lost);
    }
  }

  /** The size digits read so far. */
  function SizeRead(t: Todo): (s: seq<Byte>) {
    match t
    case Size(read, _, _, _, _, _) => read
    case Last(read, _, _) => read
    case other => []
  }

  function Left(t: Todo): (n: nat) {
    if t.Data? then |t.data| else 0
  }

  // ----- one byte at a time

  lemma FirstOf(c: seq<Byte>)
    requires c != [] && AllHex(c)
    ensures c == [c[0]] + c[1..] && IsHex(c[0])
  {
  }

  /** The first size digit of the next line. */
  lemma FirstDigit(t: Todo, lost: nat) returns (b: Byte, u: Todo)
    requires t.Line? && t.gap == [] && TodoOk(t)
    ensures TodoOk(u) && (u.Size? || u.Last?) && SizeRead(u) == [b] && IsHex(b)
    ensures Text(t) == [b] + Text(u) && Output(u, lost) == Output(t, lost)
  {
    hide Hex, AllHex;
    if t.chunks == [] {
      b := t.zero[0];
      u := Last([b], t.zero[1..], Crlf);
      FirstOf(t.zero);
      NoChunks(t.zero);
      Prepend([], b, t.zero[1..], Crlf);
    } else {
      hide Body, ChunksText;
      var c := t.chunks[0];
      assert ChunkOk(c);
      b := c.digits[0];
      u := Size([b], c.digits[1..], Crlf, c.data, t.chunks[1..], t.zero);
      FirstOf(c.digits);
      assert Chunk([b] + c.digits[1..], c.data) == c;
      BodyFirst(t.chunks, t.zero);
      Prepend([], b, c.digits[1..], Crlf + (c.data + (Crlf + Body(t.chunks[1..], t.zero))));
    }
  }

  lemma Prepend(gap: seq<Byte>, b: Byte, m: seq<Byte>, rest: seq<Byte>)
    requires gap == []
    ensures gap + (([b] + m) + rest) == [b] + (m + rest)
  {
  }

  lemma NoChunks(zero: seq<Byte>)
    ensures Body([], zero) == zero + Crlf
  {
  }

  lemma BodyFirst(cs: seq<Chunk>, zero: seq<Byte>)
    requires cs != []
    ensures Body(cs, zero) == cs[0].digits + (Crlf + (cs[0].data + (Crlf + Body(cs[1..], zero))))
  {
    var a, b, c := cs[0].digits, cs[0].data, ChunksText(cs[1..]);
    assert (a + Crlf + b + Crlf + c) + zero + Crlf == a + (Crlf + (b + (Crlf + (c + zero + Crlf))));
  }

  /** A further size digit. */
  lemma NextDigit(t: Todo, lost: nat) returns (b: Byte, u: Todo)
    requires (t.Size? || t.Last?) && t.more != [] && TodoOk(t)
    ensures TodoOk(u) && (u.Size? || u.Last?) && SizeRead(u) == SizeRead(t) + [b] && IsHex(b) && |SizeRead(t)| < SizeDigits
    ensures Text(t) == [b] + Text(u) && Output(u, lost) == Output(t, lost)
  {
    b := t.more[0];
    assert t.more == [b] + t.more[1..];
    assert t.read + t.more == (t.read + [b]) + t.more[1..];
    assert IsHex((t.read + t.more)[|t.read|]);
    u := if t.Size? then Size(t.read + [b], t.more[1..], t.end, t.data, t.chunks, t.zero) else Last(t.read + [b], t.more[1..], t.end);
  }

  lemma ReturnFeed(x: seq<Byte>)
    ensures [] + (Crlf + x) == [CR] + ([] + ([LF] + x)) && [] + Crlf == [CR] + ([] + [LF])
  {
  }

  /** The carriage return of a size line. */
  lemma SizeReturn(t: Todo, lost: nat) returns (u: Todo)
    requires (t.Size? || t.Last?) && t.more == [] && t.end == Crlf && TodoOk(t)
    ensures TodoOk(u) && (u.Size? || u.Last?) && u.more == [] && u.end == [LF] && SizeRead(u) == SizeRead(t)
    ensures Text(t) == [CR] + Text(u) && Output(u, lost) == Output(t, lost)
  {
    hide Body, Content, ChunkOk, ChunksOk, ZeroOk;
    u := if t.Size? then Size(t.read, [], [LF], t.data, t.chunks, t.zero) else Last(t.read, [], [LF]);
    if t.Size? {
      ReturnFeed(t.data + (Crlf + Body(t.chunks, t.zero)));
    } else {
      ReturnFeed([]);
    }
  }

  /** The line feed of a size line: the data follow, or nothing any more. */
  lemma SizeFeed(t: Todo, lost: nat) returns (u: Todo)
    requires (t.Size? || t.Last?) && t.more == [] && t.end == [LF] && TodoOk(t)
    ensures TodoOk(u) && (u.Data? || u.Done?) && AllHex(SizeRead(t)) && Hex(SizeRead(t)) == Left(u) && (u.Done? <==> Left(u) == 0)
    ensures Text(t) == [LF] + Text(u) && Output(u, lost) == Output(t, lost)
  {
    assert t.read + [] == t.read;
    u := if t.Size? then Data(t.data, t.chunks, t.zero) else Done;
  }

  /** The gap in front of a size line. */
  lemma GapByte(t: Todo, lost: nat) returns (b: Byte, u: Todo)
    requires t.Line? && t.gap != [] && TodoOk(t)
    ensures TodoOk(u) && u == Line(t.gap[1..], t.chunks, t.zero) && b == t.gap[0] && Text(t) == [b] + Text(u) && Output(u, lost) == Output(t, lost)
  {
    b := t.gap[0];
    u := Line(t.gap[1..], t.chunks, t.zero);
    assert t.gap == [b] + t.gap[1..];
  }

  /** A stretch of data. */
  lemma SomeData(t: Todo, k: nat, lost: nat) returns (u: Todo)
    requires t.Data? && 1 <= k <= |t.data| && TodoOk(t)
    ensures TodoOk(u) && (u.Data? || u.Line?) && Left(u) == |t.data| - k && (u.Line? <==> Left(u) == 0) && (u.Line? ==> u.gap == Crlf)
    ensures Text(t) == t.data[..k] + Text(u)
    ensures lost <= |Text(u)| ==> Output(t, lost) == t.data[..k] + Output(u, lost)
  {
    assert t.data == t.data[..k] + t.data[k..];
    u := if k == |t.data| then Line(Crlf, t.chunks, t.zero) else Data(t.data[k..], t.chunks, t.zero);
  }

  // ----- the decoder

  /** `u` is what is left of the content at index `i` of a fragment, with `tail` still to arrive; behind the content anything may follow. */
  ghost predicate At(u: Todo, junk: seq<Byte>, buf: seq<Byte>, i: nat, tail: seq<Byte>) {
    TodoOk(u) && i <= |buf| && Text(u) + junk == buf[i..] + tail
  }

  lemma Consume(x: seq<Byte>, b: Byte, y: seq<Byte>, junk: seq<Byte>, buf: seq<Byte>, i: nat, tail: seq<Byte>)
    requires i < |buf| && x + junk == buf[i..] + tail && x == [b] + y
    ensures buf[i] == b && y + junk == buf[i + 1..] + tail
  {
    assert (x + junk)[0] == b && (buf[i..] + tail)[0] == buf[i];
    assert (x + junk)[1..] == y + junk;
    assert (buf[i..] + tail)[1..] == buf[i + 1..] + tail;
  }

  lemma ConsumeSome(x: seq<Byte>, a: seq<Byte>, y: seq<Byte>, junk: seq<Byte>, buf: seq<Byte>, i: nat, tail: seq<Byte>)
    requires i + |a| <= |buf| && x + junk == buf[i..] + tail && x == a + y
    ensures buf[i..i + |a|] == a && y + junk == buf[i + |a|..] + tail
  {
    assert (x + junk)[..|a|] == a && (buf[i..] + tail)[..|a|] == buf[i..i + |a|];
    assert (x + junk)[|a|..] == y + junk;
    assert (buf[i..] + tail)[|a|..] == buf[i + |a|..] + tail;
  }

  // ----- digits

  /** The first hexadecimal digits of a text, `n` at most. */
  function HexRun(s: seq<Byte>, n: nat): (r: seq<Byte>)
    ensures AllHex(r) && |r| <= n
  {
    if n == 0 || s == [] || !IsHex(s[0]) then [] else [s[0]] + HexRun(s[1..], n - 1)
  }

  lemma RunStep(a: seq<Byte>, buf: seq<Byte>, i: nat, n: nat)
    requires i <= |buf|
    ensures i < |buf| && IsHex(buf[i]) && n > 0 ==> a + HexRun(buf[i..], n) == a + [buf[i]] + HexRun(buf[i + 1..], n - 1)
    ensures i == |buf| || !IsHex(buf[i]) || n == 0 ==> a + HexRun(buf[i..], n) == a
  {
    if i < |buf| && IsHex(buf[i]) && n > 0 {
      assert buf[i..][1..] == buf[i + 1..];
    }
  }

  /** Two runs of digits together. */
  lemma {:induction false} HexConcat(a: seq<Byte>, b: seq<Byte>)
    requires AllHex(a) && AllHex(b)
    ensures AllHex(a + b) && Hex(a + b) == Hex(a) * Pow(16, |b|) + Hex(b)
    decreases |b|
  {
    if b == [] {
      assert a + b == a;
    } else {
      var n := |b| - 1;
      assert (a + b)[..|a + b| - 1] == a + b[..n];
      HexConcat(a, b[..n]);
      Distribute(Hex(a), Pow(16, n), Hex(b[..n]), HexDigit(b[n]));
    }
  }

  lemma Distribute(a: nat, p: nat, b: nat, d: nat)
    ensures (a * p + b) * 16 + d == a * (16 * p) + (b * 16 + d)
  {
  }

  lemma SameOnlyZero(a: nat, p: nat, b: nat)
    requires p > 1
    ensures a * p + b == a <==> a == 0 && b == 0
  {
    if a > 0 {
      assert a * p >= a * 2;
    }
  }

  lemma RunEmpty(s: seq<Byte>, n: nat)
    requires n > 0
    ensures HexRun(s, n) == [] <==> s == [] || !IsHex(s[0])
  {
  }

  lemma {:induction false} PowLarge(n: nat)
    requires n > 0
    ensures Pow(16, n) >= 16
  {
    if n > 1 {
      PowLarge(n - 1);
    }
  }

  /**
   * A size line that ends in an extension, with a fragment that begins inside it: the digits at its front are taken for more
   * digits of the size.  The size is right if and only if there are none, or both numbers are zero.
   */
  lemma ExtensionCut(digits: seq<Byte>, fragment: seq<Byte>)
    requires AllHex(digits) && |digits| < SizeDigits
    ensures var run := HexRun(fragment, SizeDigits - |digits|);
            && AllHex(digits + run)
            && (Hex(digits + run) == Hex(digits) <==> fragment == [] || !IsHex(fragment[0]) || (Hex(digits) == 0 && Hex(run) == 0))
  {
    hide *;
    var run := HexRun(fragment, SizeDigits - |digits|);
    RunEmpty(fragment, SizeDigits - |digits|);
    HexConcat(digits, run);
    if run == [] {
      assert digits + run == digits;
    } else {
      PowLarge(|run|);
      SameOnlyZero(Hex(digits), Pow(16, |run|), Hex(run));
    }
  }

  class Decoder {
    var chunkSize: nat
    var sizeBuf: seq<Byte>     // the digits of a size that has not ended yet
    var content: seq<Byte>

    constructor ()
      ensures chunkSize == 0 && sizeBuf == [] && content == []
    {
      chunkSize, sizeBuf, content := 0, [], [];
    }

    ghost predicate Holds(t: Todo)
      reads this
    {
      sizeBuf == SizeRead(t) && chunkSize == Left(t)
    }

    /** Skips the line end in front of a size. */
    method SkipGap(buf: seq<Byte>, start: nat, ghost good: bool, ghost t: Todo, ghost junk: seq<Byte>, ghost tail: seq<Byte>, ghost lost: nat)
      returns (i: nat, ghost u: Todo)
      requires start < |buf| && chunkSize == 0
      requires good ==> At(t, junk, buf, start, tail) && Holds(t) && !t.Done?
      ensures start <= i <= |buf|
      ensures good ==> At(u, junk, buf, i, tail) && Holds(u) && !u.Done? && !u.Data? && Output(u, lost) == Output(t, lost)
      ensures good && i < |buf| && u.Line? ==> u.gap == []
    {
      hide Text, Output;
      i, u := start, t;
      if |sizeBuf| == 0 {
        if good && u.gap == Crlf {
          ghost var b, v := GapByte(u, lost);
          Consume(Text(u), b, Text(v), junk, buf, i, tail);
          u := v;
        } else if good && u.gap == [LF] {
          ghost var b, v := GapByte(u, lost);
          Consume(Text(u), b, Text(v), junk, buf, i, tail);
        } else if good {
          ghost var b, v := FirstDigit(u, lost);
          Consume(Text(u), b, Text(v), junk, buf, i, tail);
        }
        if buf[i] == CR {
          i := i + 1;
        }
        if good && i < |buf| && u.gap == [LF] {
          ghost var b, v := GapByte(u, lost);
          Consume(Text(u), b, Text(v), junk, buf, i, tail);
          u := v;
        } else if good && i < |buf| {
          ghost var b, v := FirstDigit(u, lost);
          Consume(Text(u), b, Text(v), junk, buf, i, tail);
        }
        if i < |buf| && buf[i] == LF {
          i := i + 1;
        }
      }
    }

    /** Collects the digits of a size: all that stand at the front, as long as there is room for them. */
    method ReadDigits(buf: seq<Byte>, start: nat, ghost good: bool, ghost t: Todo, ghost junk: seq<Byte>, ghost tail: seq<Byte>, ghost lost: nat)
      returns (i: nat, ghost u: Todo)
      requires start <= |buf| && chunkSize == 0 && |sizeBuf| <= SizeDigits && AllHex(sizeBuf)
      requires good ==> At(t, junk, buf, start, tail) && Holds(t) && !t.Done? && !t.Data? && (start < |buf| && t.Line? ==> t.gap == [])
      modifies this`sizeBuf
      ensures start <= i <= |buf| && |sizeBuf| <= SizeDigits && AllHex(sizeBuf)
      ensures sizeBuf == old(sizeBuf) + HexRun(buf[start..], SizeDigits - |old(sizeBuf)|)
      ensures good ==> At(u, junk, buf, i, tail) && Holds(u) && !u.Done? && !u.Data? && Output(u, lost) == Output(t, lost)
      ensures good && i < |buf| ==> !u.Line? && u.more == []
    {
      hide Text, Output, HexRun;
      i, u := start, t;
      while i < |buf| && IsHex(buf[i]) && |sizeBuf| < SizeDigits
        invariant start <= i <= |buf| && |sizeBuf| <= SizeDigits
        invariant sizeBuf + HexRun(buf[i..], SizeDigits - |sizeBuf|) == old(sizeBuf) + HexRun(buf[start..], SizeDigits - |old(sizeBuf)|)
        invariant start <= i <= |buf| && |sizeBuf| <= SizeDigits && AllHex(sizeBuf)
        invariant good ==> At(u, junk, buf, i, tail) && Holds(u) && !u.Done? && !u.Data? && Output(u, lost) == Output(t, lost)
        invariant good && i < |buf| && u.Line? ==> u.gap == []
      {
        if good {
          u := Digit(u, junk, buf, i, tail, lost);
        }
        RunStep(sizeBuf, buf, i, SizeDigits - |sizeBuf|);
        sizeBuf := sizeBuf + [buf[i]];
        i := i + 1;
      }
      RunStep(sizeBuf, buf, i, SizeDigits - |sizeBuf|);
      if good && i < |buf| && (u.Line? || u.more != []) {
        ghost var v := Digit(u, junk, buf, i, tail, lost);
        assert false;
      }
    }

    /** Wherever a digit can stand, one stands. */
    lemma Digit(t: Todo, junk: seq<Byte>, buf: seq<Byte>, i: nat, tail: seq<Byte>, lost: nat) returns (u: Todo)
      requires At(t, junk, buf, i, tail) && i < |buf| && !t.Done? && !t.Data? && (t.Line? ==> t.gap == [])
      requires t.Line? || t.more != [] || IsHex(buf[i])
      ensures IsHex(buf[i]) && |SizeRead(t)| < SizeDigits && (t.Line? || t.more != [])
      ensures At(u, junk, buf, i + 1, tail) && (u.Size? || u.Last?) && SizeRead(u) == SizeRead(t) + [buf[i]] && Output(u, lost) == Output(t, lost)
    {
      hide Text, Output;
      var b;
      if t.Line? {
        b, u := FirstDigit(t, lost);
        Consume(Text(t), b, Text(u), junk, buf, i, tail);
      } else if t.more != [] {
        b, u := NextDigit(t, lost);
        Consume(Text(t), b, Text(u), junk, buf, i, tail);
      } else {
        EndByte(t, junk, buf, i, tail);
      }
    }

    /** Behind the digits of a size its line ends. */
    lemma EndByte(t: Todo, junk: seq<Byte>, buf: seq<Byte>, i: nat, tail: seq<Byte>)
      requires At(t, junk, buf, i, tail) && i < |buf| && (t.Size? || t.Last?) && t.more == []
      ensures buf[i] == if t.end == Crlf then CR else LF
    {
      hide Text, Output;
      if t.end == Crlf {
        var v := SizeReturn(t, 0);
        Consume(Text(t), CR, Text(v), junk, buf, i, tail);
      } else {
        var v := SizeFeed(t, 0);
        Consume(Text(t), LF, Text(v), junk, buf, i, tail);
      }
    }

    /** The number that the collected digits spell, computed in 32 bits. */
    method SizeOf() returns (size: nat)
      requires AllHex(sizeBuf)
      ensures size < Word && (Hex(sizeBuf) < Word ==> size == Hex(sizeBuf))
    {
      size := 0;
      for j := 0 to |sizeBuf|
        invariant size < Word && (Hex(sizeBuf) < Word ==> size == Hex(sizeBuf[..j]))
      {
        HexPrefix(sizeBuf, j + 1);
        assert sizeBuf[..j + 1][..j] == sizeBuf[..j];
        if 48 <= sizeBuf[j] <= 57 {
          size := (size * 16 + (sizeBuf[j] - 48)) % Word;
        } else {
          size := (size * 16 + ((if sizeBuf[j] <= 70 then sizeBuf[j] + 32 else sizeBuf[j]) - 97 + 10)) % Word;
        }
      }
      assert sizeBuf[..|sizeBuf|] == sizeBuf;
    }

    /** Goes to the end of a size line; behind its line feed the size is known. */
    method EndSize(buf: seq<Byte>, start: nat, ghost good: bool, ghost t: Todo, ghost junk: seq<Byte>, ghost tail: seq<Byte>, ghost lost: nat)
      returns (i: nat, complete: bool, ghost u: Todo)
      requires start <= |buf| && chunkSize == 0 && |sizeBuf| <= SizeDigits && AllHex(sizeBuf)
      requires good ==> At(t, junk, buf, start, tail) && Holds(t) && !t.Done? && !t.Data? && (start < |buf| ==> !t.Line? && t.more == [])
      modifies this`sizeBuf, this`chunkSize
      ensures start <= i <= |buf| && (start < |buf| ==> start < i) && |sizeBuf| <= SizeDigits && AllHex(sizeBuf) && chunkSize < Word
      ensures !complete ==> chunkSize == 0
      ensures good ==> At(u, junk, buf, i, tail) && Holds(u) && Output(u, lost) == Output(t, lost)
      ensures good ==> if complete then u.Data? || u.Done? else !u.Data? && !u.Done?
    {
      hide Text, Output;
      i, u, complete := start, t, false;
      if good && i < |buf| {
        EndByte(u, junk, buf, i, tail);
      }
      while i < |buf| && buf[i] != CR && buf[i] != LF
        invariant start <= i <= |buf|
        invariant good ==> i == start
      {
        i := i + 1;
      }
      if i < |buf| && buf[i] == CR {
        if good {
          ghost var v := SizeReturn(u, lost);
          Consume(Text(u), CR, Text(v), junk, buf, i, tail);
          u := v;
        }
        i := i + 1;
      }
      if good && i < |buf| {
        EndByte(u, junk, buf, i, tail);
      }
      if i < |buf| && buf[i] == LF {
        chunkSize := SizeOf();
        if good {
          ghost var v := SizeFeed(u, lost);
          LeftBound(v);
          Consume(Text(u), LF, Text(v), junk, buf, i, tail);
          u := v;
        }
        sizeBuf := [];
        i := i + 1;
        complete := true;
      }
    }

    lemma LeftBound(t: Todo)
      requires TodoOk(t)
      ensures Left(t) < Word
    {
    }

    /** Copies data of a chunk. */
    method CopyData(buf: seq<Byte>, start: nat, ghost good: bool, ghost t: Todo, ghost junk: seq<Byte>, ghost tail: seq<Byte>, ghost lost: nat)
      returns (i: nat, ghost u: Todo)
      requires start <= |buf| && 0 < chunkSize < Word
      requires good ==> At(t, junk, buf, start, tail) && Holds(t) && (lost == 0 || lost + |junk| <= |tail|)
      modifies this`chunkSize, this`content
      ensures start <= i <= |buf| && (start < |buf| ==> start < i) && chunkSize < Word
      ensures good ==> At(u, junk, buf, i, tail) && Holds(u) && !u.Done? && content + Output(u, lost) == old(content) + Output(t, lost)
    {
      hide Text, Output;
      u := t;
      var bytesToCopy := if chunkSize < |buf| - start then chunkSize else |buf| - start;
      if good && bytesToCopy > 0 {
        ghost var v := SomeData(t, bytesToCopy, lost);
        ConsumeSome(Text(t), t.data[..bytesToCopy], Text(v), junk, buf, start, tail);
        assert content + Output(t, lost) == content + t.data[..bytesToCopy] + Output(v, lost);
        u := v;
      }
      content := content + buf[start..start + bytesToCopy];
      i := start + bytesToCopy;
      chunkSize := chunkSize - bytesToCopy;
    }

    /** Decodes one fragment; `end` says that the last chunk has been seen. */
    method Feed(buf: seq<Byte>, ghost good: bool, ghost t: Todo, ghost junk: seq<Byte>, ghost tail: seq<Byte>, ghost lost: nat)
      returns (end: bool, ghost u: Todo)
      requires chunkSize < Word && |sizeBuf| <= SizeDigits && AllHex(sizeBuf)
      requires good ==> At(t, junk, buf, 0, tail) && Holds(t) && !t.Done? && (lost == 0 || lost + |junk| <= |tail|)
      modifies this
      ensures chunkSize < Word && |sizeBuf| <= SizeDigits && AllHex(sizeBuf)
      ensures good ==> TodoOk(u) && Holds(u) && content + Output(u, lost) == old(content) + Output(t, lost) && (end <==> u.Done?)
      ensures good && !end ==> Text(u) + junk == tail
    {
      hide Text, Output;
      var i := 0;
      u, end := t, false;
      while i < |buf|
        invariant i <= |buf| && chunkSize < Word && |sizeBuf| <= SizeDigits && AllHex(sizeBuf)
        invariant good ==> At(u, junk, buf, i, tail) && Holds(u) && !u.Done? && content + Output(u, lost) == old(content) + Output(t, lost)
        decreases |buf| - i
      {
        if chunkSize == 0 {
          ghost var v;
          var complete;
          i, v := SkipGap(buf, i, good, u, junk, tail, lost);
          i, v := ReadDigits(buf, i, good, v, junk, tail, lost);
          i, complete, v := EndSize(buf, i, good, v, junk, tail, lost);
          u := v;
          if !complete {
            continue;
          }
          if chunkSize == 0 {
            end := true;
            return;
          }
        }
        i, u := CopyData(buf, i, good, u, junk, tail, lost);
      }
      assert buf[i..] + tail == tail;
    }
  }
}
