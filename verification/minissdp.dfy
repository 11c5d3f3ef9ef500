/** Talking to MiniSSDPd: replies read through a small refill buffer, and requests. */
module MiniSsdp {
  import opened ByteStrings
  import opened Options
  import opened CodeLength

  const Success: int := 0
  const SocketError: int := -101
  const InvalidInput: int := -103
  const InvalidServerReply: int := -104

  const BufferSize: nat := 256

  /** A device of the list: one buffer holds its three strings, each with a zero byte behind it. */
  datatype Device = Device(buffer: seq<Byte>, st: nat, usn: nat)

  function MakeDevice(url: seq<Byte>, st: seq<Byte>, usn: seq<Byte>): (d: Device) {
    Device(url + [0] + st + [0] + usn + [0], |url| + 1, |url| + |st| + 2)
  }

  /** The C string at an offset: what stands in front of the next zero byte. */
  function Text(b: seq<Byte>): (s: seq<Byte>) {
    if b == [] || b[0] == 0 then [] else [b[0]] + Text(b[1..])
  }

  lemma {:induction false} TextOf(s: seq<Byte>, rest: seq<Byte>)
    requires 0 !in s
    ensures Text(s + [0] + rest) == s
  {
    var t := s + [0] + rest;
    if s != [] {
      assert t[1..] == s[1..] + [0] + rest;
      TextOf(s[1..], rest);
    }
  }

  /** The three strings of a device, as its users see them. */
  lemma DeviceTexts(url: seq<Byte>, st: seq<Byte>, usn: seq<Byte>)
    requires 0 !in url && 0 !in st && 0 !in usn
    ensures var d := MakeDevice(url, st, usn);
            d.usn <= |d.buffer| && Text(d.buffer) == url && Text(d.buffer[d.st..]) == st && Text(d.buffer[d.usn..]) == usn
  {
    var d := MakeDevice(url, st, usn);
    assert d.buffer == url + [0] + (st + [0] + usn + [0]);
    TextOf(url, st + [0] + usn + [0]);
    assert d.buffer[d.st..] == st + [0] + (usn + [0]);
    TextOf(st, usn + [0]);
    assert d.buffer[d.usn..] == usn + [0] + [];
    TextOf(usn, []);
  }

  // ----- a reply as a function of its bytes

  /** A length and that many bytes, with what follows them. */
  function ReadString(s: seq<Byte>): (r: Option<(seq<Byte>, seq<Byte>)>) {
    var d := Decode(0, s);
    if !d.done || |s| - d.used < d.value then None else Some((s[d.used..d.used + d.value], s[d.used + d.value..]))
  }

  function ReadDevice(s: seq<Byte>): (r: Option<(Device, seq<Byte>)>) {
    match ReadString(s)
    case None => None
    case Some((url, a)) =>
      match ReadString(a)
      case None => None
      case Some((st, b)) =>
        match ReadString(b)
        case None => None
        case Some((usn, c)) => Some((MakeDevice(url, st, usn), c))
  }

  /** Reads `k` devices, putting each in front of those before it. */
  function Devices(k: nat, s: seq<Byte>, list: seq<Device>): (r: (seq<Device>, int)) {
    if k == 0 then (list, Success) else
      match ReadDevice(s)
      case None => (list, InvalidServerReply)
      case Some((d, rest)) => Devices(k - 1, rest, [d] + list)
  }

  function Reply(s: seq<Byte>): (r: (seq<Device>, int)) {
    if s == [] then ([], SocketError) else Devices(s[0], s[1..], [])
  }

  // ----- reading it from a socket

  lemma Advance(s: seq<Byte>, k: nat, b: seq<Byte>, c: seq<Byte>, m: nat)
    requires k <= |s| && s[k..] == b + c && m <= |b|
    ensures k + m <= |s| && s[..k] + b[..m] == s[..k + m] && s[k + m..] == b[m..] + c
  {
    assert s == s[..k] + (b + c);
  }

  class Socket {
    /** The results of the reads to come; behind the last of them, `read` reports the end or an error. */
    var chunks: seq<seq<Byte>>
    var buffer: seq<Byte>
    var n: int
    var bufferindex: nat

    ghost predicate Valid()
      reads this
    {
      && |buffer| == BufferSize && n <= BufferSize && (n > 0 ==> bufferindex <= n)
      && (forall i :: 0 <= i < |chunks| ==> 1 <= |chunks[i]| <= BufferSize)
    }

    /** The bytes not consumed yet. */
    ghost function Stream(): (s: seq<Byte>)
      requires Valid()
      reads this
    {
      (if n > 0 then buffer[bufferindex..n] else []) + Concat(chunks)
    }

    constructor (chunks: seq<seq<Byte>>)
      requires forall i :: 0 <= i < |chunks| ==> 1 <= |chunks[i]| <= BufferSize
      ensures Valid() && n == 0 && Stream() == Concat(chunks)
    {
      var filler: Byte := *;
      this.chunks, n, bufferindex := chunks, 0, 0;
      buffer := seq<Byte>(BufferSize, _ => filler);
    }

    /** `read`: fills the front of the buffer with what has arrived. */
    method Read()
      requires Valid() && (n > 0 ==> bufferindex == n)
      modifies this
      ensures |buffer| == BufferSize && n <= BufferSize && (forall i :: 0 <= i < |chunks| ==> 1 <= |chunks[i]| <= BufferSize)
      ensures n > 0 <==> old(Stream()) != []
      ensures (if n > 0 then buffer[..n] else []) + Concat(chunks) == old(Stream())
    {
      if chunks == [] {
        n := 0;
      } else {
        buffer := chunks[0] + buffer[|chunks[0]|..];
        n, chunks := |chunks[0]|, chunks[1..];
      }
    }

    /** Makes sure that there is a byte in the buffer, if any more come. */
    method Refill()
      requires Valid()
      modifies this
      ensures Valid() && Stream() == old(Stream()) && (n > 0 <==> Stream() != []) && (n > 0 ==> bufferindex < n)
    {
      if bufferindex >= n {
        Read();
        if n > 0 {
          bufferindex := 0;
        }
      }
    }

    method ReadByte() returns (c: Option<Byte>)
      requires Valid()
      modifies this
      ensures Valid() && (n > 0 <==> old(Stream()) != [])
      ensures c == if old(Stream()) == [] then None else Some(old(Stream())[0])
      ensures Stream() == if old(Stream()) == [] then [] else old(Stream())[1..]
    {
      Refill();
      if n <= 0 {
        return None;
      }
      c := Some(buffer[bufferindex]);
      bufferindex := bufferindex + 1;
    }

    /** Copies the next `len` bytes, refilling the buffer as often as it takes. */
    method ReadCopy(len: nat) returns (dst: seq<Byte>)
      requires Valid() && n > 0
      modifies this
      ensures Valid() && (n > 0 <==> len <= |old(Stream())|)
      ensures n > 0 ==> dst == old(Stream())[..len] && Stream() == old(Stream())[len..]
    {
      hide Concat;
      ghost var s := Stream();
      var l := len;
      dst := [];
      while l > 0
        invariant Valid() && 0 <= l <= len && n > 0 && len - l <= |s| && dst == s[..len - l] && Stream() == s[len - l..]
        decreases l
      {
        Refill();
        if n <= 0 {
          assert |s| == len - l;
          return;
        }
        var lcopy := if l < n - bufferindex then l else n - bufferindex;
        ghost var here := buffer[bufferindex..n];
        Advance(s, len - l, here, Concat(chunks), lcopy);
        assert here[..lcopy] == buffer[bufferindex..bufferindex + lcopy] && here[lcopy..] == buffer[bufferindex + lcopy..n];
        dst := dst + buffer[bufferindex..bufferindex + lcopy];
        l := l - lcopy;
        bufferindex := bufferindex + lcopy;
      }
    }

    /** Decodes a length byte by byte. */
    method ReadLength() returns (value: nat)
      requires Valid() && n > 0
      modifies this
      ensures Valid() && (n > 0 <==> Decode(0, old(Stream())).done)
      ensures n > 0 ==> value == Decode(0, old(Stream())).value && Stream() == old(Stream())[Decode(0, old(Stream())).used..]
    {
      ghost var s, u := Stream(), 0;
      value := 0;
      while true
        invariant Valid() && u <= |s| && Stream() == s[u..] && n > 0
        invariant Decode(0, s) == var q := Decode(value, s[u..]); q.(used := q.used + u)
        decreases |s| - u
      {
        Split(s, u, value);
        var c := ReadByte();
        if c.None? {
          break;
        }
        u := u + 1;
        value := value * 128 + c.value % 128;
        if c.value < 128 || value >= Guard {
          break;
        }
      }
    }

    /** Reads a length and that many bytes. */
    method ReadText() returns (text: seq<Byte>)
      requires Valid() && n > 0
      modifies this
      ensures Valid() && (n > 0 <==> ReadString(old(Stream())).Some?)
      ensures n > 0 ==> ReadString(old(Stream())) == Some((text, Stream()))
    {
      ghost var s := Stream();
      var size := ReadLength();
      text := [];
      if n <= 0 {
        return;
      }
      ghost var u := Decode(0, s).used;
      text := ReadCopy(size);
      if n > 0 {
        assert s[u..][..size] == s[u..u + size] && s[u..][size..] == s[u + size..];
      }
    }

    /** Reads the third string of a device into its buffer. */
    method ReadUsn(url: seq<Byte>, st: seq<Byte>) returns (d: Device)
      requires Valid() && n > 0
      modifies this
      ensures Valid() && (n > 0 <==> ReadString(old(Stream())).Some?)
      ensures n > 0 ==> ReadString(old(Stream())).value.1 == Stream() && d == MakeDevice(url, st, ReadString(old(Stream())).value.0)
    {
      hide MakeDevice;
      ghost var s := Stream();
      d := Device([], 0, 0);
      var usnSize := ReadLength();
      if n <= 0 {
        return;
      }
      ghost var u := Decode(0, s).used;
      d := NewDevice(url, st, usnSize);
      var usn := ReadCopy(usnSize);
      if n > 0 {
        assert s[u..][..usnSize] == s[u..u + usnSize] && s[u..][usnSize..] == s[u + usnSize..];
        d := PutUsn(d, url, st, usn);
      }
    }

    method ReadOne() returns (d: Device)
      requires Valid() && n > 0
      modifies this
      ensures Valid() && (n > 0 <==> ReadDevice(old(Stream())).Some?)
      ensures n > 0 ==> ReadDevice(old(Stream())) == Some((d, Stream()))
    {
      hide ReadString, MakeDevice, Valid, Stream;
      d := Device([], 0, 0);
      var url := ReadText();
      if n <= 0 {
        return;
      }
      var st := ReadText();
      if n <= 0 {
        return;
      }
      d := ReadUsn(url, st);
    }

    /** The first read: the number of devices, unless there is nothing to read. */
    method ReadCount() returns (ndev: Byte)
      requires Valid() && n == 0
      modifies this
      ensures n > 0 <==> old(Stream()) != []
      ensures n > 0 ==> Valid() && ndev == old(Stream())[0] && Stream() == old(Stream())[1..]
    {
      ndev := 0;
      Read();
      if n > 0 {
        ndev := buffer[0];
        bufferindex := 1;
      }
    }

    /** Reads a list of devices; the one read last comes first. */
    method ReceiveDevices() returns (devlist: seq<Device>, error: int)
      requires Valid() && n == 0
      modifies this
      ensures (devlist, error) == Reply(old(Stream()))
    {
      hide ReadDevice, Valid, Stream;
      ghost var all := Stream();
      devlist := [];
      var ndev := ReadCount();
      if n <= 0 {
        return devlist, SocketError;
      }
      for i := 0 to ndev
        invariant Valid() && n > 0 && Devices(ndev - i, Stream(), devlist) == Reply(all)
      {
        var tmp := ReadOne();
        if n <= 0 {
          return devlist, InvalidServerReply;
        }
        devlist := [tmp] + devlist;
      }
      error := Success;
    }
  }

  /** A device with its first two strings in place. */
  method NewDevice(url: seq<Byte>, st: seq<Byte>, usnSize: nat) returns (d: Device)
    ensures |d.buffer| == |url| + |st| + usnSize + 3 && d.st == |url| + 1 && d.usn == |url| + |st| + 2
    ensures d.buffer[..d.usn] == url + [0] + st + [0]
  {
    var filler: Byte := *;
    var buffer := seq<Byte>(|url| + |st| + usnSize + 3, _ => filler);
    buffer := url + buffer[|url|..];
    buffer := buffer[|url| := 0];
    buffer := buffer[..|url| + 1] + st + buffer[|url| + 1 + |st|..];
    buffer := buffer[|url| + 1 + |st| := 0];
    d := Device(buffer, |url| + 1, |url| + |st| + 2);
  }

  method PutUsn(d: Device, url: seq<Byte>, st: seq<Byte>, usn: seq<Byte>) returns (r: Device)
    requires |d.buffer| == |url| + |st| + |usn| + 3 && d.st == |url| + 1 && d.usn == |url| + |st| + 2
    requires d.buffer[..d.usn] == url + [0] + st + [0]
    ensures r == MakeDevice(url, st, usn)
  {
    var buffer := d.buffer[..d.usn] + usn + d.buffer[d.usn + |usn|..];
    buffer := buffer[d.usn + |usn| := 0];
    r := d.(buffer := buffer);
  }

  // ----- what a reply says

  /** The three strings of a device; indices into their common buffer are 32-bit numbers. */
  datatype Entry = Entry(url: seq<Byte>, st: seq<Byte>, usn: seq<Byte>)

  predicate EntryOk(e: Entry) {
    |e.url| + |e.st| + |e.usn| + 2 < Word
  }

  predicate EntriesOk(es: seq<Entry>) {
    forall i :: 0 <= i < |es| ==> EntryOk(es[i])
  }

  function StringBytes(s: seq<Byte>): (b: seq<Byte>)
    requires |s| < Word
  {
    Code(|s|) + s
  }

  function EntryBytes(e: Entry): (b: seq<Byte>)
    requires EntryOk(e)
  {
    StringBytes(e.url) + StringBytes(e.st) + StringBytes(e.usn)
  }

  function EntriesBytes(es: seq<Entry>): (b: seq<Byte>)
    requires EntriesOk(es)
  {
    if es == [] then [] else EntryBytes(es[0]) + EntriesBytes(es[1..])
  }

  function EntryDevice(e: Entry): (d: Device) {
    MakeDevice(e.url, e.st, e.usn)
  }

  /** The devices of a list of entries, in reverse order. */
  function Reversed(es: seq<Entry>): (ds: seq<Device>) {
    if es == [] then [] else Reversed(es[1..]) + [EntryDevice(es[0])]
  }

  lemma StringRead(s: seq<Byte>, rest: seq<Byte>)
    requires |s| < Word
    ensures ReadString(StringBytes(s) + rest) == Some((s, rest))
  {
    var t := StringBytes(s) + rest;
    RoundTrip(|s|, s + rest);
    assert t == Code(|s|) + (s + rest);
  }

  lemma EntryRead(e: Entry, rest: seq<Byte>)
    requires EntryOk(e)
    ensures ReadDevice(EntryBytes(e) + rest) == Some((EntryDevice(e), rest))
  {
    hide ReadString, StringBytes, MakeDevice;
    var a, b, c := StringBytes(e.url), StringBytes(e.st), StringBytes(e.usn);
    assert a + b + c + rest == a + (b + (c + rest));
    StringRead(e.url, b + (c + rest));
    StringRead(e.st, c + rest);
    StringRead(e.usn, rest);
  }

  lemma {:induction false} EntriesRead(es: seq<Entry>, rest: seq<Byte>, list: seq<Device>)
    requires EntriesOk(es)
    ensures Devices(|es|, EntriesBytes(es) + rest, list) == (Reversed(es) + list, Success)
    decreases |es|
  {
    hide ReadDevice, EntryBytes, EntryOk, EntryDevice;
    if es == [] {
      assert EntriesBytes(es) + rest == rest && Reversed(es) + list == list;
    } else {
      assert EntriesBytes(es) + rest == EntryBytes(es[0]) + (EntriesBytes(es[1..]) + rest);
      EntryRead(es[0], EntriesBytes(es[1..]) + rest);
      EntriesRead(es[1..], rest, [EntryDevice(es[0])] + list);
      assert Reversed(es[1..]) + ([EntryDevice(es[0])] + list) == Reversed(es) + list;
    }
  }

  /** A reply, in front of anything, is read as the list it encodes, reversed. */
  lemma ReplyRead(es: seq<Entry>, rest: seq<Byte>)
    requires EntriesOk(es) && |es| < 256
    ensures Reply([|es|] + EntriesBytes(es) + rest) == (Reversed(es), Success)
  {
    hide Devices, EntriesBytes, EntriesOk, Reversed;
    var s := [|es|] + EntriesBytes(es) + rest;
    assert s[1..] == EntriesBytes(es) + rest;
    EntriesRead(es, rest, []);
    assert Reversed(es) + [] == Reversed(es);
  }

  /** However the socket splits it. */
  method ReceiveReply(es: seq<Entry>, chunks: seq<seq<Byte>>, ghost rest: seq<Byte>) returns (devlist: seq<Device>)
    requires EntriesOk(es) && |es| < 256 && (forall i :: 0 <= i < |chunks| ==> 1 <= |chunks[i]| <= BufferSize)
    requires Concat(chunks) == [|es|] + EntriesBytes(es) + rest
    ensures devlist == Reversed(es)
  {
    ReplyRead(es, rest);
    var socket := new Socket(chunks);
    var error;
    devlist, error := socket.ReceiveDevices();
  }

  // ----- replies that are cut short

  lemma {:induction false} DecodeMore(n: nat, s: seq<Byte>, m: nat)
    requires m <= |s| && Decode(n, s[..m]).done
    ensures Decode(n, s) == Decode(n, s[..m])
    decreases |s|
  {
    assert m > 0;
    var k := n * 128 + s[0] % 128;
    if s[0] >= 128 && k < Guard {
      assert s[..m][1..] == s[1..][..m - 1];
      DecodeMore(k, s[1..], m - 1);
    }
  }

  lemma StringCut(s: seq<Byte>, t: seq<Byte>)
    requires |s| < Word && t <= StringBytes(s) && |t| < |StringBytes(s)|
    ensures ReadString(t) == None
  {
    var full := StringBytes(s);
    RoundTrip(|s|, s);
    assert t == full[..|t|];
    if Decode(0, t).done {
      DecodeMore(0, full, |t|);
    }
  }

  /** A prefix of two parts is a prefix of the first, or the first and a prefix of the second. */
  lemma PrefixOf(t: seq<Byte>, a: seq<Byte>, b: seq<Byte>)
    requires t <= a + b
    ensures |t| < |a| ==> t <= a
    ensures |t| >= |a| ==> t == a + t[|a|..] && t[|a|..] <= b
  {
    if |t| >= |a| {
      assert t[..|a|] == (a + b)[..|a|] == a;
      assert t[|a|..] == (a + b)[|a|..|t|] == b[..|t| - |a|];
    } else {
      assert t == (a + b)[..|t|] == a[..|t|];
    }
  }

  lemma EntryCut(e: Entry, t: seq<Byte>)
    requires EntryOk(e) && t <= EntryBytes(e) && |t| < |EntryBytes(e)|
    ensures ReadDevice(t) == None
  {
    hide ReadString, StringBytes, MakeDevice;
    var a, b, c := StringBytes(e.url), StringBytes(e.st), StringBytes(e.usn);
    assert a + b + c == a + (b + c);
    PrefixOf(t, a, b + c);
    if |t| < |a| {
      StringCut(e.url, t);
    } else {
      var u := t[|a|..];
      StringRead(e.url, u);
      PrefixOf(u, b, c);
      if |u| < |b| {
        StringCut(e.st, u);
      } else {
        var v := u[|b|..];
        StringRead(e.st, v);
        StringCut(e.usn, v);
      }
    }
  }

  /** How many bytes the first `k` entries take. */
  function Size(es: seq<Entry>, k: nat): (n: nat)
    requires EntriesOk(es) && k <= |es|
  {
    if k == 0 then 0 else |EntryBytes(es[0])| + Size(es[1..], k - 1)
  }

  /** `k` is the number of entries that are there completely. */
  lemma {:induction false} EntriesCut(es: seq<Entry>, t: seq<Byte>, list: seq<Device>) returns (k: nat)
    requires EntriesOk(es) && t <= EntriesBytes(es) && |t| < |EntriesBytes(es)|
    ensures k < |es| && Size(es, k) <= |t| < Size(es, k + 1)
    ensures Devices(|es|, t, list) == (Reversed(es[..k]) + list, InvalidServerReply)
    decreases |es|
  {
    hide ReadDevice, EntryBytes, EntryOk, EntryDevice;
    var a, more := EntryBytes(es[0]), EntriesBytes(es[1..]);
    PrefixOf(t, a, more);
    if |t| < |a| {
      EntryCut(es[0], t);
      k := 0;
      assert Reversed(es[..0]) + list == list;
    } else {
      EntryRead(es[0], t[|a|..]);
      var j := EntriesCut(es[1..], t[|a|..], [EntryDevice(es[0])] + list);
      k := j + 1;
      assert es[..k][1..] == es[1..][..j];
      assert Reversed(es[1..][..j]) + ([EntryDevice(es[0])] + list) == Reversed(es[..k]) + list;
    }
  }

  lemma {:induction false} SizeIs(es: seq<Entry>, k: nat)
    requires EntriesOk(es) && k <= |es|
    ensures EntriesOk(es[..k]) && Size(es, k) == |EntriesBytes(es[..k])|
    decreases |es|
  {
    if k > 0 {
      assert es[..k][1..] == es[1..][..k - 1];
      SizeIs(es[1..], k - 1);
    }
  }

  lemma ReversedNone(es: seq<Entry>)
    ensures Reversed(es[..0]) == []
  {
  }

  /** A reply that is cut short is reported as such, with exactly the devices that were complete. */
  lemma ReplyCut(es: seq<Entry>, t: seq<Byte>) returns (k: nat)
    requires EntriesOk(es) && |es| < 256 && t <= [|es|] + EntriesBytes(es) && |t| < 1 + |EntriesBytes(es)|
    ensures k <= |es| && Reply(t).0 == Reversed(es[..k]) && Reply(t).1 == if t == [] then SocketError else InvalidServerReply
    ensures t == [] ==> k == 0
    ensures t != [] ==> k < |es| && 1 + |EntriesBytes(es[..k])| <= |t| < 1 + |EntriesBytes(es[..k + 1])|
  {
    hide EntriesBytes, EntriesOk, Devices, Reversed, Size;
    if t == [] {
      ReversedNone(es);
      return 0;
    }
    PrefixOf(t, [|es|], EntriesBytes(es));
    assert t[0] == |es|;
    k := EntriesCut(es, t[1..], []);
    assert Reversed(es[..k]) + [] == Reversed(es[..k]);
    SizeIs(es, k);
    SizeIs(es, k + 1);
  }

  // ----- requests

  /** `ssdp:all` */
  const Everything: seq<Byte> := [115, 115, 100, 112, 58, 97, 108, 108]

  /** Asks for the devices of a type: the request that is written, or an error when it does not fit. */
  method RequestDevices(devtype: seq<Byte>) returns (error: int, written: seq<Byte>)
    requires |devtype| < Word
    ensures var n := 1 + |Code(|devtype|)| + |devtype|;
            if n <= BufferSize then error == Success && written == [if devtype == Everything then 3 else 1] + Code(|devtype|) + devtype
            else error == InvalidInput && written == []
  {
    hide Code;
    written := [];
    var kind: Byte := if devtype == Everything then 3 else 1;
    var buffer := new Byte[BufferSize];
    buffer[0] := kind;
    assert buffer[..1] == [kind];
    CodeShort(|devtype|);
    var p := CodeLengthAt(|devtype|, buffer, 1);
    FrontIs(buffer[..], [kind] + Code(|devtype|));
    if p + |devtype| > BufferSize {
      return InvalidInput, [];
    }
    CopyTo(devtype, buffer, p);
    written := buffer[..p + |devtype|];
    error := Success;
  }

  lemma FrontIs(s: seq<Byte>, a: seq<Byte>)
    ensures |a| <= |s| && a <= s ==> s[..|a|] == a
  {
  }

  lemma CodeShort(n: nat)
    requires n < Word
    ensures 1 <= |Code(n)| <= 5
  {
  }

  /** `memcpy` into a buffer. */
  method CopyTo(s: seq<Byte>, buffer: array<Byte>, p: nat)
    requires p + |s| <= buffer.Length
    modifies buffer
    ensures buffer[..p + |s|] == old(buffer[..p]) + s
  {
    for i := 0 to |s|
      invariant buffer[..p] == old(buffer[..p])
      invariant forall j :: 0 <= j < i ==> buffer[p + j] == s[j]
    {
      buffer[p + i] := s[i];
    }
  }
}
