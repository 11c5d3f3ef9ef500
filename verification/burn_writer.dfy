/** The functions that append burn records to an extra field, and whether the parser reads what they write. */
module BurnWriter {
  import opened ByteStrings
  import opened Options
  import opened BurnFormat
  import opened BurnRecords

  const Limit: nat := Pow(256, 8)

  /** A size, cut down to one byte, and the bytes, unless that byte is zero. */
  function Sized(m: seq<Byte>): (s: seq<Byte>) {
    [|m| % 256] + if |m| % 256 > 0 then m else []
  }

  function HeatWritten(hash: seq<Byte>, amount: nat, metadata: seq<Byte>): (s: seq<Byte>) {
    [HeatTag] + (hash + LeBytes(amount, 8)) + Sized(metadata)
  }

  /** What stands behind the chain code of a yield record. */
  function YieldTail(id: seq<Byte>, metadata: seq<Byte>, gift: seq<Byte>): (s: seq<Byte>) {
    [|id| % 256] + id + Sized(metadata) + Sized(gift)
  }

  function YieldWritten(hash: seq<Byte>, amount: nat, term: nat, code: Byte, id: seq<Byte>, metadata: seq<Byte>, gift: seq<Byte>): (s: seq<Byte>) {
    [YieldTag] + (hash + LeBytes(amount, 8)) + (LeBytes(term, 4) + [code]) + YieldTail(id, metadata, gift)
  }

  /** Pushes the lowest `k` bytes of a number, one after another. */
  method PushNumber(extra: seq<Byte>, number: nat, k: nat) returns (r: seq<Byte>)
    ensures r == extra + LeBytes(number, k)
  {
    r := extra;
    var rest := number;
    for i := 0 to k
      invariant r == extra + LeBytes(number, i) && rest == Shifted(number, i)
    {
      LeBytesAppend(number, i);
      r := r + [rest % 256];
      rest := rest / 256;
    }
  }

  method PushSized(extra: seq<Byte>, m: seq<Byte>) returns (r: seq<Byte>)
    ensures r == extra + Sized(m)
  {
    var size := |m| % 256;
    r := extra + [size];
    if size > 0 {
      r := r + m;
    }
  }

  method AddHeatCommitment(extra: seq<Byte>, hash: seq<Byte>, amount: nat, metadata: seq<Byte>) returns (r: seq<Byte>)
    ensures r == extra + HeatWritten(hash, amount, metadata)
  {
    r := extra + [HeatTag];
    r := r + hash;
    r := PushNumber(r, amount, 8);
    r := PushSized(r, metadata);
    Regroup(extra, [HeatTag], hash + LeBytes(amount, 8), Sized(metadata), []);
  }

  method AddYieldCommitment(extra: seq<Byte>, hash: seq<Byte>, amount: nat, term: nat, code: Byte, id: seq<Byte>, metadata: seq<Byte>, gift: seq<Byte>)
    returns (r: seq<Byte>)
    ensures r == extra + YieldWritten(hash, amount, term, code, id, metadata, gift)
  {
    r := extra + [YieldTag];
    r := r + hash;
    r := PushNumber(r, amount, 8);
    r := PushNumber(r, term, 4);
    r := r + [code];
    r := r + [|id| % 256];
    r := r + id;
    r := PushSized(r, metadata);
    r := PushSized(r, gift);
    YieldPieces(extra, hash, LeBytes(amount, 8), LeBytes(term, 4), [code], [|id| % 256], id, Sized(metadata), Sized(gift));
  }

  lemma YieldPieces(extra: seq<Byte>, hash: seq<Byte>, amount: seq<Byte>, term: seq<Byte>, code: seq<Byte>,
                    size: seq<Byte>, id: seq<Byte>, m: seq<Byte>, g: seq<Byte>)
    ensures extra + [YieldTag] + hash + amount + term + code + size + id + m + g
            == extra + ([YieldTag] + (hash + amount) + (term + code) + (size + id + m + g))
  {
  }

  /** A written HEAT record is read back, with as much of the metadata as its size byte says: all of it if and only if it
      has fewer than 256 bytes. */
  lemma HeatWriteRead(fs: seq<Field>, hash: seq<Byte>, amount: nat, metadata: seq<Byte>, rest: seq<Byte>)
    requires FieldsOk(fs) && |hash| == 32 && amount < Limit
    ensures Parse(FieldsBytes(fs) + HeatWritten(hash, amount, metadata) + rest)
            == Parsed(RecordData(HeatRecord(hash, amount, metadata[..|metadata| % 256])))
    ensures metadata[..|metadata| % 256] == metadata <==> |metadata| < 256
  {
    hide Parse, RecordData, LeBytes, FieldsBytes, FieldsOk;
    var k := |metadata| % 256;
    var r := HeatRecord(hash, amount, metadata[..k]);
    var more := if k > 0 then metadata[k..] + rest else rest;
    assert Sized(metadata) + rest == [k] + metadata[..k] + more;
    HeatParts(fs, r, Sized(metadata), rest, more);
    RoundTrip(fs, r, more);
  }

  lemma HeatParts(fs: seq<Field>, r: Record, sized: seq<Byte>, rest: seq<Byte>, more: seq<Byte>)
    requires r.HeatRecord? && RecordOk(r) && sized + rest == [|r.metadata|] + r.metadata + more
    ensures FieldsBytes(fs) + ([HeatTag] + (r.hash + LeBytes(r.amount, 8)) + sized) + rest == FieldsBytes(fs) + RecordBytes(r) + more
  {
    hide FieldsBytes, LeBytes;
    var f, a, b := FieldsBytes(fs), [HeatTag], r.hash + LeBytes(r.amount, 8);
    assert f + (a + b + sized) + rest == f + a + b + (sized + rest);
    assert f + (a + b + ([|r.metadata|] + r.metadata)) + more == f + a + b + ([|r.metadata|] + r.metadata + more);
  }

  /** A written YIELD record is not read back in general: the parser takes the chain code for the length of a text, and so
      looks for the metadata that many bytes behind it.  It finds it if and only if it stands there, with its whole size
      in front of it. */
  lemma YieldWriteRead(fs: seq<Field>, hash: seq<Byte>, amount: nat, term: nat, code: Byte, id: seq<Byte>, metadata: seq<Byte>, gift: seq<Byte>,
                       rest: seq<Byte>)
    requires FieldsOk(fs) && |hash| == 32 && amount < Limit
    ensures var t := YieldTail(id, metadata, gift) + rest;
            Parse(FieldsBytes(fs) + YieldWritten(hash, amount, term, code, id, metadata, gift) + rest)
            == Parsed(RecordData(HeatRecord(hash, amount, metadata)))
            <==> |metadata| < 256 && code <= |t| && [|metadata|] + metadata <= t[code..]
  {
    hide First, Finish, Start, YieldData, YieldTail, LeBytes, ToHex, FirstAddress, FieldsBytes, FieldsOk;
    var tail := YieldTail(id, metadata, gift);
    var start, middle := hash + LeBytes(amount, 8), LeBytes(term, 4) + [code];
    Around(FieldsBytes(fs), [YieldTag], start, middle, tail, rest);
    SkipFields(fs, [YieldTag] + (start + middle + (tail + rest)));
    YieldBehind(hash, amount, LeBytes(term, 4), code, tail + rest);
    if code <= |tail + rest| {
      FinishIff(Start(start + middle + (tail + rest)), (tail + rest)[code..], metadata);
    }
  }

  lemma Around(f: seq<Byte>, tag: seq<Byte>, a: seq<Byte>, b: seq<Byte>, c: seq<Byte>, rest: seq<Byte>)
    ensures f + (tag + a + b + c) + rest == f + (tag + (a + b + (c + rest)))
  {
  }

  lemma YieldBehind(hash: seq<Byte>, amount: nat, term: seq<Byte>, code: Byte, t: seq<Byte>)
    requires |hash| == 32 && amount < Limit && |term| == 4
    ensures var start, s := hash + LeBytes(amount, 8), hash + LeBytes(amount, 8) + (term + [code]) + t;
            && First([YieldTag] + s) == Yield(s) && Start(s) == Blank.(hash := ToHex(hash), amount := Some(amount))
            && YieldData(s) == if code <= |t| then Finish(Start(s), t[code..]) else Start(s)
  {
    var s := hash + LeBytes(amount, 8) + (term + [code]) + t;
    assert ([YieldTag] + s)[1..] == s;
    assert s == hash + LeBytes(amount, 8) + (term + [code] + t);
    StartReads(hash, amount, term + [code] + t);
    assert s[44] == code;
    if code <= |t| {
      assert s[45 + code..] == t[code..];
    }
  }

  lemma FinishIff(d: BurnData, u: seq<Byte>, m: seq<Byte>)
    requires !d.valid && d.metadata == [] && d.address == []
    ensures Finish(d, u) == d.(metadata := m, address := FirstAddress(m, 0), valid := true) <==> |m| < 256 && [|m|] + m <= u
  {
    hide *;
    if |m| < 256 && [|m|] + m <= u {
      FinishHas(d, u, m);
    }
    if Finish(d, u) == d.(metadata := m, address := FirstAddress(m, 0), valid := true) {
      FinishOnly(d, u);
    }
  }

  lemma FinishHas(d: BurnData, u: seq<Byte>, m: seq<Byte>)
    requires |m| < 256 && [|m|] + m <= u
    requires d.metadata == [] && d.address == []
    ensures Finish(d, u) == d.(metadata := m, address := FirstAddress(m, 0), valid := true)
  {
    hide *;
    FrontAndRest(u, [|m|] + m);
    FinishReads(d, m, u[1 + |m|..]);
  }

  lemma FinishOnly(d: BurnData, u: seq<Byte>)
    requires !d.valid && d.metadata == [] && d.address == [] && Finish(d, u).valid
    ensures var m := Finish(d, u).metadata;
            |m| < 256 && [|m|] + m <= u
  {
    hide *;
    var m, rest := FinishShape(d, u);
    FrontOf([|m|] + m, rest);
  }

  lemma FrontAndRest(u: seq<Byte>, a: seq<Byte>)
    requires a <= u
    ensures u == a + u[|a|..]
  {
  }

  lemma FrontOf(a: seq<Byte>, b: seq<Byte>)
    ensures a <= a + b
  {
  }

  /** The metadata is found when the chain code happens to be the size of the text behind it. */
  lemma YieldWriteReadFits(fs: seq<Field>, hash: seq<Byte>, amount: nat, term: nat, code: Byte, id: seq<Byte>, metadata: seq<Byte>, gift: seq<Byte>,
                           rest: seq<Byte>)
    requires FieldsOk(fs) && |hash| == 32 && amount < Limit && |metadata| < 256 && code == 1 + |id|
    ensures Parse(FieldsBytes(fs) + YieldWritten(hash, amount, term, code, id, metadata, gift) + rest)
            == Parsed(RecordData(HeatRecord(hash, amount, metadata)))
  {
    hide Parse, RecordData, YieldWritten, FieldsBytes, FieldsOk;
    YieldWriteRead(fs, hash, amount, term, code, id, metadata, gift, rest);
    SizedAll(metadata);
    TailBehind(|id| % 256, id, [|metadata|] + metadata, Sized(gift), rest);
  }

  lemma SizedAll(m: seq<Byte>)
    requires |m| < 256
    ensures Sized(m) == [|m|] + m
  {
  }

  lemma TailBehind(size: Byte, id: seq<Byte>, m: seq<Byte>, g: seq<Byte>, rest: seq<Byte>)
    ensures var t := [size] + id + m + g + rest;
            1 + |id| <= |t| && m <= t[1 + |id|..]
  {
    var t := [size] + id + m + g + rest;
    assert t[1 + |id|..] == m + (g + rest);
  }

  /** One that is not read back: chain code 0, no asset, one byte of metadata. */
  lemma YieldWriteReadFails(hash: seq<Byte>)
    requires |hash| == 32
    ensures Parse(YieldWritten(hash, 0, 0, 0, [], [5], [])) != Parsed(RecordData(HeatRecord(hash, 0, [5])))
  {
    LimitPositive();
    YieldWriteRead([], hash, 0, 0, 0, [], [5], [], []);
    var s := YieldWritten(hash, 0, 0, 0, [], [5], []);
    assert FieldsBytes([]) + s + [] == s;
    var t := YieldTail([], [5], []) + [];
    assert t[0..][0] == 0;
  }

  lemma LimitPositive()
    ensures 0 < Limit
  {
  }
}
