/** The parser for burn transactions. */
module BurnParser {
  import opened ByteStrings
  import opened Options
  import opened BurnFormat

  method ExtractAddress(metadata: seq<Byte>) returns (r: seq<Byte>)
    ensures r == FirstAddress(metadata, 0)
  {
    for i := 0 to |metadata|
      invariant FirstAddress(metadata, 0) == FirstAddress(metadata, i)
    {
      if AddressAt(metadata, i) {
        return metadata[i..i + 42];
      }
    }
    r := [];
  }

  /** Reads a hash and an amount; `next` is where the reading stopped, or nothing when the bytes ran out. */
  method ReadStart(buf: seq<Byte>, start: nat) returns (data: BurnData, next: Option<nat>)
    requires start <= |buf|
    ensures data == Start(buf[start..]) && next == if start + 40 <= |buf| then Some(start + 40) else None
  {
    var pos := start;
    ghost var t := buf[start..];
    data := Blank;
    if pos + 32 > |buf| {
      return data, None;
    }
    var hash := HexOf(buf[pos..pos + 32]);
    assert buf[pos..pos + 32] == t[..32];
    data := data.(hash := hash);
    pos := pos + 32;
    if pos + 8 > |buf| {
      return data, None;
    }
    var amount: nat := 0;
    for i := 0 to 8
      invariant amount == Le(buf[pos..pos + i])
    {
      LeAppend(buf[pos..pos + i], buf[pos + i]);
      assert buf[pos..pos + (i + 1)] == buf[pos..pos + i] + [buf[pos + i]];
      amount := amount + buf[pos + i] * Pow(256, i);
    }
    assert buf[pos..pos + 8] == t[32..40];
    data := data.(amount := Some(amount));
    next := Some(pos + 8);
  }

  /** Reads a size byte and that much metadata. */
  method ReadFinish(buf: seq<Byte>, start: nat, d: BurnData) returns (data: BurnData)
    requires start <= |buf|
    ensures data == Finish(d, buf[start..])
  {
    data := d;
    var pos := start;
    if pos >= |buf| {
      return;
    }
    var size := buf[pos];
    pos := pos + 1;
    if size > 0 {
      if pos + size > |buf| {
        return;
      }
      assert buf[pos..pos + size] == buf[start..][1..1 + size];
      data := data.(metadata := buf[pos..pos + size]);
      var address := ExtractAddress(data.metadata);
      data := data.(address := address);
    }
    data := data.(valid := true);
  }

  method ParseHeatCommitment(buf: seq<Byte>, pos: nat) returns (data: BurnData)
    requires pos <= |buf|
    ensures data == HeatData(buf[pos..])
  {
    var next;
    data, next := ReadStart(buf, pos);
    if next.None? {
      return;
    }
    assert buf[next.value..] == buf[pos..][40..];
    data := ReadFinish(buf, next.value, data);
  }

  method ParseYieldCommitment(buf: seq<Byte>, start: nat) returns (data: BurnData)
    requires start <= |buf|
    ensures data == YieldData(buf[start..])
  {
    var next;
    data, next := ReadStart(buf, start);
    if next.None? {
      return;
    }
    var pos := next.value;
    if pos + 4 > |buf| {
      return;
    }
    pos := pos + 4;
    if pos >= |buf| {
      return;
    }
    var schemeLength := buf[pos];
    pos := pos + 1;
    if pos + schemeLength > |buf| {
      return;
    }
    pos := pos + schemeLength;
    assert buf[pos..] == buf[start..][45 + schemeLength..];
    data := ReadFinish(buf, pos, data);
  }

  /** A length whose first `i` bytes have already been read, with value `size`. */
  ghost function Extended(r: Length, size: nat, i: nat): (e: Length) {
    match r
    case Len(s, used) => Len(size + s, used + i)
    case other => other
  }

  /** One more byte of a length. */
  lemma LengthStep(buf: seq<Byte>, pos: nat, i: nat, size: nat)
    requires pos < |buf| && i <= 4
    ensures var b, r := buf[pos], Extended(LengthOf(buf[pos..], i), size, i);
            if i == 4 && b % 128 >= 8 then r == Overflow
            else if b < 128 then r == Len(size + b % 128 * Pow(128, i), i + 1)
            else if i == 4 then r == TooLong
            else r == Extended(LengthOf(buf[pos + 1..], i + 1), size + b % 128 * Pow(128, i), i + 1)
  {
    assert buf[pos..][1..] == buf[pos + 1..];
  }

  /** Reads the length of a field to skip. */
  method ReadLength(buf: seq<Byte>, start: nat) returns (r: Length)
    requires start <= |buf|
    ensures r == LengthOf(buf[start..], 0)
  {
    hide LengthOf, Pow;
    var pos, size: nat, shift := start, 0, 0;
    while pos < |buf|
      invariant start <= pos <= |buf| && pos - start <= 4 && shift == 7 * (pos - start)
      invariant LengthOf(buf[start..], 0) == Extended(LengthOf(buf[pos..], pos - start), size, pos - start)
      decreases |buf| - pos
    {
      var byte := buf[pos];
      LengthStep(buf, pos, pos - start, size);
      pos := pos + 1;
      if shift == 28 && byte % 128 >= 8 {
        return Overflow;
      }
      size := size + byte % 128 * Pow(128, shift / 7);
      if byte < 128 {
        return Len(size, pos - start);
      }
      shift := shift + 7;
      if shift >= 32 {
        return TooLong;
      }
    }
    LengthOfNone(buf, pos, pos - start);
    r := Len(size, pos - start);
  }

  lemma LengthOfNone(buf: seq<Byte>, pos: nat, i: nat)
    requires pos == |buf| && i <= 4
    ensures LengthOf(buf[pos..], i) == Len(0, 0)
  {
  }

  /** The walk from one field to the next. */
  lemma FirstStep(buf: seq<Byte>, pos: nat)
    requires pos < |buf|
    ensures var b, r, t := buf[pos], First(buf[pos..]), buf[pos + 1..];
            && (b == HeatTag ==> r == Heat(t))
            && (b == YieldTag ==> r == Yield(t))
            && (b == PaddingTag ==> r == First(t))
            && (b != HeatTag && b != YieldTag && b != PaddingTag ==>
                  match LengthOf(t, 0)
                  case Len(size, used) => r == if pos + 1 + used + size <= |buf| then First(buf[pos + 1 + used + size..]) else Nothing
                  case TooLong => r == Nothing
                  case Overflow => r == Undefined)
  {
    var s := buf[pos..];
    assert s[1..] == buf[pos + 1..];
    var l := LengthOf(s[1..], 0);
    if l.Len? && 1 + l.used + l.size <= |s| {
      assert s[1 + l.used + l.size..] == buf[pos + 1 + l.used + l.size..];
    }
  }

  lemma FirstNone(buf: seq<Byte>)
    ensures First(buf[|buf|..]) == Nothing && First(buf[0..]) == First(buf)
  {
    assert buf[0..] == buf;
  }

  /** Skips up to 255 more bytes of padding. */
  method SkipPadding(buf: seq<Byte>, start: nat) returns (pos: nat)
    requires start <= |buf|
    ensures start <= pos <= |buf| && First(buf[pos..]) == First(buf[start..])
  {
    hide First;
    pos := start;
    var paddingSize := 1;
    while pos < |buf| && paddingSize <= 255
      invariant start <= pos <= |buf| && First(buf[pos..]) == First(buf[start..])
      decreases |buf| - pos
    {
      if buf[pos] != 0 {
        break;
      }
      FirstStep(buf, pos);
      pos := pos + 1;
      paddingSize := paddingSize + 1;
    }
  }

  /** Skips fields up to the first burn tag and parses the record behind it. */
  method ParseBurnTransaction(buf: seq<Byte>) returns (r: Outcome)
    ensures r == Parse(buf)
  {
    hide First, LengthOf, HeatData, YieldData;
    FirstNone(buf);
    r := Parsed(Blank);
    if |buf| == 0 {
      return;
    }
    var pos := 0;
    while pos < |buf|
      invariant if pos <= |buf| then First(buf) == First(buf[pos..]) else First(buf) == Nothing
      decreases |buf| - pos
    {
      FirstStep(buf, pos);
      var tag := buf[pos];
      pos := pos + 1;
      if tag == HeatTag {
        var data := ParseHeatCommitment(buf, pos);
        return Parsed(data);
      } else if tag == YieldTag {
        var data := ParseYieldCommitment(buf, pos);
        return Parsed(data);
      } else if tag == PaddingTag {
        pos := SkipPadding(buf, pos);
      } else {
        if pos >= |buf| {
          LengthOfNone(buf, pos, 0);
          break;
        }
        var length := ReadLength(buf, pos);
        if length.Overflow? {
          return UndefinedShift;
        }
        if length.TooLong? {
          return;
        }
        pos := pos + length.used + length.size;
      }
    }
  }

  /** Whether an extra field holds a complete burn record. */
  method IsBurnTransaction(buf: seq<Byte>) returns (r: Option<bool>)
    ensures r == match Parse(buf) { case Parsed(d) => Some(d.valid) case UndefinedShift => None }
  {
    if |buf| == 0 {
      return Some(false);
    }
    var outcome := ParseBurnTransaction(buf);
    r := match outcome case Parsed(d) => Some(d.valid) case UndefinedShift => None;
  }
}
