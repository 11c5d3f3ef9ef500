/** The functions that read a burn record back out of an extra field, and what of a written record they find. */
module BurnReaders {
  import opened ByteStrings
  import opened Options
  import opened BurnFormat
  import opened BurnWriter

  datatype HeatCommitment = HeatCommitment(hash: seq<Byte>, amount: nat, metadata: seq<Byte>)

  /** The reader passes over the amount and leaves it as it was. */
  datatype YieldCommitment = YieldCommitment(hash: seq<Byte>, term: nat, code: Byte, id: seq<Byte>, metadata: seq<Byte>, gift: seq<Byte>)

  // ----- what is read, as functions of the bytes

  /** A size byte, as many bytes, and what is left behind them. */
  function TakeSized(s: seq<Byte>): (r: Option<(seq<Byte>, seq<Byte>)>) {
    if s == [] || 1 + s[0] > |s| then None else Some((s[1..1 + s[0]], s[1 + s[0]..]))
  }

  /** The index of the first byte that is the tag, or the length. */
  function TagAt(s: seq<Byte>): (i: nat)
    ensures i <= |s| && (i < |s| ==> s[i] == HeatTag) && forall j :: 0 <= j < i ==> s[j] != HeatTag
  {
    if s == [] || s[0] == HeatTag then 0 else 1 + TagAt(s[1..])
  }

  /** `s` is what stands behind the tag. */
  function HeatFrom(s: seq<Byte>): (r: Option<HeatCommitment>) {
    if |s| < 40 then None
    else
      match TakeSized(s[40..])
      case None => None
      case Some((m, _)) => Some(HeatCommitment(s[..32], Le(s[32..40]), m))
  }

  function ReadHeat(extra: seq<Byte>): (r: Option<HeatCommitment>) {
    var i := TagAt(extra);
    if i == |extra| then None else HeatFrom(extra[i + 1..])
  }

  /** The three texts at the end of a yield record. */
  function ReadTexts(s: seq<Byte>): (r: Option<(seq<Byte>, seq<Byte>, seq<Byte>)>) {
    match TakeSized(s)
    case None => None
    case Some((id, t)) =>
      match TakeSized(t)
      case None => None
      case Some((m, u)) =>
        match TakeSized(u)
        case None => None
        case Some((g, _)) => Some((id, m, g))
  }

  function ReadYield(extra: seq<Byte>): (r: Option<YieldCommitment>) {
    if extra == [] || extra[0] != YieldTag || |extra| < 46 then None
    else
      match ReadTexts(extra[46..])
      case None => None
      case Some((id, m, g)) => Some(YieldCommitment(extra[1..33], Le(extra[41..45]), extra[45], id, m, g))
  }

  // ----- the readers

  /** A number in little-endian order, its bytes shifted into place one after another. */
  method GetNumber(s: seq<Byte>, pos: nat, k: nat) returns (v: nat)
    requires pos + k <= |s|
    ensures v == Le(s[pos..pos + k])
  {
    v := 0;
    var weight: nat := 1;
    for i := 0 to k
      invariant v == Le(s[pos..pos + i]) && weight == Pow(256, i)
    {
      LeAppend(s[pos..pos + i], s[pos + i]);
      assert s[pos..pos + i + 1] == s[pos..pos + i] + [s[pos + i]];
      v := v + s[pos + i] * weight;
      weight := 256 * weight;
    }
  }

  /** A text with its size in front of it, and the position behind it. */
  method GetSized(s: seq<Byte>, pos: nat) returns (r: Option<seq<Byte>>, next: nat)
    requires pos <= |s|
    ensures TakeSized(s[pos..]).None? <==> r.None?
    ensures r.Some? ==> next <= |s| && TakeSized(s[pos..]) == Some((r.value, s[next..]))
  {
    r, next := None, pos;
    if pos >= |s| {
      return;
    }
    var size := s[pos];
    next := pos + 1;
    if next + size > |s| {
      return;
    }
    ghost var t := s[pos..];
    assert t[1..1 + size] == s[next..next + size] && t[1 + size..] == s[next + size..];
    r, next := Some(s[next..next + size]), next + size;
  }

  method GetHeatCommitment(extra: seq<Byte>) returns (r: Option<HeatCommitment>)
    ensures r == ReadHeat(extra)
  {
    hide Le, TakeSized, TagAt;
    var pos := 0;
    while pos < |extra| && extra[pos] != HeatTag
      invariant pos <= |extra| && forall j :: 0 <= j < pos ==> extra[j] != HeatTag
    {
      pos := pos + 1;
    }
    if pos == |extra| {
      return None;
    }
    pos := pos + 1;
    ghost var s := extra[pos..];
    assert ReadHeat(extra) == HeatFrom(s);
    if pos + 32 > |extra| {
      return None;
    }
    var hash := extra[pos..pos + 32];
    pos := pos + 32;
    if pos + 8 > |extra| {
      return None;
    }
    assert hash == s[..32] && extra[pos..pos + 8] == s[32..40];
    var amount := GetNumber(extra, pos, 8);
    pos := pos + 8;
    assert extra[pos..] == s[40..];
    var metadata, next := GetSized(extra, pos);
    r := if metadata.None? then None else Some(HeatCommitment(hash, amount, metadata.value));
  }

  method GetYieldCommitment(extra: seq<Byte>) returns (r: Option<YieldCommitment>)
    ensures r == ReadYield(extra)
  {
    hide Le, TakeSized;
    r := None;
    if extra == [] || extra[0] != YieldTag {
      return;
    }
    var pos := 1;
    if pos + 32 > |extra| {
      return;
    }
    var hash := extra[pos..pos + 32];
    pos := pos + 32;
    if pos + 8 > |extra| {
      return;
    }
    pos := pos + 8;
    if pos + 4 > |extra| {
      return;
    }
    var term := GetNumber(extra, pos, 4);
    pos := pos + 4;
    if pos >= |extra| {
      return;
    }
    var code := extra[pos];
    pos := pos + 1;
    var id, behindId := GetSized(extra, pos);
    if id.None? {
      return;
    }
    var metadata, behindMetadata := GetSized(extra, behindId);
    if metadata.None? {
      return;
    }
    var gift, _ := GetSized(extra, behindMetadata);
    if gift.None? {
      return;
    }
    r := Some(YieldCommitment(hash, term, code, id.value, metadata.value, gift.value));
  }

  // ----- reading what was written

  lemma SizedTaken(m: seq<Byte>, rest: seq<Byte>)
    requires |m| < 256
    ensures TakeSized(Sized(m) + rest) == Some((m, rest)) && Sized(m) == [|m|] + m
  {
    var s := Sized(m) + rest;
    assert s == [|m|] + m + rest;
    assert s[1..1 + |m|] == m && s[1 + |m|..] == rest;
  }

  lemma TextsTaken(id: seq<Byte>, metadata: seq<Byte>, gift: seq<Byte>, rest: seq<Byte>)
    requires |id| < 256 && |metadata| < 256 && |gift| < 256
    ensures ReadTexts(YieldTail(id, metadata, gift) + rest) == Some((id, metadata, gift))
  {
    SizedTaken(id, Sized(metadata) + (Sized(gift) + rest));
    SizedTaken(metadata, Sized(gift) + rest);
    SizedTaken(gift, rest);
    hide TakeSized, Sized;
    TailParts([|id|] + id, Sized(metadata), Sized(gift), rest);
  }

  lemma TailParts(a: seq<Byte>, b: seq<Byte>, c: seq<Byte>, rest: seq<Byte>)
    ensures a + b + c + rest == a + (b + (c + rest))
  {
  }

  /** Where the parts of a written yield record stand. */
  lemma YieldParts(tag: Byte, hash: seq<Byte>, amount: seq<Byte>, term: seq<Byte>, code: Byte, tail: seq<Byte>, rest: seq<Byte>)
    requires |hash| == 32 && |amount| == 8 && |term| == 4
    ensures var s := [tag] + (hash + amount) + (term + [code]) + tail + rest;
            |s| >= 46 && s[0] == tag && s[1..33] == hash && s[41..45] == term && s[45] == code && s[46..] == tail + rest
  {
  }

  /** A yield record that stands first in an extra field is read back without its amount, if and only if its texts have fewer
      than 256 bytes each. */
  lemma YieldReadIff(hash: seq<Byte>, amount: nat, term: nat, code: Byte, id: seq<Byte>, metadata: seq<Byte>, gift: seq<Byte>, rest: seq<Byte>)
    requires |hash| == 32 && term < Pow(256, 4)
    ensures ReadYield(YieldWritten(hash, amount, term, code, id, metadata, gift) + rest) == Some(YieldCommitment(hash, term, code, id, metadata, gift))
            <==> |id| < 256 && |metadata| < 256 && |gift| < 256
  {
    hide YieldTail, ReadTexts, LeBytes, Le, Pow;
    YieldParts(YieldTag, hash, LeBytes(amount, 8), LeBytes(term, 4), code, YieldTail(id, metadata, gift), rest);
    LeRoundTrip(term, 4);
    if |id| < 256 && |metadata| < 256 && |gift| < 256 {
      TextsTaken(id, metadata, gift, rest);
    } else {
      TextSizes(YieldTail(id, metadata, gift) + rest);
    }
  }

  /** Only texts of fewer than 256 bytes are ever read. */
  lemma TextSizes(s: seq<Byte>)
    ensures match ReadTexts(s) case None => true case Some((id, m, g)) => |id| < 256 && |m| < 256 && |g| < 256
  {
  }

  /** Behind anything but another yield record it is not found. */
  lemma YieldHidden(extra: seq<Byte>, record: seq<Byte>)
    requires extra != [] && extra[0] != YieldTag
    ensures ReadYield(extra + record) == None
  {
  }

  /** A heat record is read back from behind bytes none of which is its tag. */
  lemma HeatRead(extra: seq<Byte>, hash: seq<Byte>, amount: nat, metadata: seq<Byte>, rest: seq<Byte>)
    requires HeatTag !in extra && |hash| == 32 && amount < Limit && |metadata| < 256
    ensures ReadHeat(extra + HeatWritten(hash, amount, metadata) + rest) == Some(HeatCommitment(hash, amount, metadata))
  {
    hide LeBytes, Le, Pow, Sized, TakeSized;
    var s := extra + HeatWritten(hash, amount, metadata) + rest;
    assert s[|extra|] == HeatTag && forall j :: 0 <= j < |extra| ==> s[j] == extra[j];
    assert TagAt(s) == |extra|;
    SizedTaken(metadata, rest);
    LeRoundTrip(amount, 8);
    HeatBehind(extra, hash, LeBytes(amount, 8), Sized(metadata), rest);
  }

  lemma HeatBehind(extra: seq<Byte>, hash: seq<Byte>, amount: seq<Byte>, m: seq<Byte>, rest: seq<Byte>)
    requires |hash| == 32 && |amount| == 8
    ensures var s := (extra + ([HeatTag] + (hash + amount) + m) + rest)[|extra| + 1..];
            |s| >= 40 && s[..32] == hash && s[32..40] == amount && s[40..] == m + rest
  {
    var s := extra + ([HeatTag] + (hash + amount) + m) + rest;
    assert s == extra + [HeatTag] + (hash + amount + (m + rest));
    assert s[|extra| + 1..] == hash + amount + (m + rest);
  }

  /** A hash of a record that is not read back from behind bytes one of which is its tag. */
  function Unread(extra: seq<Byte>): (hash: seq<Byte>)
    ensures |hash| == 32
  {
    var i := TagAt(extra) + 1;
    seq(32, k requires 0 <= k < 32 => if i + k < |extra| then (if extra[i + k] == 0 then 1 else 0) else 0)
  }

  lemma HeatMissed(extra: seq<Byte>, s: seq<Byte>)
    requires HeatTag in extra && extra + ([HeatTag] + Unread(extra)) <= s
    ensures ReadHeat(s).Some? ==> ReadHeat(s).value.hash != Unread(extra)
  {
    hide Le, TakeSized;
    var hash, i := Unread(extra), TagAt(extra) + 1;
    assert forall j :: 0 <= j < |extra| ==> s[j] == extra[j];
    assert TagAt(s) == i - 1;
    assert s[|extra|] == HeatTag by {
      assert (extra + ([HeatTag] + hash))[|extra|] == HeatTag;
    }
    if |s[i..]| >= 32 {
      var k := if |extra| - i < 32 then |extra| - i else 0;
      assert s[i..][..32][k] == s[i + k];
      assert s[i + k] != hash[k];
    }
  }

  /** All heat records are read back from behind some bytes if and only if none of these is the tag. */
  lemma HeatReadIff(extra: seq<Byte>)
    ensures (forall hash: seq<Byte>, amount: nat, metadata: seq<Byte> | |hash| == 32 && amount < Limit && |metadata| < 256 ::
               ReadHeat(extra + HeatWritten(hash, amount, metadata)) == Some(HeatCommitment(hash, amount, metadata)))
            <==> HeatTag !in extra
  {
    hide ReadHeat, HeatWritten, Unread, Pow;
    if HeatTag !in extra {
      forall hash: seq<Byte>, amount: nat, metadata: seq<Byte> | |hash| == 32 && amount < Limit && |metadata| < 256
        ensures ReadHeat(extra + HeatWritten(hash, amount, metadata)) == Some(HeatCommitment(hash, amount, metadata))
      {
        HeatRead(extra, hash, amount, metadata, []);
        assert extra + HeatWritten(hash, amount, metadata) + [] == extra + HeatWritten(hash, amount, metadata);
      }
    } else {
      var hash := Unread(extra);
      LimitPositive();
      WrittenFront(extra, hash);
      HeatMissed(extra, extra + HeatWritten(hash, 0, []));
      assert ReadHeat(extra + HeatWritten(hash, 0, [])) != Some(HeatCommitment(hash, 0, []));
    }
  }

  lemma WrittenFront(extra: seq<Byte>, hash: seq<Byte>)
    ensures extra + ([HeatTag] + hash) <= extra + HeatWritten(hash, 0, [])
  {
    var m := LeBytes(0, 8) + Sized([]);
    assert extra + HeatWritten(hash, 0, []) == extra + ([HeatTag] + hash) + m;
  }
}
