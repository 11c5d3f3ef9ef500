/** Extra fields as text: what may stand in front of a burn record, and the records themselves. */
module BurnRecords {
  import opened ByteStrings
  import opened Options
  import opened BurnFormat

  /** A field that the walk skips: a byte of padding, or a tag with a length and that many bytes. */
  datatype Field = Pad | Skip(tag: Byte, length: seq<Byte>, payload: seq<Byte>)

  /** The number that groups of seven bits spell, lowest group first. */
  function Groups(b: seq<Byte>): (v: nat) {
    if b == [] then 0 else b[0] % 128 + 128 * Groups(b[1..])
  }

  /** One to five bytes, all but the last with the high bit set, that spell a number below 2^31. */
  predicate LengthBytes(b: seq<Byte>, v: nat) {
    && 1 <= |b| <= 5 && b[|b| - 1] < 128 && (forall i :: 0 <= i < |b| - 1 ==> b[i] >= 128)
    && Groups(b) == v && (|b| == 5 ==> b[4] < 8)
  }

  predicate FieldOk(f: Field) {
    f.Skip? ==> f.tag != 0 && f.tag != 7 && f.tag != 8 && LengthBytes(f.length, |f.payload|)
  }

  function FieldBytes(f: Field): (s: seq<Byte>) {
    if f.Pad? then [0] else [f.tag] + f.length + f.payload
  }

  function FieldsBytes(fs: seq<Field>): (s: seq<Byte>) {
    if fs == [] then [] else FieldBytes(fs[0]) + FieldsBytes(fs[1..])
  }

  predicate FieldsOk(fs: seq<Field>) {
    forall i :: 0 <= i < |fs| ==> FieldOk(fs[i])
  }

  datatype Record =
    | HeatRecord(hash: seq<Byte>, amount: nat, metadata: seq<Byte>)
    | YieldRecord(hash: seq<Byte>, amount: nat, term: seq<Byte>, scheme: seq<Byte>, metadata: seq<Byte>)

  predicate RecordOk(r: Record) {
    && |r.hash| == 32 && r.amount < Pow(256, 8) && |r.metadata| < 256
    && (r.YieldRecord? ==> |r.term| == 4 && |r.scheme| < 256)
  }

  function RecordBytes(r: Record): (s: seq<Byte>)
    requires RecordOk(r)
  {
    if r.HeatRecord? then
      [8] + (r.hash + LeBytes(r.amount, 8)) + ([|r.metadata|] + r.metadata)
    else
      [7] + (r.hash + LeBytes(r.amount, 8)) + (r.term + [|r.scheme|] + r.scheme) + ([|r.metadata|] + r.metadata)
  }

  /** What a record says. */
  function RecordData(r: Record): (d: BurnData) {
    BurnData(ToHex(r.hash), Some(r.amount), r.metadata, FirstAddress(r.metadata, 0), true)
  }

  // ----- lengths

  /** A well-formed length is read as the number it spells. */
  lemma {:induction false} LengthReads(b: seq<Byte>, i: nat, rest: seq<Byte>)
    requires 1 <= |b| && i + |b| <= 5 && b[|b| - 1] < 128 && (forall j :: 0 <= j < |b| - 1 ==> b[j] >= 128)
    requires i + |b| == 5 ==> b[|b| - 1] < 8
    ensures LengthOf(b + rest, i) == Len(Groups(b) * Pow(128, i), |b|)
    decreases |b|
  {
    hide Pow, LengthOf, Groups;
    var t := b + rest;
    if |b| > 1 {
      LengthReads(b[1..], i + 1, rest);
      assert t[1..] == b[1..] + rest;
      LengthMore(t, i, Groups(b[1..]) * Pow(128, i + 1), |b| - 1);
      GroupsFirst(b);
      GroupsStep(b[0] % 128, Groups(b[1..]), i);
    } else {
      GroupsFirst(b);
      LengthOne(t, i);
    }
  }

  lemma LengthMore(t: seq<Byte>, i: nat, size: nat, used: nat)
    requires i < 4 && t != [] && t[0] >= 128 && LengthOf(t[1..], i + 1) == Len(size, used)
    ensures LengthOf(t, i) == Len(t[0] % 128 * Pow(128, i) + size, used + 1)
  {
    hide Pow;
  }

  lemma LengthOne(t: seq<Byte>, i: nat)
    requires i <= 4 && t != [] && t[0] < 128 && (i == 4 ==> t[0] < 8)
    ensures LengthOf(t, i) == Len(t[0] * Pow(128, i), 1)
  {
    hide Pow;
  }

  lemma GroupsFirst(b: seq<Byte>)
    requires b != []
    ensures Groups(b) == b[0] % 128 + 128 * Groups(b[1..]) && (|b| == 1 && b[0] < 128 ==> Groups(b) == b[0])
  {
    assert |b| == 1 ==> b[1..] == [];
  }

  lemma GroupsStep(low: nat, high: nat, i: nat)
    ensures low * Pow(128, i) + high * Pow(128, i + 1) == (low + 128 * high) * Pow(128, i)
  {
  }

  /** A length that is read without running out of bytes is a well-formed one. */
  lemma {:induction false} LengthShape(t: seq<Byte>, i: nat) returns (n: nat)
    requires i <= 4 && LengthOf(t, i).Len?
    ensures LengthOf(t, i).used <= |t|
    ensures n == LengthOf(t, i).used
    ensures n < |t| ==> 1 <= n && i + n <= 5 && t[n - 1] < 128
    ensures n < |t| ==> forall j :: 0 <= j < n - 1 ==> t[j] >= 128
    ensures n < |t| && i + n == 5 ==> t[n - 1] < 8
    decreases 4 - i
  {
    n := LengthOf(t, i).used;
    if t != [] && t[0] >= 128 {
      var m := LengthShape(t[1..], i + 1);
    }
  }

  // ----- fields

  lemma LengthBytesRead(b: seq<Byte>, v: nat, rest: seq<Byte>)
    requires LengthBytes(b, v)
    ensures LengthOf(b + rest, 0) == Len(v, |b|)
  {
    LengthReads(b, 0, rest);
  }

  lemma FirstPadding(s: seq<Byte>)
    requires s != [] && s[0] == PaddingTag
    ensures First(s) == First(s[1..])
  {
  }

  lemma FirstSkip(s: seq<Byte>)
    requires s != [] && s[0] != PaddingTag && s[0] != YieldTag && s[0] != HeatTag
    ensures match LengthOf(s[1..], 0)
            case Len(size, used) => First(s) == if 1 + used + size <= |s| then First(s[1 + used + size..]) else Nothing
            case TooLong => First(s) == Nothing
            case Overflow => First(s) == Undefined
  {
  }

  lemma Behind(tag: Byte, a: seq<Byte>, b: seq<Byte>, s: seq<Byte>)
    ensures ([tag] + a + b + s)[1..] == a + (b + s) && ([tag] + a + b + s)[1 + |a| + |b|..] == s
  {
  }

  /** The walk skips a well-formed field. */
  lemma SkipField(f: Field, s: seq<Byte>)
    requires FieldOk(f)
    ensures First(FieldBytes(f) + s) == First(s)
  {
    hide First, LengthOf, LengthBytes;
    var t := FieldBytes(f) + s;
    if f.Pad? {
      FirstPadding(t);
      assert t[1..] == s;
    } else {
      FirstSkip(t);
      Behind(f.tag, f.length, f.payload, s);
      LengthBytesRead(f.length, |f.payload|, f.payload + s);
    }
  }

  lemma {:induction false} SkipFields(fs: seq<Field>, s: seq<Byte>)
    requires FieldsOk(fs)
    ensures First(FieldsBytes(fs) + s) == First(s)
  {
    if fs != [] {
      SkipFields(fs[1..], s);
      SkipField(fs[0], FieldsBytes(fs[1..]) + s);
      assert FieldsBytes(fs) + s == FieldBytes(fs[0]) + (FieldsBytes(fs[1..]) + s);
    } else {
      assert FieldsBytes(fs) + s == s;
    }
  }

  lemma FieldsCons(f: Field, fs: seq<Field>, s: seq<Byte>, n: nat, tail: seq<Byte>)
    requires FieldOk(f) && FieldsOk(fs) && n <= |s| && FieldBytes(f) == s[..n] && s[n..] == FieldsBytes(fs) + tail
    ensures FieldsOk([f] + fs) && s == FieldsBytes([f] + fs) + tail
  {
    assert ([f] + fs)[1..] == fs;
    assert s == s[..n] + s[n..];
    assert s[..n] + (FieldsBytes(fs) + tail) == s[..n] + FieldsBytes(fs) + tail;
  }

  lemma FieldsNil(s: seq<Byte>)
    ensures FieldsOk([]) && FieldsBytes([]) + s == s
  {
  }

  ghost function FoundBytes(r: Found): (s: seq<Byte>)
    requires r.Heat? || r.Yield?
  {
    [if r.Heat? then HeatTag else YieldTag] + r.rest
  }

  /** The bytes of a length in front of a payload that is there. */
  lemma LengthFound(t: seq<Byte>) returns (b: seq<Byte>, v: nat)
    requires LengthOf(t, 0).Len? && LengthOf(t, 0).used + LengthOf(t, 0).size < |t|
    ensures LengthOf(t, 0) == Len(v, |b|) && |b| + v < |t| && b == t[..|b|] && LengthBytes(b, v)
  {
    hide LengthOf, Groups;
    var m := LengthShape(t, 0);
    b := t[..m];
    v := LengthOf(t, 0).size;
    assert b + t[m..] == t;
    LengthReads(b, 0, t[m..]);
    OneGroup(Groups(b));
  }

  lemma OneGroup(n: nat)
    ensures n * Pow(128, 0) == n
  {
  }

  lemma FoundBehind(s: seq<Byte>, n: nat)
    requires n <= |s| && First(s[n..]) != Nothing
    ensures n < |s|
  {
    assert s[n..] != [];
  }

  /** The first skipped field of a sequence in which a burn tag is found. */
  lemma FieldShape(s: seq<Byte>) returns (f: Field, n: nat)
    requires s != [] && First(s) != Nothing && s[0] != HeatTag && s[0] != YieldTag
    requires s[0] == PaddingTag || LengthOf(s[1..], 0).Len?
    ensures 0 < n <= |s| && FieldOk(f) && FieldBytes(f) == s[..n] && First(s[n..]) == First(s)
  {
    hide First, LengthOf, LengthBytes;
    if s[0] == PaddingTag {
      FirstPadding(s);
      return Pad, 1;
    }
    FirstSkip(s);
    var l := LengthOf(s[1..], 0);
    n := 1 + l.used + l.size;
    FoundBehind(s, n);
    var b, v := LengthFound(s[1..]);
    f := Skip(s[0], b, s[1 + |b|..n]);
    assert FieldBytes(f) == s[..n];
  }

  lemma FirstNonempty(s: seq<Byte>)
    requires First(s).Heat? || First(s).Yield?
    ensures s != [] && (s[0] == HeatTag || s[0] == YieldTag ==> s == FoundBytes(First(s)))
  {
    if s[0] == HeatTag || s[0] == YieldTag {
      assert s == [s[0]] + s[1..];
    }
  }

  lemma {:induction false} FieldsShape(s: seq<Byte>) returns (fs: seq<Field>)
    requires First(s).Heat? || First(s).Yield?
    ensures FieldsOk(fs) && s == FieldsBytes(fs) + FoundBytes(First(s))
    decreases |s|
  {
    hide First, FieldBytes, FieldOk, FieldsOk, FieldsBytes, FoundBytes, LengthOf;
    FirstNonempty(s);
    if s[0] == HeatTag || s[0] == YieldTag {
      FieldsNil(s);
      return [];
    }
    if s[0] != PaddingTag {
      FirstSkip(s);
    }
    var f, n := FieldShape(s);
    var more := FieldsShape(s[n..]);
    fs := [f] + more;
    FieldsCons(f, more, s, n, FoundBytes(First(s)));
  }

  // ----- records

  lemma StartReads(hash: seq<Byte>, amount: nat, rest: seq<Byte>)
    requires |hash| == 32 && amount < Pow(256, 8)
    ensures Start(hash + LeBytes(amount, 8) + rest) == Blank.(hash := ToHex(hash), amount := Some(amount))
  {
    var t := hash + LeBytes(amount, 8) + rest;
    assert t[..32] == hash && t[32..40] == LeBytes(amount, 8);
    LeRoundTrip(amount, 8);
  }

  lemma FinishReads(d: BurnData, m: seq<Byte>, rest: seq<Byte>)
    requires |m| < 256 && d.metadata == [] && d.address == []
    ensures Finish(d, [|m|] + m + rest) == d.(metadata := m, address := FirstAddress(m, 0), valid := true)
  {
    var t := [|m|] + m + rest;
    assert t[1..1 + |m|] == m;
  }

  lemma HeatReads(r: Record, rest: seq<Byte>)
    requires r.HeatRecord? && RecordOk(r)
    ensures HeatData(RecordBytes(r)[1..] + rest) == RecordData(r)
  {
    var end := [|r.metadata|] + r.metadata + rest;
    var t := RecordBytes(r)[1..] + rest;
    assert t == r.hash + LeBytes(r.amount, 8) + end;
    StartReads(r.hash, r.amount, end);
    assert t[40..] == end;
    FinishReads(Start(t), r.metadata, rest);
  }

  lemma YieldReads(r: Record, rest: seq<Byte>)
    requires r.YieldRecord? && RecordOk(r)
    ensures YieldData(RecordBytes(r)[1..] + rest) == RecordData(r)
  {
    var end := [|r.metadata|] + r.metadata + rest;
    var middle := r.term + [|r.scheme|] + r.scheme;
    var t := RecordBytes(r)[1..] + rest;
    assert t == r.hash + LeBytes(r.amount, 8) + (middle + end);
    StartReads(r.hash, r.amount, middle + end);
    assert t[44] == |r.scheme|;
    assert t[45 + |r.scheme|..] == end;
    FinishReads(Start(t), r.metadata, rest);
  }

  lemma RecordTag(r: Record, rest: seq<Byte>)
    requires RecordOk(r)
    ensures First(RecordBytes(r) + rest) == if r.HeatRecord? then Heat(RecordBytes(r)[1..] + rest) else Yield(RecordBytes(r)[1..] + rest)
  {
    var s := RecordBytes(r) + rest;
    assert s[1..] == RecordBytes(r)[1..] + rest;
  }

  lemma ParseFound(s: seq<Byte>)
    ensures First(s).Heat? ==> Parse(s) == Parsed(HeatData(First(s).rest))
    ensures First(s).Yield? ==> Parse(s) == Parsed(YieldData(First(s).rest))
  {
    hide First, HeatData, YieldData;
  }

  /** Behind any skipped fields, with anything behind it, a record is read as it was written. */
  lemma RoundTrip(fs: seq<Field>, r: Record, rest: seq<Byte>)
    requires FieldsOk(fs) && RecordOk(r)
    ensures Parse(FieldsBytes(fs) + RecordBytes(r) + rest) == Parsed(RecordData(r))
  {
    hide *;
    RecordTag(r, rest);
    SkipFields(fs, RecordBytes(r) + rest);
    assert FieldsBytes(fs) + RecordBytes(r) + rest == FieldsBytes(fs) + (RecordBytes(r) + rest);
    ParseFound(FieldsBytes(fs) + RecordBytes(r) + rest);
    if r.HeatRecord? {
      HeatReads(r, rest);
    } else {
      YieldReads(r, rest);
    }
  }

  // ----- and back

  lemma FinishShape(d: BurnData, t: seq<Byte>) returns (m: seq<Byte>, rest: seq<Byte>)
    requires !d.valid && d.metadata == [] && d.address == [] && Finish(d, t).valid
    ensures |m| < 256 && t == [|m|] + m + rest && Finish(d, t) == d.(metadata := m, address := FirstAddress(m, 0), valid := true)
  {
    m, rest := t[1..1 + t[0]], t[1 + t[0]..];
    assert t == [|m|] + m + rest;
    FinishReads(d, m, rest);
  }

  lemma StartShape(t: seq<Byte>) returns (amount: nat)
    requires |t| >= 40
    ensures amount < Pow(256, 8) && t[..40] == t[..32] + LeBytes(amount, 8)
    ensures Start(t) == Blank.(hash := ToHex(t[..32]), amount := Some(amount))
  {
    amount := Le(t[32..40]);
    LeBound(t[32..40]);
    LeReverse(t[32..40]);
    assert t[..40] == t[..32] + t[32..40];
  }

  lemma HeatShape(t: seq<Byte>) returns (r: Record, rest: seq<Byte>)
    requires HeatData(t).valid
    ensures r.HeatRecord? && RecordOk(r) && [HeatTag] + t == RecordBytes(r) + rest && HeatData(t) == RecordData(r)
  {
    assert |t| >= 40 && HeatData(t) == Finish(Start(t), t[40..]);
    hide Start, Finish, HeatData, LeBytes, FirstAddress, ToHex;
    var amount := StartShape(t);
    var m;
    m, rest := FinishShape(Start(t), t[40..]);
    r := HeatRecord(t[..32], amount, m);
    Regroup([HeatTag], t[..40], [], [|m|] + m, rest);
    assert t == t[..40] + t[40..];
  }

  /** Concatenation in two groupings. */
  lemma Regroup(tag: seq<Byte>, a: seq<Byte>, b: seq<Byte>, c: seq<Byte>, rest: seq<Byte>)
    ensures tag + (a + (b + (c + rest))) == tag + a + b + c + rest
    ensures tag + (a + (c + rest)) == tag + a + c + rest
  {
  }

  lemma SchemeBytes(t: seq<Byte>, n: nat)
    requires 45 <= n <= |t|
    ensures t[40..44] + [t[44]] + t[45..n] == t[40..n] && t == t[..40] + (t[40..n] + t[n..]) && |t[45..n]| == n - 45
  {
  }

  lemma YieldShape(t: seq<Byte>) returns (r: Record, rest: seq<Byte>)
    requires YieldData(t).valid
    ensures r.YieldRecord? && RecordOk(r) && [YieldTag] + t == RecordBytes(r) + rest && YieldData(t) == RecordData(r)
  {
    assert |t| >= 45 && 45 + t[44] <= |t| && YieldData(t) == Finish(Start(t), t[45 + t[44]..]);
    hide Start, Finish, YieldData, LeBytes, FirstAddress, ToHex;
    var amount := StartShape(t);
    var k: nat := t[44];
    var n := 45 + k;
    var m;
    m, rest := FinishShape(Start(t), t[n..]);
    r := YieldRecord(t[..32], amount, t[40..44], t[45..n], m);
    SchemeBytes(t, n);
    Regroup([YieldTag], t[..40], t[40..n], [|m|] + m, rest);
  }

  /** A result is valid only for a complete record behind fields that can be skipped, and says what the record says. */
  lemma OnlyRecords(s: seq<Byte>) returns (fs: seq<Field>, r: Record, rest: seq<Byte>)
    requires Parse(s).Parsed? && Parse(s).data.valid
    ensures FieldsOk(fs) && RecordOk(r) && s == FieldsBytes(fs) + RecordBytes(r) + rest && Parse(s).data == RecordData(r)
  {
    hide First, HeatData, YieldData, FieldsBytes, FieldsOk, RecordOk, RecordBytes, RecordData;
    fs := FieldsShape(s);
    var found := First(s);
    if found.Heat? {
      r, rest := HeatShape(found.rest);
    } else {
      r, rest := YieldShape(found.rest);
    }
    assert FieldsBytes(fs) + (RecordBytes(r) + rest) == FieldsBytes(fs) + RecordBytes(r) + rest;
  }

  /** The extra fields that hold a burn record. */
  ghost predicate Holds(s: seq<Byte>) {
    exists fs: seq<Field>, r: Record, rest: seq<Byte> :: FieldsOk(fs) && RecordOk(r) && s == FieldsBytes(fs) + RecordBytes(r) + rest
  }

  /** Valid if and only if the first burn tag that skipping fields reaches is followed by a complete record. */
  lemma ValidIff(s: seq<Byte>)
    ensures Parse(s).Parsed? && Parse(s).data.valid <==> Holds(s)
  {
    if Parse(s).Parsed? && Parse(s).data.valid {
      var fs, r, rest := OnlyRecords(s);
    }
    if Holds(s) {
      var fs: seq<Field>, r: Record, rest: seq<Byte> :| FieldsOk(fs) && RecordOk(r) && s == FieldsBytes(fs) + RecordBytes(r) + rest;
      RoundTrip(fs, r, rest);
    }
  }

  // ----- lengths that do not fit

  /** Five bytes of a length, of which the last adds 2^31 or more. */
  predicate Oversized(b: seq<Byte>) {
    |b| == 5 && (forall i :: 0 <= i < 4 ==> b[i] >= 128) && b[4] % 128 >= 8
  }

  lemma {:induction false} OversizedReads(b: seq<Byte>, i: nat, rest: seq<Byte>)
    requires i <= 4 && |b| == 5 - i && (forall j :: 0 <= j < 4 - i ==> b[j] >= 128) && b[4 - i] % 128 >= 8
    ensures LengthOf(b + rest, i) == Overflow
    decreases 4 - i
  {
    if i < 4 {
      assert (b + rest)[1..] == b[1..] + rest;
      OversizedReads(b[1..], i + 1, rest);
    }
  }

  lemma {:induction false} OversizedShape(t: seq<Byte>, i: nat)
    requires i <= 4 && LengthOf(t, i) == Overflow
    ensures |t| >= 5 - i && (forall j :: 0 <= j < 4 - i ==> t[j] >= 128) && t[4 - i] % 128 >= 8
    decreases 4 - i
  {
    if i < 4 {
      OversizedShape(t[1..], i + 1);
    }
  }

  /** A skipped field has a length of 2^31 or more. */
  ghost predicate HoldsOversized(s: seq<Byte>) {
    exists fs: seq<Field>, tag: Byte, b: seq<Byte>, rest: seq<Byte> ::
      FieldsOk(fs) && tag != PaddingTag && tag != YieldTag && tag != HeatTag && Oversized(b) && s == FieldsBytes(fs) + ([tag] + b + rest)
  }

  lemma OversizedHere(s: seq<Byte>) returns (b: seq<Byte>, rest: seq<Byte>)
    requires s != [] && LengthOf(s[1..], 0) == Overflow
    ensures Oversized(b) && s == [s[0]] + b + rest
  {
    OversizedShape(s[1..], 0);
    b, rest := s[1..6], s[6..];
    assert forall j :: 0 <= j < 5 ==> b[j] == s[1..][j];
  }

  lemma {:induction false} UndefinedShape(s: seq<Byte>) returns (fs: seq<Field>, tag: Byte, b: seq<Byte>, rest: seq<Byte>)
    requires First(s) == Undefined
    ensures FieldsOk(fs) && tag != PaddingTag && tag != YieldTag && tag != HeatTag && Oversized(b) && s == FieldsBytes(fs) + ([tag] + b + rest)
    decreases |s|
  {
    assert s != [] && s[0] != HeatTag && s[0] != YieldTag;
    hide First, FieldBytes, FieldOk, FieldsOk, FieldsBytes, LengthOf, Oversized;
    if s[0] != PaddingTag {
      FirstSkip(s);
      if LengthOf(s[1..], 0) == Overflow {
        b, rest := OversizedHere(s);
        fs, tag := [], s[0];
        FieldsNil(s);
        return;
      }
    }
    var f, n := FieldShape(s);
    var more;
    more, tag, b, rest := UndefinedShape(s[n..]);
    fs := [f] + more;
    FieldsCons(f, more, s, n, [tag] + b + rest);
  }

  /** The parser's behaviour is left open if and only if it comes to such a field. */
  lemma UndefinedIff(s: seq<Byte>)
    ensures Parse(s) == UndefinedShift <==> HoldsOversized(s)
  {
    hide FieldsBytes, FieldsOk, LengthOf;
    if Parse(s) == UndefinedShift {
      var fs, tag, b, rest := UndefinedShape(s);
    }
    if HoldsOversized(s) {
      var fs: seq<Field>, tag: Byte, b: seq<Byte>, rest: seq<Byte> :|
        FieldsOk(fs) && tag != PaddingTag && tag != YieldTag && tag != HeatTag && Oversized(b) && s == FieldsBytes(fs) + ([tag] + b + rest);
      SkipFields(fs, [tag] + b + rest);
      OversizedReads(b, 0, rest);
      assert ([tag] + b + rest)[1..] == b + rest;
    }
  }

  /** The shortest such input: one field, whose length is 2^31. */
  lemma UndefinedExample()
    ensures Parse([1, 128, 128, 128, 128, 8]) == UndefinedShift
  {
    var s: seq<Byte> := [1, 128, 128, 128, 128, 8];
    var b: seq<Byte> := [128, 128, 128, 128, 8];
    assert FieldsOk([]) && Oversized(b) && FieldsBytes([]) + ([1] + b + []) == s;
    hide Parse, Oversized;
    UndefinedIff(s);
  }
}
