/** Lengths coded seven bits to a byte, highest group first. */
module CodeLength {
  import opened ByteStrings

  /** The loop goes on past a byte with its high bit set only below this. */
  const Guard: nat := 0x200_0000

  const Word: nat := 0x1_0000_0000

  /** `CODELENGTH`: the code of a 32-bit number. */
  function Code(n: nat): (s: seq<Byte>)
    requires n < Word
    ensures 1 <= |s| <= 5
  {
    (if n >= 268435456 then [n / 268435456 % 128 + 128] else []) +
    (if n >= 2097152 then [n / 2097152 % 128 + 128] else []) +
    (if n >= 16384 then [n / 16384 % 128 + 128] else []) +
    (if n >= 128 then [n / 128 % 128 + 128] else []) +
    [n % 128]
  }

  /** A decoded length: its value and the number of bytes read; `done` is false when the bytes ran out. */
  datatype Decoded = Decoded(value: nat, used: nat, done: bool)

  /** Decoding goes on from the value `n` of the bytes already read. */
  function Decode(n: nat, s: seq<Byte>): (r: Decoded)
    ensures r.used <= |s| && (r.done ==> r.used > 0)
    decreases |s|
  {
    if s == [] then Decoded(n, 0, false)
    else
      var m := n * 128 + s[0] % 128;
      if s[0] >= 128 && m < Guard then
        var r := Decode(m, s[1..]);
        Decoded(r.value, r.used + 1, r.done)
      else
        Decoded(m, 1, true)
  }

  /** The accumulator never leaves the 32-bit range, on any bytes: every value it takes is one of these. */
  lemma {:induction false} NoOverflow(n: nat, s: seq<Byte>)
    requires n < Guard
    ensures Decode(n, s).value < Word
    decreases |s|
  {
    if s != [] {
      var m := n * 128 + s[0] % 128;
      if s[0] >= 128 && m < Guard {
        NoOverflow(m, s[1..]);
      }
    }
  }

  lemma DecodeStep(n: nat, b: Byte, s: seq<Byte>)
    ensures var m := n * 128 + b % 128;
            Decode(n, [b] + s) == if b >= 128 && m < Guard then Decode(m, s).(used := Decode(m, s).used + 1) else Decoded(m, 1, true)
  {
    assert ([b] + s)[1..] == s;
  }

  /** One group of a number, read behind the higher ones. */
  lemma ReadGroup(n: nat, more: bool, rest: seq<Byte>)
    requires more ==> n < Guard
    ensures Decode(n / 128, [n % 128 + if more then 128 else 0] + rest)
            == if more then Decode(n, rest).(used := Decode(n, rest).used + 1) else Decoded(n, 1, true)
  {
    hide Decode;
    var low := n % 128;
    assert n / 128 * 128 + low == n && (low + 128) % 128 == low % 128 == low;
    DecodeStep(n / 128, if more then low + 128 else low, rest);
  }

  lemma Shifts(n: nat)
    ensures n / 128 / 128 == n / 16384 && n / 16384 / 128 == n / 2097152 && n / 2097152 / 128 == n / 268435456
  {
  }

  lemma Read1(n: nat, rest: seq<Byte>)
    ensures Decode(n / 128, [n % 128] + rest) == Decoded(n, 1, true)
  {
    ReadGroup(n, false, rest);
  }

  lemma Read2(n: nat, rest: seq<Byte>)
    requires n < Word
    ensures Decode(n / 16384, [n / 128 % 128 + 128] + ([n % 128] + rest)) == Decoded(n, 2, true)
  {
    hide Decode;
    Shifts(n);
    Read1(n, rest);
    ReadGroup(n / 128, true, [n % 128] + rest);
  }

  lemma Read3(n: nat, rest: seq<Byte>)
    requires n < Word
    ensures Decode(n / 2097152, [n / 16384 % 128 + 128] + ([n / 128 % 128 + 128] + ([n % 128] + rest))) == Decoded(n, 3, true)
  {
    hide Decode;
    Shifts(n);
    Read2(n, rest);
    ReadGroup(n / 16384, true, [n / 128 % 128 + 128] + ([n % 128] + rest));
  }

  lemma Read4(n: nat, rest: seq<Byte>)
    requires n < Word
    ensures Decode(n / 268435456, [n / 2097152 % 128 + 128] + ([n / 16384 % 128 + 128] + ([n / 128 % 128 + 128] + ([n % 128] + rest))))
            == Decoded(n, 4, true)
  {
    hide Decode;
    Shifts(n);
    Read3(n, rest);
    ReadGroup(n / 2097152, true, [n / 16384 % 128 + 128] + ([n / 128 % 128 + 128] + ([n % 128] + rest)));
  }

  lemma Read5(n: nat, rest: seq<Byte>)
    requires n < Word
    ensures Decode(0, [n / 268435456 % 128 + 128] + ([n / 2097152 % 128 + 128] + ([n / 16384 % 128 + 128] + ([n / 128 % 128 + 128] + ([n % 128] + rest)))))
            == Decoded(n, 5, true)
  {
    hide Decode;
    Shifts(n);
    Read4(n, rest);
    assert n / 268435456 / 128 == 0;
    ReadGroup(n / 268435456, true, [n / 2097152 % 128 + 128] + ([n / 16384 % 128 + 128] + ([n / 128 % 128 + 128] + ([n % 128] + rest))));
  }

  lemma Nested(a: seq<Byte>, b: seq<Byte>, c: seq<Byte>, d: seq<Byte>, e: seq<Byte>, rest: seq<Byte>)
    ensures a + b + c + d + e + rest == a + (b + (c + (d + (e + rest))))
  {
  }

  /** Decoding inverts the coding of every 32-bit number, whatever follows it: the guard never stops it early. */
  lemma RoundTrip(n: nat, rest: seq<Byte>)
    requires n < Word
    ensures Decode(0, Code(n) + rest) == Decoded(n, |Code(n)|, true)
  {
    hide Decode;
    var a := if n >= 268435456 then [n / 268435456 % 128 + 128] else [];
    var b := if n >= 2097152 then [n / 2097152 % 128 + 128] else [];
    var c := if n >= 16384 then [n / 16384 % 128 + 128] else [];
    var d := if n >= 128 then [n / 128 % 128 + 128] else [];
    var e := [n % 128];
    Nested(a, b, c, d, e, rest);
    if n >= 268435456 {
      Read5(n, rest);
    } else if n >= 2097152 {
      Read4(n, rest);
    } else if n >= 16384 {
      Read3(n, rest);
    } else if n >= 128 {
      Read2(n, rest);
    } else {
      Read1(n, rest);
    }
    var s0 := e + rest;
    assert [] + s0 == s0 && [] + (d + s0) == d + s0 && [] + (c + (d + s0)) == c + (d + s0) && [] + (b + (c + (d + s0))) == b + (c + (d + s0));
  }

  // ----- the macros

  /** Writes the code of a number at `p` and returns the place behind it. */
  method CodeLengthAt(n: nat, buffer: array<Byte>, start: nat) returns (p: nat)
    requires n < Word && start + |Code(n)| <= buffer.Length
    modifies buffer
    ensures p == start + |Code(n)| && buffer[..] == old(buffer[..start]) + Code(n) + old(buffer[p..])
  {
    p := start;
    if n >= 268435456 {
      buffer[p] := n / 268435456 % 128 + 128;
      p := p + 1;
    }
    if n >= 2097152 {
      buffer[p] := n / 2097152 % 128 + 128;
      p := p + 1;
    }
    if n >= 16384 {
      buffer[p] := n / 16384 % 128 + 128;
      p := p + 1;
    }
    if n >= 128 {
      buffer[p] := n / 128 % 128 + 128;
      p := p + 1;
    }
    buffer[p] := n % 128;
    p := p + 1;
  }

  /** Decodes without a limit; there must be an end of the code somewhere. */
  method DecodeLength(buffer: seq<Byte>, start: nat) returns (n: nat, p: nat)
    requires start <= |buffer| && Decode(0, buffer[start..]).done
    ensures var r := Decode(0, buffer[start..]);
            n == r.value < Word && p == start + r.used <= |buffer|
  {
    NoOverflow(0, buffer[start..]);
    n, p := 0, start;
    ghost var r := Decode(0, buffer[start..]);
    while true
      invariant start <= p <= |buffer| && n < Guard
      invariant r == var q := Decode(n, buffer[p..]); q.(used := q.used + (p - start))
      decreases |buffer| - p
    {
      Split(buffer, p, n);
      var c := buffer[p];
      n := n * 128 + c % 128;
      p := p + 1;
      if !(c >= 128 && n < Guard) {
        break;
      }
    }
  }

  lemma Split(buffer: seq<Byte>, p: nat, n: nat)
    requires p <= |buffer|
    ensures p == |buffer| ==> Decode(n, buffer[p..]) == Decoded(n, 0, false)
    ensures p < |buffer| ==> var m, b := n * 128 + buffer[p] % 128, buffer[p];
                             Decode(n, buffer[p..]) == if b >= 128 && m < Guard
                                                       then Decode(m, buffer[p + 1..]).(used := Decode(m, buffer[p + 1..]).used + 1)
                                                       else Decoded(m, 1, true)
  {
    if p < |buffer| {
      assert buffer[p..] == [buffer[p]] + buffer[p + 1..];
      DecodeStep(n, buffer[p], buffer[p + 1..]);
    }
  }

  /** Decodes inside a limit: nothing at or behind `limit` is read, or makes a difference. */
  method DecodeLengthCheckLimit(buffer: seq<Byte>, start: nat, limit: nat) returns (n: nat, p: nat)
    requires start <= limit <= |buffer|
    ensures var r := Decode(0, buffer[start..limit]);
            n == r.value < Word && p == start + r.used <= limit
  {
    NoOverflow(0, buffer[start..limit]);
    n, p := 0, start;
    ghost var inside := buffer[..limit];
    assert inside[start..] == buffer[start..limit];
    ghost var r := Decode(0, inside[start..]);
    while true
      invariant start <= p <= limit && n < Guard
      invariant r == var q := Decode(n, inside[p..]); q.(used := q.used + (p - start))
      decreases limit - p
    {
      Split(inside, p, n);
      if p >= limit {
        break;
      }
      var c := buffer[p];
      n := n * 128 + c % 128;
      p := p + 1;
      if !(c >= 128 && n < Guard) {
        break;
      }
    }
  }
}
