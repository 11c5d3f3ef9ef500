/** Bytes, little-endian numbers and their hexadecimal text. */
module ByteStrings {
  type Byte = b: nat | b < 256

  /** The bytes of several reads together. */
  function Concat(chunks: seq<seq<Byte>>): (s: seq<Byte>) {
    if chunks == [] then [] else chunks[0] + Concat(chunks[1..])
  }

  function Pow(base: nat, n: nat): (r: nat)
    ensures base > 0 ==> r > 0
  {
    if n == 0 then 1 else base * Pow(base, n - 1)
  }

  /** The number that little-endian digits spell. */
  function Le(s: seq<Byte>): (r: nat) {
    if s == [] then 0 else s[0] + 256 * Le(s[1..])
  }

  /** The lowest `k` digits of a number. */
  function LeBytes(n: nat, k: nat): (s: seq<Byte>)
    ensures |s| == k
  {
    if k == 0 then [] else [n % 256] + LeBytes(n / 256, k - 1)
  }

  lemma {:induction false} LeAppend(s: seq<Byte>, b: Byte)
    ensures Le(s + [b]) == Le(s) + b * Pow(256, |s|)
  {
    if s != [] {
      assert (s + [b])[1..] == s[1..] + [b];
      LeAppend(s[1..], b);
      calc {
        256 * (b * Pow(256, |s| - 1));
        b * (256 * Pow(256, |s| - 1));
        b * Pow(256, |s|);
      }
    } else {
      assert (s + [b])[1..] == [];
    }
  }

  /** What is left of a number after its lowest `k` digits. */
  function Shifted(n: nat, k: nat): (r: nat) {
    if k == 0 then n else Shifted(n / 256, k - 1)
  }

  /** Digits written one after another, each from what is left of the number. */
  lemma {:induction false} LeBytesAppend(n: nat, k: nat)
    ensures LeBytes(n, k + 1) == LeBytes(n, k) + [Shifted(n, k) % 256]
    ensures Shifted(n, k + 1) == Shifted(n, k) / 256
  {
    if k > 0 {
      LeBytesAppend(n / 256, k - 1);
    }
  }

  /** Reading back the digits of a number that has no more of them. */
  lemma {:induction false} LeRoundTrip(n: nat, k: nat)
    requires n < Pow(256, k)
    ensures Le(LeBytes(n, k)) == n
  {
    if k > 0 {
      assert n / 256 < Pow(256, k - 1);
      LeRoundTrip(n / 256, k - 1);
    }
  }

  lemma {:induction false} LeBound(s: seq<Byte>)
    ensures Le(s) < Pow(256, |s|)
  {
    if s != [] {
      LeBound(s[1..]);
    }
  }

  /** Writing digits that have been read gives the digits back. */
  lemma {:induction false} LeReverse(s: seq<Byte>)
    ensures LeBytes(Le(s), |s|) == s
  {
    if s != [] {
      LeReverse(s[1..]);
      assert Le(s) % 256 == s[0] && Le(s) / 256 == Le(s[1..]);
    }
  }

  const Digits: string := "0123456789abcdef"

  /** `toHex` */
  function ToHex(s: seq<Byte>): (text: string)
    ensures |text| == 2 * |s|
  {
    if s == [] then "" else [Digits[s[0] / 16], Digits[s[0] % 16]] + ToHex(s[1..])
  }

  function DigitValue(c: char): (v: int) {
    if c <= '9' then c as int - '0' as int else c as int - 'a' as int + 10
  }

  lemma DigitsDistinct(i: nat)
    requires i < 16
    ensures DigitValue(Digits[i]) == i
  {
    assert Digits[0] == '0' && Digits[1] == '1' && Digits[2] == '2' && Digits[3] == '3' && Digits[4] == '4' && Digits[5] == '5';
    assert Digits[6] == '6' && Digits[7] == '7' && Digits[8] == '8' && Digits[9] == '9' && Digits[10] == 'a' && Digits[11] == 'b';
    assert Digits[12] == 'c' && Digits[13] == 'd' && Digits[14] == 'e' && Digits[15] == 'f';
  }

  /** The text determines the bytes. */
  lemma {:induction false} HexInjective(s: seq<Byte>, t: seq<Byte>)
    requires ToHex(s) == ToHex(t)
    ensures s == t
  {
    hide ToHex, DigitValue;
    if s != [] && t != [] {
      HexFirst(s);
      HexFirst(t);
      HexInjective(s[1..], t[1..]);
      assert s == [s[0]] + s[1..] && t == [t[0]] + t[1..];
    }
  }

  lemma HexFirst(s: seq<Byte>)
    requires s != []
    ensures s[0] == 16 * DigitValue(ToHex(s)[0]) + DigitValue(ToHex(s)[1]) && ToHex(s)[2..] == ToHex(s[1..])
  {
    DigitsDistinct(s[0] / 16);
    DigitsDistinct(s[0] % 16);
  }

  method HexOf(s: seq<Byte>) returns (text: string)
    ensures text == ToHex(s)
  {
    text := "";
    for i := 0 to |s|
      invariant text == ToHex(s[..i])
    {
      HexAppend(s[..i], s[i]);
      assert s[..i + 1] == s[..i] + [s[i]];
      text := text + [Digits[s[i] / 16]];
      text := text + [Digits[s[i] % 16]];
    }
    assert s[..|s|] == s;
  }

  lemma {:induction false} HexAppend(s: seq<Byte>, b: Byte)
    ensures ToHex(s + [b]) == ToHex(s) + [Digits[b / 16]] + [Digits[b % 16]]
  {
    if s != [] {
      assert (s + [b])[1..] == s[1..] + [b];
      HexAppend(s[1..], b);
    }
  }
}
