/** Characters and numbers of HTTP messages. */
module HttpText {
  import opened ByteStrings

  const CR: Byte := 13
  const LF: Byte := 10
  const Colon: Byte := 58

  const Word: nat := 0x1_0000_0000

  const Crlf: seq<Byte> := [13, 10]

  predicate IsHex(c: Byte) {
    48 <= c <= 57 || 97 <= c <= 102 || 65 <= c <= 70
  }

  function HexDigit(c: Byte): (v: nat)
    requires IsHex(c)
  {
    if c <= 57 then c - 48 else if c <= 70 then c - 65 + 10 else c - 97 + 10
  }

  predicate AllHex(s: seq<Byte>) {
    forall i :: 0 <= i < |s| ==> IsHex(s[i])
  }

  /** The number that hexadecimal digits spell. */
  function Hex(s: seq<Byte>): (v: nat)
    requires AllHex(s)
  {
    if s == [] then 0 else Hex(s[..|s| - 1]) * 16 + HexDigit(s[|s| - 1])
  }

  lemma {:induction false} HexPrefix(s: seq<Byte>, i: nat)
    requires AllHex(s) && i <= |s|
    ensures Hex(s[..i]) <= Hex(s)
    decreases |s|
  {
    if i < |s| {
      HexPrefix(s[..|s| - 1], i);
      assert s[..|s| - 1][..i] == s[..i];
    } else {
      assert s[..i] == s;
    }
  }

  /** A digit as it is written, with a small or with a capital letter. */
  function HexCode(d: nat, capital: bool): (c: Byte)
    requires d < 16
  {
    if capital then "0123456789ABCDEF"[d] as int else "0123456789abcdef"[d] as int
  }

  /** A number as it is written in hexadecimal. */
  function HexText(n: nat, capital: bool): (s: seq<Byte>) {
    if n < 16 then [HexCode(n, capital)] else HexText(n / 16, capital) + [HexCode(n % 16, capital)]
  }

  lemma HexCodes(d: nat, capital: bool)
    requires d < 16
    ensures IsHex(HexCode(d, capital)) && HexDigit(HexCode(d, capital)) == d
  {
    var s, t := "0123456789abcdef", "0123456789ABCDEF";
    assert s[0] == '0' && s[1] == '1' && s[2] == '2' && s[3] == '3' && s[4] == '4' && s[5] == '5' && s[6] == '6' && s[7] == '7';
    assert s[8] == '8' && s[9] == '9' && s[10] == 'a' && s[11] == 'b' && s[12] == 'c' && s[13] == 'd' && s[14] == 'e' && s[15] == 'f';
    assert t[0] == '0' && t[1] == '1' && t[2] == '2' && t[3] == '3' && t[4] == '4' && t[5] == '5' && t[6] == '6' && t[7] == '7';
    assert t[8] == '8' && t[9] == '9' && t[10] == 'A' && t[11] == 'B' && t[12] == 'C' && t[13] == 'D' && t[14] == 'E' && t[15] == 'F';
  }

  /** And nothing else is a digit. */
  lemma HexOnly(c: Byte)
    requires IsHex(c)
    ensures HexDigit(c) < 16 && (c == HexCode(HexDigit(c), false) || c == HexCode(HexDigit(c), true))
  {
    HexCodes(HexDigit(c), c < 97);
  }

  /** Every number is read back from what is written for it. */
  lemma {:induction false} HexReads(n: nat, capital: bool)
    ensures AllHex(HexText(n, capital)) && Hex(HexText(n, capital)) == n
    decreases n
  {
    hide HexCode, IsHex, HexDigit;
    var c := HexCode(n % 16, capital);
    HexCodes(n % 16, capital);
    if n < 16 {
      HexMore([], c);
      assert [] + [c] == [c];
    } else {
      HexReads(n / 16, capital);
      HexMore(HexText(n / 16, capital), c);
    }
  }

  lemma HexMore(s: seq<Byte>, c: Byte)
    requires AllHex(s) && IsHex(c)
    ensures AllHex(s + [c]) && Hex(s + [c]) == Hex(s) * 16 + HexDigit(c)
  {
    hide IsHex, HexDigit;
    assert (s + [c])[..|s|] == s;
  }

  /** What is written is no longer than it must be. */
  lemma {:induction false} HexShort(n: nat, k: nat, capital: bool)
    requires k > 0 && n < Pow(16, k)
    ensures 1 <= |HexText(n, capital)| <= k
    decreases k
  {
    if n >= 16 {
      HexShort(n / 16, k - 1, capital);
    }
  }

  /** Small and capital letters say the same. */
  lemma {:induction false} HexLetters(s: seq<Byte>, t: seq<Byte>)
    requires AllHex(s) && |t| == |s| && forall k :: 0 <= k < |s| ==> t[k] == s[k] || (97 <= s[k] <= 102 && t[k] == s[k] - 32)
    ensures AllHex(t) && Hex(t) == Hex(s)
    decreases |s|
  {
    if s != [] {
      var j := |s| - 1;
      HexLetters(s[..j], t[..j]);
      assert forall k :: 0 <= k < j ==> t[k] == t[..j][k];
    }
  }
}
