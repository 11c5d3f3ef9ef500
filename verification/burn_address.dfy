/** Which texts in the metadata of a burn are addresses. */
module BurnAddress {
  import opened ByteStrings
  import opened BurnFormat

  /** A character; a small letter may also be a capital one. */
  predicate Is(b: Byte, c: char) {
    b == c as int || ('a' <= c <= 'z' && b == c as int - 32)
  }

  predicate Spells(s: seq<Byte>, text: string) {
    |s| == |text| && forall k :: 0 <= k < |s| ==> Is(s[k], text[k])
  }

  /** The value of a hexadecimal digit, small or capital. */
  function Value(b: Byte): (v: nat)
    requires HexDigit(b)
    ensures v < 16
  {
    if b <= '9' as int then b - '0' as int else if b <= 'F' as int then b - 'A' as int + 10 else b - 'a' as int + 10
  }

  lemma DigitIs(b: Byte)
    requires HexDigit(b)
    ensures Is(b, Digits[Value(b)])
  {
    DigitsDistinct(Value(b));
  }

  lemma IsDigit(b: Byte, d: nat)
    requires d < 16 && Is(b, Digits[d])
    ensures HexDigit(b)
  {
    assert Digits[0] == '0' && Digits[1] == '1' && Digits[2] == '2' && Digits[3] == '3' && Digits[4] == '4' && Digits[5] == '5';
    assert Digits[6] == '6' && Digits[7] == '7' && Digits[8] == '8' && Digits[9] == '9' && Digits[10] == 'a' && Digits[11] == 'b';
    assert Digits[12] == 'c' && Digits[13] == 'd' && Digits[14] == 'e' && Digits[15] == 'f';
  }

  predicate AllDigits(s: seq<Byte>) {
    forall k :: 0 <= k < |s| ==> HexDigit(s[k])
  }

  /** The bytes that pairs of digits stand for. */
  function Account(s: seq<Byte>): (a: seq<Byte>)
    requires |s| % 2 == 0 && AllDigits(s)
    ensures |a| == |s| / 2
  {
    if s == [] then [] else var b: nat := 16 * Value(s[0]) + Value(s[1]); [b] + Account(s[2..])
  }

  /** Every even number of digits is the text of some bytes. */
  lemma {:induction false} AccountSpelt(s: seq<Byte>)
    requires |s| % 2 == 0 && AllDigits(s)
    ensures Spells(s, ToHex(Account(s)))
  {
    if s != [] {
      var a := Account(s);
      AccountSpelt(s[2..]);
      assert a[1..] == Account(s[2..]) && a[0] / 16 == Value(s[0]) && a[0] % 16 == Value(s[1]);
      DigitIs(s[0]);
      DigitIs(s[1]);
      SpellsMore(s, a);
    }
  }

  lemma SpellsMore(s: seq<Byte>, a: seq<Byte>)
    requires |s| >= 2 && a != []
    ensures Spells(s, ToHex(a)) <==> Is(s[0], Digits[a[0] / 16]) && Is(s[1], Digits[a[0] % 16]) && Spells(s[2..], ToHex(a[1..]))
  {
    hide Is;
    var t := ToHex(a);
    assert t == [Digits[a[0] / 16], Digits[a[0] % 16]] + ToHex(a[1..]);
    hide ToHex;
    assert t[0] == Digits[a[0] / 16] && t[1] == Digits[a[0] % 16] && t[2..] == ToHex(a[1..]);
    if Spells(s[2..], t[2..]) {
      assert forall k :: 2 <= k < |s| ==> s[k] == s[2..][k - 2] && t[k] == t[2..][k - 2];
    }
  }

  /** And the text of bytes is made of digits. */
  lemma {:induction false} SpeltDigits(s: seq<Byte>, a: seq<Byte>)
    requires Spells(s, ToHex(a))
    ensures AllDigits(s)
    decreases |a|
  {
    hide Is, HexDigit, ToHex, Spells;
    SpeltSize(s, a);
    if a != [] {
      SpellsMore(s, a);
      SpeltDigits(s[2..], a[1..]);
      IsDigit(s[0], a[0] / 16);
      IsDigit(s[1], a[0] % 16);
      assert forall k :: 2 <= k < |s| ==> s[k] == s[2..][k - 2];
    }
  }

  lemma SpeltSize(s: seq<Byte>, a: seq<Byte>)
    requires Spells(s, ToHex(a))
    ensures |s| == 2 * |a|
  {
  }

  /** An address is `0x` and the hexadecimal text of twenty bytes, in small and capital letters. */
  lemma AddressIff(s: seq<Byte>, i: nat)
    requires i + 42 <= |s|
    ensures AddressAt(s, i) <==> s[i..i + 2] == [48, 120] && exists a: seq<Byte> :: |a| == 20 && Spells(s[i + 2..i + 42], ToHex(a))
  {
    hide *;
    ZeroX(s, i);
    if AddressAt(s, i) {
      AddressSpelt(s, i);
    }
    if a: seq<Byte> :| |a| == 20 && Spells(s[i + 2..i + 42], ToHex(a)) {
      SpeltDigits(s[i + 2..i + 42], a);
      DigitsBehind(s, i);
    }
  }

  lemma ZeroX(s: seq<Byte>, i: nat)
    requires i + 42 <= |s|
    ensures s[i..i + 2] == [48, 120] <==> s[i] == 48 && s[i + 1] == 120
    ensures AddressAt(s, i) ==> s[i] == 48 && s[i + 1] == 120
  {
    hide HexDigit;
    var t := s[i..i + 2];
    assert t[0] == s[i] && t[1] == s[i + 1];
  }

  lemma AddressSpelt(s: seq<Byte>, i: nat)
    requires AddressAt(s, i)
    ensures exists a: seq<Byte> :: |a| == 20 && Spells(s[i + 2..i + 42], ToHex(a))
  {
    hide ToHex, Spells, HexDigit;
    var t := s[i + 2..i + 42];
    assert forall k :: 0 <= k < 40 ==> t[k] == s[i + 2 + k];
    AccountSpelt(t);
    assert |Account(t)| == 20;
  }

  lemma DigitsBehind(s: seq<Byte>, i: nat)
    requires i + 42 <= |s| && AllDigits(s[i + 2..i + 42])
    ensures s[i] == 48 && s[i + 1] == 120 ==> AddressAt(s, i)
  {
    hide HexDigit;
    var t := s[i + 2..i + 42];
    assert forall j :: i + 2 <= j < i + 42 ==> s[j] == t[j - i - 2];
  }
}
