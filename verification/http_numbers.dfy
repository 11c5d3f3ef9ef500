/** What the header fields say, in the words and the numbers of the fields themselves. */
module HttpNumbers {
  import opened ByteStrings
  import opened HttpText
  import opened HttpHeaders

  // ----- numbers

  /** The decimal digits of a number. */
  function Decimal(n: nat): (s: seq<Byte>)
    ensures |s| > 0 && forall i :: 0 <= i < |s| ==> 48 <= s[i] <= 57
  {
    if n < 10 then [48 + n] else Decimal(n / 10) + [48 + n % 10]
  }

  /** Not the beginning of more digits. */
  predicate NoDigit(x: seq<Byte>) {
    x != [] ==> !(48 <= x[0] <= 57)
  }

  lemma {:induction false} NumberDecimal(n: nat, x: seq<Byte>)
    ensures Number(Decimal(n) + x, 0) == Number(x, n)
    decreases n
  {
    var d: Byte := 48 + n % 10;
    NumberDigit(d, x, n / 10);
    if n < 10 {
      assert Decimal(n) == [d] && n / 10 == 0;
    } else {
      NumberDecimal(n / 10, [d] + x);
      assert Decimal(n) + x == Decimal(n / 10) + ([d] + x);
    }
  }

  lemma NumberDigit(d: Byte, x: seq<Byte>, v: nat)
    requires 48 <= d <= 57
    ensures Number([d] + x, v) == Number(x, 10 * v + (d - 48))
  {
    assert ([d] + x)[0] == d && ([d] + x)[1..] == x;
  }

  /** `atoi` reads back every number that is written in decimal, behind white space and a sign. */
  lemma AtoiDecimal(space: seq<Byte>, n: nat, x: seq<Byte>)
    requires NoDigit(x) && forall i :: 0 <= i < |space| ==> space[i] == 32 || 9 <= space[i] <= 13
    ensures Atoi(space + (Decimal(n) + x)) == n
    ensures Atoi(space + ([43] + (Decimal(n) + x))) == n
    ensures Atoi(space + ([45] + (Decimal(n) + x))) == 0 - n
  {
    var s := Decimal(n) + x;
    AtoiSpace(space, s);
    AtoiSpace(space, [43] + s);
    AtoiSpace(space, [45] + s);
    NumberDecimal(n, x);
    assert s[0] == Decimal(n)[0];
    assert ([43] + s)[1..] == s && ([45] + s)[1..] == s;
  }

  // ----- words

  function Ascii(s: string): (b: seq<Byte>)
    requires forall i :: 0 <= i < |s| ==> s[i] < 128 as char
    ensures |b| == |s| && forall i :: 0 <= i < |s| ==> b[i] == s[i] as int
  {
    seq(|s|, i requires 0 <= i < |s| => s[i] as int)
  }

  /** The same letters, small or capital. */
  predicate SameLetters(s: seq<Byte>, word: seq<Byte>) {
    |s| == |word| && forall k :: 0 <= k < |s| ==> s[k] == word[k] || (97 <= word[k] <= 122 && s[k] == word[k] - 32)
  }

  predicate NoCapitals(word: seq<Byte>) {
    forall k :: 0 <= k < |word| ==> !(65 <= word[k] <= 90)
  }

  lemma Words()
    ensures LengthWord == Ascii("content-length") && EncodingWord == Ascii("transfer-encoding") && ChunkedWord == Ascii("chunked")
    ensures NoCapitals(LengthWord) && NoCapitals(EncodingWord) && NoCapitals(ChunkedWord)
  {
  }

  /** A name is one of the words exactly if it has its letters, in any mixture of small and capital ones. */
  lemma NamedIff(name: seq<Byte>, word: seq<Byte>)
    requires NoCapitals(word)
    ensures Named(name, word) <==> SameLetters(name, word)
    ensures StartsLike(name, word) <==> |name| >= |word| && SameLetters(name[..|word|], word)
  {
  }

  // ----- fields

  /** Field `k` is the last one taken for a length. */
  predicate LastLength(fs: seq<Field>, k: nat) {
    k < |fs| && Alike(fs[k].name, LengthWord) && forall i :: k < i < |fs| ==> !Alike(fs[i].name, LengthWord)
  }

  /** One of the fields says that the content comes in chunks. */
  predicate SaysChunked(fs: seq<Field>) {
    exists i :: 0 <= i < |fs| && Alike(fs[i].name, EncodingWord) && StartsLike(fs[i].value, ChunkedWord)
  }

  /** Field `k` is a `content-length` with the value `n`, and none behind it is taken for a length. */
  predicate DeclaresAt(fs: seq<Field>, k: nat, n: nat, x: seq<Byte>) {
    && k < |fs| && SameLetters(fs[k].name, Ascii("content-length")) && fs[k].value == Decimal(n) + x && NoDigit(x)
    && forall i :: k < i < |fs| ==> !Alike(fs[i].name, LengthWord)
  }

  ghost predicate Declares(fs: seq<Field>, n: nat) {
    exists k: nat, x :: DeclaresAt(fs, k, n, x)
  }

  /** The last length counts, and the fields before it do not matter. */
  lemma {:induction false} LengthSaid(fs: seq<Field>, j: nat, k: nat, after: seq<Byte>)
    requires LastLength(fs, k) && k < j <= |fs|
    ensures Said(fs, j, after).contentLength == Atoi(FromValue(fs, k, after))
    decreases j
  {
    hide FromValue, Alike, Said, Atoi, StartsLike;
    SaidMore(fs, j - 1, after);
    if j - 1 > k {
      LengthSaid(fs, j - 1, k, after);
    }
  }

  /** Without one there is no length. */
  lemma {:induction false} NoLength(fs: seq<Field>, j: nat, after: seq<Byte>)
    requires j <= |fs| && forall i :: 0 <= i < |fs| ==> !Alike(fs[i].name, LengthWord)
    ensures Said(fs, j, after).contentLength == -1
  {
    hide FromValue, Alike, Said, Atoi, StartsLike;
    SaidNone(fs, after);
    if j > 0 {
      NoLength(fs, j - 1, after);
      SaidMore(fs, j - 1, after);
    }
  }

  lemma ChunkedStep(fs: seq<Field>, i: nat, after: seq<Byte>)
    requires FieldsOk(fs) && i < |fs|
    ensures Said(fs, i + 1, after).chunked
            <==> Said(fs, i, after).chunked || (Alike(fs[i].name, EncodingWord) && StartsLike(fs[i].value, ChunkedWord))
  {
    hide FromValue, Said, Atoi, StartsLike, FieldsText;
    SaidMore(fs, i, after);
    StartsLine(fs[i].value, Crlf + FieldsText(fs[i + 1..]) + after);
    assert FieldOk(fs[i]);
    assert Alike(fs[i].name, LengthWord) ==> Lower(fs[i].name[0]) == 99;
    assert Alike(fs[i].name, EncodingWord) ==> Lower(fs[i].name[0]) == 116;
  }

  /** The content is taken to come in chunks exactly if one of the fields says so. */
  lemma {:induction false} ChunkedIff(fs: seq<Field>, j: nat, after: seq<Byte>)
    requires FieldsOk(fs) && j <= |fs|
    ensures Said(fs, j, after).chunked <==> SaysChunked(fs[..j])
  {
    hide FromValue, Said, Atoi, StartsLike, Alike, FieldOk;
    if j == 0 {
      SaidNone(fs, after);
    } else {
      ChunkedIff(fs, j - 1, after);
      ChunkedStep(fs, j - 1, after);
      ChunkedMore(fs, j - 1);
    }
  }

  lemma ChunkedMore(fs: seq<Field>, j: nat)
    requires j < |fs|
    ensures SaysChunked(fs[..j + 1]) <==> SaysChunked(fs[..j]) || (Alike(fs[j].name, EncodingWord) && StartsLike(fs[j].value, ChunkedWord))
  {
    hide StartsLike, Alike;
    var s, t := fs[..j], fs[..j + 1];
    assert forall i :: 0 <= i < j ==> s[i] == t[i];
    assert t[j] == fs[j];
  }

  /** The number in a `content-length` is the length of the content. */
  lemma Declared(fs: seq<Field>, n: nat, after: seq<Byte>)
    requires Declares(fs, n)
    ensures Interpret(fs, after).contentLength == n
  {
    hide Said, Atoi, FieldsText, Alike, SameLetters;
    var k: nat, x :| DeclaresAt(fs, k, n, x);
    Words();
    NamedIff(fs[k].name, LengthWord);
    LengthSaid(fs, |fs|, k, after);
    var rest := Crlf + FieldsText(fs[k + 1..]) + after;
    assert rest[0] == CR;
    assert [] + (Decimal(n) + (x + rest)) == fs[k].value + rest;
    AtoiDecimal([], n, x + rest);
  }
}
