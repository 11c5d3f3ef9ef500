/** What the extra field of a transaction says about a burn, as a function of its bytes. */
module BurnFormat {
  import opened ByteStrings
  import opened Options

  const PaddingTag: Byte := 0
  const YieldTag: Byte := 7
  const HeatTag: Byte := 8

  /** The amount is not initialised in the source: `None` until it has been read. */
  datatype BurnData = BurnData(hash: string, amount: Option<nat>, metadata: seq<Byte>, address: seq<Byte>, valid: bool)

  const Blank: BurnData := BurnData("", None, [], [], false)

  /** Either the parser's result, or `UndefinedShift` when the length of a skipped field does not fit the
      32-bit `int` it is accumulated in, which the language leaves open. */
  datatype Outcome = Parsed(data: BurnData) | UndefinedShift

  // ----- addresses in the metadata

  predicate HexDigit(b: Byte) {
    '0' as int <= b <= '9' as int || 'a' as int <= b <= 'f' as int || 'A' as int <= b <= 'F' as int
  }

  /** `0x` and forty hexadecimal digits stand at index `i`. */
  predicate AddressAt(s: seq<Byte>, i: nat) {
    && i + 42 <= |s| && s[i] == '0' as int && s[i + 1] == 'x' as int
    && forall j :: i + 2 <= j < i + 42 ==> HexDigit(s[j])
  }

  /** The leftmost address at or behind index `i`. */
  function FirstAddress(s: seq<Byte>, i: nat): (r: seq<Byte>)
    requires i <= |s|
    ensures r != [] ==> exists k {:trigger AddressAt(s, k)} :: i <= k && AddressAt(s, k) && r == s[k..k + 42] && forall j :: i <= j < k ==> !AddressAt(s, j)
    ensures r == [] ==> forall j :: i <= j ==> !AddressAt(s, j)
    decreases |s| - i
  {
    if AddressAt(s, i) then s[i..i + 42] else if i == |s| then [] else FirstAddress(s, i + 1)
  }

  // ----- the walk over the fields

  /** A length in groups of seven bits, lowest first, read from group `i` on: its value and the number of bytes it takes. */
  datatype Length = Len(size: nat, used: nat) | TooLong | Overflow

  function LengthOf(t: seq<Byte>, i: nat): (r: Length)
    requires i <= 4
    ensures r.Len? ==> r.used <= |t|
    decreases 4 - i
  {
    if t == [] then Len(0, 0)
    else if i == 4 && t[0] % 128 >= 8 then Overflow
    else if t[0] < 128 then Len(t[0] * Pow(128, i), 1)
    else if i == 4 then TooLong
    else
      match LengthOf(t[1..], i + 1)
      case Len(size, used) => Len(t[0] % 128 * Pow(128, i) + size, used + 1)
      case other => other
  }

  /** The first burn tag that skipping fields reaches, with what follows it. */
  datatype Found = Heat(rest: seq<Byte>) | Yield(rest: seq<Byte>) | Nothing | Undefined

  function First(s: seq<Byte>): (r: Found)
    decreases |s|
  {
    if s == [] then Nothing
    else if s[0] == HeatTag then Heat(s[1..])
    else if s[0] == YieldTag then Yield(s[1..])
    else if s[0] == PaddingTag then First(s[1..])
    else
      match LengthOf(s[1..], 0)
      case Len(size, used) => if 1 + used + size <= |s| then First(s[1 + used + size..]) else Nothing
      case TooLong => Nothing
      case Overflow => Undefined
  }

  // ----- the records

  /** A size byte and that many bytes of metadata. */
  function Finish(d: BurnData, t: seq<Byte>): (r: BurnData) {
    if t == [] then d
    else if t[0] == 0 then d.(valid := true)
    else if 1 + t[0] > |t| then d
    else d.(metadata := t[1..1 + t[0]], address := FirstAddress(t[1..1 + t[0]], 0), valid := true)
  }

  /** A hash and an amount, as far as there are bytes for them. */
  function Start(t: seq<Byte>): (r: BurnData) {
    if |t| < 32 then Blank
    else if |t| < 40 then Blank.(hash := ToHex(t[..32]))
    else Blank.(hash := ToHex(t[..32]), amount := Some(Le(t[32..40])))
  }

  function HeatData(t: seq<Byte>): (r: BurnData) {
    if |t| < 40 then Start(t) else Finish(Start(t), t[40..])
  }

  function YieldData(t: seq<Byte>): (r: BurnData) {
    if |t| < 45 || 45 + t[44] > |t| then Start(t) else Finish(Start(t), t[45 + t[44]..])
  }

  function Parse(s: seq<Byte>): (r: Outcome) {
    match First(s)
    case Heat(rest) => Parsed(HeatData(rest))
    case Yield(rest) => Parsed(YieldData(rest))
    case Nothing => Parsed(Blank)
    case Undefined => UndefinedShift
  }
}
