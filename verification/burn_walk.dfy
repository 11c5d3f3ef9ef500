/** The walk over the fields where shifts wrap around in 32 bits: it can go back, and then it may never end. */
module BurnWalk {
  import opened ByteStrings
  import opened Options
  import opened BurnFormat
  import opened BurnRecords

  const Word: nat := 0x1_0000_0000

  /** The size that five length bytes spell when the last group is shifted out of 32 bits: it may be negative. */
  function WrappedSize(t: seq<Byte>): (size: int)
    requires |t| >= 5
  {
    var top: nat := t[4] % 16;
    Groups(t[..4]) + top * 0x1000_0000 - if top >= 8 then Word else 0
  }

  /** It is the 32-bit number that agrees with what the five bytes spell. */
  lemma WrappedIs(t: seq<Byte>)
    requires |t| >= 5
    ensures -0x8000_0000 <= WrappedSize(t) < 0x8000_0000 && (Groups(t[..5]) - WrappedSize(t)) % 0x1_0000_0000 == 0
  {
    var low, top: nat, high: nat := Groups(t[..4]), t[4] % 16, t[4] % 128 / 16;
    FourGroups(t);
    assert t[4] % 128 == 16 * high + top;
    assert Groups(t[..5]) == low + 0x1000_0000 * top + 0x1_0000_0000 * high;
  }

  lemma {:induction false} GroupsAppend(b: seq<Byte>, c: Byte)
    ensures Groups(b + [c]) == Groups(b) + Pow(128, |b|) * (c % 128) && Groups(b) < Pow(128, |b|)
  {
    if b == [] {
      assert b + [c] == [c];
      GroupsFirst([c]);
      assert [c][1..] == [];
    } else {
      GroupsAppend(b[1..], c);
      assert (b + [c])[1..] == b[1..] + [c];
      GroupsFirst(b);
      GroupsFirst(b + [c]);
      Hoisted(Pow(128, |b| - 1), c % 128);
    }
  }

  lemma Hoisted(p: nat, c: nat)
    ensures 128 * (p * c) == 128 * p * c
  {
  }

  lemma FourGroups(t: seq<Byte>)
    requires |t| >= 5
    ensures var last: nat := t[4] % 128;
            Groups(t[..4]) < 0x1000_0000 && Groups(t[..5]) == Groups(t[..4]) + 0x1000_0000 * last
  {
    hide Groups;
    GroupsAppend(t[..4], t[4]);
    assert t[..5] == t[..4] + [t[4]];
    assert Pow(128, 2) == 16384;
    assert Pow(128, 4) == 0x1000_0000;
  }

  /** How far a skipped field reaches behind its tag, or nothing if the walk ends in its length. */
  function Reach(t: seq<Byte>): (n: Option<int>) {
    match LengthOf(t, 0)
    case Len(size, used) => Some(used + size)
    case TooLong => None
    case Overflow => if |t| < 5 || t[4] >= 128 then None else Some(5 + WrappedSize(t))
  }

  /** Where the walk goes from a place: nowhere at a burn tag, or when it leaves the extra field, to either side. */
  function Next(s: seq<Byte>, pos: nat): (r: Option<nat>)
    requires pos < |s|
    ensures r.Some? ==> r.value < |s|
  {
    if s[pos] == HeatTag || s[pos] == YieldTag then None
    else
      var n := if s[pos] == PaddingTag then Some(0) else Reach(s[pos + 1..]);
      if n.Some? && 0 <= pos + 1 + n.value < |s| then Some(pos + 1 + n.value) else None
  }

  /** Where the walk is after `n` steps, if it has not ended. */
  function Walk(s: seq<Byte>, n: nat): (r: Option<nat>)
    ensures r.Some? ==> r.value < |s|
  {
    if n == 0 then (if s == [] then None else Some(0))
    else if Walk(s, n - 1).None? then None
    else Next(s, Walk(s, n - 1).value)
  }

  ghost predicate Endless(s: seq<Byte>) {
    forall n: nat :: Walk(s, n).Some?
  }

  // ----- a walk that comes back goes round

  lemma WalkStep(s: seq<Byte>, n: nat)
    ensures Walk(s, n + 1) == if Walk(s, n).None? then None else Next(s, Walk(s, n).value)
  {
    hide Next;
  }

  lemma WalkStart(s: seq<Byte>)
    ensures Walk(s, 0) == if s == [] then None else Some(0)
  {
  }

  lemma {:induction false} WalkedBefore(s: seq<Byte>, m: nat, n: nat)
    requires m <= n && Walk(s, n).Some?
    ensures Walk(s, m).Some?
    decreases n
  {
    hide Walk, Next;
    if m < n {
      WalkStep(s, n - 1);
      WalkedBefore(s, m, n - 1);
    }
  }

  lemma {:induction false} SameFrom(s: seq<Byte>, i: nat, j: nat, m: nat)
    requires Walk(s, i) == Walk(s, j)
    ensures Walk(s, i + m) == Walk(s, j + m)
    decreases m
  {
    hide Walk, Next;
    if m > 0 {
      SameFrom(s, i, j, m - 1);
      WalkStep(s, i + (m - 1));
      WalkStep(s, j + (m - 1));
      assert i + (m - 1) + 1 == i + m && j + (m - 1) + 1 == j + m;
    }
  }

  lemma {:induction false} GoesRound(s: seq<Byte>, i: nat, j: nat, n: nat)
    requires i < j && Walk(s, j).Some? && Walk(s, i) == Walk(s, j)
    ensures Walk(s, n).Some?
    decreases n
  {
    hide Walk, Next;
    if n <= j {
      WalkedBefore(s, n, j);
    } else {
      SameFrom(s, i, j, n - j);
      GoesRound(s, i, j, i + (n - j));
    }
  }

  /** The places of the first steps. */
  ghost function Seen(s: seq<Byte>, n: nat): (r: set<nat>) {
    (if Walk(s, n).Some? then {Walk(s, n).value} else {}) + if n == 0 then {} else Seen(s, n - 1)
  }

  lemma {:induction false} SeenAt(s: seq<Byte>, n: nat, p: nat) returns (i: nat)
    requires p in Seen(s, n)
    ensures i <= n && Walk(s, i) == Some(p)
  {
    hide Walk, Next;
    if Walk(s, n) == Some(p) {
      i := n;
    } else {
      i := SeenAt(s, n - 1, p);
    }
  }

  /** They are all different, or the walk has come back to one of them. */
  lemma {:induction false} Different(s: seq<Byte>, n: nat)
    requires Walk(s, n).Some? && !Endless(s)
    ensures |Seen(s, n)| == n + 1
    decreases n
  {
    hide Walk, Next;
    if n > 0 {
      WalkedBefore(s, n - 1, n);
      Different(s, n - 1);
      var p := Walk(s, n).value;
      if p in Seen(s, n - 1) {
        var i := SeenAt(s, n - 1, p);
        forall m: nat
          ensures Walk(s, m).Some?
        {
          GoesRound(s, i, n, m);
        }
      }
      assert Seen(s, n) == {p} + Seen(s, n - 1);
    }
  }

  lemma {:induction false} SeenInside(s: seq<Byte>, n: nat)
    ensures forall p :: p in Seen(s, n) ==> p < |s|
  {
    hide Walk, Next;
    if n > 0 {
      SeenInside(s, n - 1);
    }
  }

  lemma {:induction false} Pigeons(a: set<nat>, m: nat)
    requires forall p :: p in a ==> p < m
    ensures |a| <= m
    decreases m
  {
    if m > 0 {
      var b := a - {m - 1};
      Pigeons(b, m - 1);
      assert a <= b + {m - 1};
      assert |a| <= |b + {m - 1}|;
    } else {
      assert a == {};
    }
  }

  /** The walk never ends if and only if it has not ended after as many steps as there are bytes. */
  lemma EndlessIff(s: seq<Byte>)
    ensures Endless(s) <==> Walk(s, |s|).Some?
  {
    hide Walk, Seen;
    if Walk(s, |s|).Some? && !Endless(s) {
      Different(s, |s|);
      SeenInside(s, |s|);
      Pigeons(Seen(s, |s|), |s|);
    }
  }

  // ----- only oversized lengths go back

  lemma PaddingNext(s: seq<Byte>, pos: nat)
    requires pos < |s| && s[pos] == PaddingTag
    ensures First(s[pos..]) == First(s[pos + 1..])
  {
    hide First;
    FirstPadding(s[pos..]);
    Behind(s, pos, 1);
  }

  lemma SkipNext(s: seq<Byte>, pos: nat)
    requires pos < |s| && s[pos] != PaddingTag && s[pos] != YieldTag && s[pos] != HeatTag
    ensures LengthOf(s[pos + 1..], 0).Overflow? ==> First(s[pos..]) == Undefined
    ensures LengthOf(s[pos + 1..], 0).Len? ==>
              var next := pos + 1 + LengthOf(s[pos + 1..], 0).used + LengthOf(s[pos + 1..], 0).size;
              next <= |s| ==> First(s[pos..]) == First(s[next..])
  {
    hide First, LengthOf;
    FirstSkip(s[pos..]);
    Behind(s, pos, 1);
    var n := LengthOf(s[pos + 1..], 0);
    if n.Len? && pos + 1 + n.used + n.size <= |s| {
      Behind(s, pos, 1 + n.used + n.size);
    }
  }

  lemma FirstNext(s: seq<Byte>, pos: nat)
    requires pos < |s| && First(s[pos..]) != Undefined && Next(s, pos).Some?
    ensures Next(s, pos).value > pos && First(s[Next(s, pos).value..]) != Undefined
  {
    hide First, LengthOf, WrappedSize;
    if s[pos] == PaddingTag {
      PaddingNext(s, pos);
    } else {
      SkipNext(s, pos);
    }
  }

  lemma Behind(s: seq<Byte>, pos: nat, k: nat)
    requires pos + k <= |s|
    ensures s[pos..][k..] == s[pos + k..]
  {
  }

  lemma {:induction false} WalksOn(s: seq<Byte>, n: nat)
    requires First(s) != Undefined && Walk(s, n).Some?
    ensures Walk(s, n).value >= n && First(s[Walk(s, n).value..]) != Undefined
  {
    hide First, Next, Walk;
    if n == 0 {
      WalkStart(s);
      assert s[0..] == s;
    } else {
      WalkStep(s, n - 1);
      WalksOn(s, n - 1);
      FirstNext(s, Walk(s, n - 1).value);
    }
  }

  /** A walk that never ends comes to a length of 2^31 or more. */
  lemma EndlessIsUndefined(s: seq<Byte>)
    requires Endless(s)
    ensures Parse(s) == UndefinedShift
  {
    hide Walk, First;
    assert Walk(s, |s|).Some?;
    if First(s) != Undefined {
      WalksOn(s, |s|);
    }
  }

  /** The field at the front has the size -6, and the walk is back where it was. */
  lemma EndlessExample()
    ensures Endless([1, 0xFA, 0xFF, 0xFF, 0xFF, 0x0F])
  {
    var s: seq<Byte> := [1, 0xFA, 0xFF, 0xFF, 0xFF, 0x0F];
    StaysPut(s);
    forall n: nat
      ensures Walk(s, n) == Some(0)
    {
      Stays(s, n);
    }
  }

  lemma {:induction false} Stays(s: seq<Byte>, n: nat)
    requires s != [] && Next(s, 0) == Some(0)
    ensures Walk(s, n) == Some(0)
  {
    hide Next, Walk;
    if n == 0 {
      WalkStart(s);
    } else {
      Stays(s, n - 1);
      WalkStep(s, n - 1);
    }
  }

  lemma StaysPut(s: seq<Byte>)
    requires s == [1, 0xFA, 0xFF, 0xFF, 0xFF, 0x0F]
    ensures Next(s, 0) == Some(0)
  {
    var t: seq<Byte> := [0xFA, 0xFF, 0xFF, 0xFF, 0x0F];
    assert s[1..] == t && t + [] == t;
    OversizedReads(t, 0, []);
    var g: seq<Byte> := [0xFA, 0xFF, 0xFF, 0xFF];
    assert t[..4] == g;
    GroupsFirst(g);
    GroupsFirst(g[1..]);
    GroupsFirst(g[2..]);
    GroupsFirst(g[3..]);
    assert g[1..][1..] == g[2..] && g[2..][1..] == g[3..] && g[3..][1..] == [];
    assert Groups(g) == 0xFFFFFFA;
  }
}
