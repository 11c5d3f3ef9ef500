/** Searching a node. */
module BtreeSearch {
  import opened BtreeValues
  import opened BtreeNodes

  /** A test of values against a key: `Less` finds lower bounds, `NotAbove` upper bounds. */
  type Test = (V, V) -> bool

  /** The comparison that the upper-bound adapter makes of `Less`. */
  predicate NotAbove(a: V, b: V) {
    !Less(b, a)
  }

  /** `r` parts the values that pass the test from those that fail it. */
  ghost predicate Splits(s: seq<V>, k: V, test: Test, r: int) {
    && 0 <= r <= |s|
    && (forall i :: 0 <= i < r ==> test(s[i], k))
    && (forall i :: r <= i < |s| ==> !test(s[i], k))
  }

  /** No value that passes the test stands behind one that fails it. */
  ghost predicate Monotone(s: seq<V>, k: V, test: Test) {
    forall i, j :: 0 <= i < j < |s| && test(s[j], k) ==> test(s[i], k)
  }

  /** The linear scan: how many values at the front pass the test. */
  function Scan(s: seq<V>, k: V, test: Test): (r: nat)
    ensures r <= |s|
  {
    if s == [] || !test(s[0], k) then 0 else 1 + Scan(s[1..], k, test)
  }

  lemma {:induction false} ScanParts(s: seq<V>, k: V, test: Test)
    requires Monotone(s, k, test)
    ensures Splits(s, k, test, Scan(s, k, test))
  {
    if s != [] && test(s[0], k) {
      ScanParts(s[1..], k, test);
      assert forall i :: 1 <= i < |s| ==> s[i] == s[1..][i - 1];
    }
  }

  /** There is only one such place, so every search that finds one agrees with the linear scan. */
  lemma PartsUnique(s: seq<V>, k: V, test: Test, r: int)
    requires Splits(s, k, test, r)
    ensures r == Scan(s, k, test)
  {
    if s != [] && test(s[0], k) {
      assert forall i :: 0 <= i < |s[1..]| ==> s[1..][i] == s[i + 1];
      PartsUnique(s[1..], k, test, r - 1);
    }
  }

  lemma SortedMonotone(s: seq<V>, k: V)
    requires Sorted(s)
    ensures Monotone(s, k, Less) && Monotone(s, k, NotAbove)
  {
  }

  lemma BoundsAreParts(s: seq<V>, k: V, r: int)
    ensures Splits(s, k, Less, r) <==> IsLower(s, k, r)
    ensures Splits(s, k, NotAbove, r) <==> IsUpper(s, k, r)
  {
  }

  lemma SplitsBound(s: seq<V>, k: V, test: Test, r: int)
    requires Splits(s, k, test, r)
    ensures 0 <= r <= |s|
  {
  }

  // ----- plain comparison

  /** The first value of a node that fails the test, by trying one after another. */
  method LinearSearch(node: Node, k: V, test: Test) returns (s: nat)
    requires node.Ok()
    ensures s <= node.count && (forall i :: 0 <= i < s ==> test(node.slots[i], k)) && (s < node.count ==> !test(node.slots[s], k))
    ensures s == Scan(node.Vals(), k, test)
  {
    s := 0;
    while s < node.count
      invariant s <= node.count
      invariant forall i :: 0 <= i < s ==> test(node.slots[i], k)
    {
      if !test(node.slots[s], k) {
        break;
      }
      s := s + 1;
    }
    ScanStops(node.Vals(), k, test, s);
  }

  lemma {:induction false} ScanStops(s: seq<V>, k: V, test: Test, r: nat)
    requires r <= |s| && (forall i :: 0 <= i < r ==> test(s[i], k)) && (r < |s| ==> !test(s[r], k))
    ensures Scan(s, k, test) == r
  {
    if r > 0 {
      assert forall i :: 0 <= i < |s[1..]| ==> s[1..][i] == s[i + 1];
      ScanStops(s[1..], k, test, r - 1);
    }
  }

  /** The same place by halving; it needs the values to be in order. */
  method BinarySearch(node: Node, k: V, test: Test) returns (s: nat)
    requires node.Ok() && Monotone(node.Vals(), k, test)
    ensures Splits(node.Vals(), k, test, s) && s == Scan(node.Vals(), k, test)
  {
    ghost var v := node.Vals();
    var e := node.count;
    s := 0;
    while s != e
      invariant s <= e <= |v| == node.count
      invariant forall i :: 0 <= i < s ==> test(v[i], k)
      invariant forall i :: e <= i < |v| ==> !test(v[i], k)
      decreases e - s
    {
      var mid := (s + e) / 2;
      if test(node.slots[mid], k) {
        s := mid + 1;
      } else {
        e := mid;
      }
    }
    PartsUnique(v, k, test, s);
  }

  /** Which of the two a container uses is fixed when it is compiled. */
  const UseLinear: bool

  /** `lower_bound` with `Less`, `upper_bound` with `NotAbove`. */
  method Search(node: Node, k: V, test: Test) returns (s: nat)
    requires node.Ok() && Monotone(node.Vals(), k, test)
    ensures Splits(node.Vals(), k, test, s)
  {
    if UseLinear {
      s := LinearSearch(node, k, test);
      ScanParts(node.Vals(), k, test);
    } else {
      s := BinarySearch(node, k, test);
    }
  }

  // ----- three-way comparison

  /** Whether the comparator of a container compares three ways is fixed when it is compiled, too. */
  const UseCompareTo: bool

  /** `weak_ordering` of two values: negative, zero or positive. */
  function Compare(a: V, b: V): (c: int)
    ensures c < 0 <==> Less(a, b)
    ensures c > 0 <==> Less(b, a)
  {
    if Less(a, b) then -1 else if Less(b, a) then 1 else 0
  }

  predicate Same(a: V, b: V) {
    !Less(a, b) && !Less(b, a)
  }

  method LinearSearchTo(node: Node, k: V) returns (s: nat, eq: bool)
    requires node.Ok() && Sorted(node.Vals())
    ensures IsLower(node.Vals(), k, s) && (eq <==> s < node.count && Same(node.slots[s], k))
  {
    ghost var v := node.Vals();
    s := 0;
    while s < node.count
      invariant s <= node.count
      invariant forall i :: 0 <= i < s ==> Less(v[i], k)
    {
      var c := Compare(node.slots[s], k);
      if c == 0 {
        return s, true;
      } else if c > 0 {
        break;
      }
      s := s + 1;
    }
    eq := false;
  }

  /** The search for the first of several equal keys goes on to the left of a match. */
  method BinarySearchMulti(node: Node, k: V) returns (s: nat, eq: bool)
    requires node.Ok() && Sorted(node.Vals())
    ensures s <= node.count && (eq ==> s < node.count && Same(node.slots[s], k)) && IsLower(node.Vals(), k, s)
    ensures !eq ==> forall i :: 0 <= i < node.count ==> !Same(node.slots[i], k)
  {
    ghost var v := node.Vals();
    var e := node.count;
    s, eq := 0, false;
    while s != e
      invariant s <= e <= |v| == node.count
      invariant forall i :: 0 <= i < s ==> Less(v[i], k)
      invariant forall i :: e <= i < |v| ==> !Less(v[i], k)
      invariant eq ==> e < |v| && Same(v[e], k)
      invariant !eq ==> forall i :: e <= i < |v| ==> Less(k, v[i])
      decreases e - s
    {
      var mid := (s + e) / 2;
      var c := Compare(node.slots[mid], k);
      if c < 0 {
        s := mid + 1;
      } else {
        e := mid;
        if c == 0 {
          eq := true;
        }
      }
    }
  }

  /** The search for a key that stands only once ends at a match. */
  method BinarySearchSingle(node: Node, k: V) returns (s: nat, eq: bool)
    requires node.Ok() && Sorted(node.Vals())
    ensures s <= node.count && (eq ==> s < node.count && Same(node.slots[s], k))
    ensures !eq || Strict(node.Vals()) ==> IsLower(node.Vals(), k, s)
    ensures !eq ==> forall i :: 0 <= i < node.count ==> !Same(node.slots[i], k)
  {
    ghost var v := node.Vals();
    var e := node.count;
    s, eq := 0, false;
    while s != e
      invariant s <= e <= |v| == node.count && !eq
      invariant forall i :: 0 <= i < s ==> Less(v[i], k)
      invariant forall i :: e <= i < |v| ==> Less(k, v[i])
      decreases e - s
    {
      var mid := (s + e) / 2;
      var c := Compare(node.slots[mid], k);
      if c < 0 {
        s := mid + 1;
      } else if c > 0 {
        e := mid;
      } else {
        return mid, true;
      }
    }
  }

  /** A multi-container goes on to the first of several equivalent values; another one stops at the match. */
  method BinarySearchTo(node: Node, k: V, multi: bool) returns (s: nat, eq: bool)
    requires node.Ok() && Sorted(node.Vals())
    ensures s <= node.count && (eq ==> s < node.count && Same(node.slots[s], k))
    ensures multi || !eq || Strict(node.Vals()) ==> IsLower(node.Vals(), k, s)
    ensures !eq ==> forall i :: 0 <= i < node.count ==> !Same(node.slots[i], k)
  {
    if multi {
      s, eq := BinarySearchMulti(node, k);
    } else {
      s, eq := BinarySearchSingle(node, k);
    }
  }

  method SearchTo(node: Node, k: V, multi: bool) returns (s: nat, eq: bool)
    requires node.Ok() && Sorted(node.Vals())
    ensures s <= node.count && (eq ==> s < node.count && Same(node.slots[s], k))
    ensures multi || !eq || Strict(node.Vals()) ==> IsLower(node.Vals(), k, s)
    ensures !eq ==> forall i :: 0 <= i < node.count ==> !Same(node.slots[i], k)
  {
    if UseLinear {
      s, eq := LinearSearchTo(node, k);
    } else {
      s, eq := BinarySearchTo(node, k, multi);
    }
  }
}
