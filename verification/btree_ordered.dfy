/** Sorted sequences: where a key belongs, and what inserting it does. */
module BtreeOrdered {
  import opened BtreeValues
  import opened BtreeSearch

  /** Where a key belongs: behind the smaller values. */
  ghost function Slot(s: seq<V>, k: V): (r: nat)
    ensures r <= |s|
  {
    Scan(s, k, Less)
  }

  ghost predicate Holds(s: seq<V>, k: V) {
    exists i :: 0 <= i < |s| && Same(s[i], k)
  }

  lemma SlotIs(s: seq<V>, k: V, r: int)
    requires IsLower(s, k, r)
    ensures r == Slot(s, k)
  {
    BoundsAreParts(s, k, r);
    PartsUnique(s, k, Less, r);
  }

  lemma SlotIsLower(s: seq<V>, k: V)
    requires Sorted(s)
    ensures IsLower(s, k, Slot(s, k))
  {
    SortedMonotone(s, k);
    ScanParts(s, k, Less);
    BoundsAreParts(s, k, Slot(s, k));
  }

  lemma StrictSorted(s: seq<V>)
    requires Strict(s)
    ensures Sorted(s)
  {
  }

  /** A key is present exactly when the value in its place is not greater. */
  lemma HoldsAtSlot(s: seq<V>, k: V, r: int)
    requires Sorted(s) && IsLower(s, k, r)
    ensures Holds(s, k) <==> r < |s| && !Less(k, s[r])
  {
    if r < |s| && !Less(k, s[r]) {
      assert Same(s[r], k);
    }
    if Holds(s, k) {
      var i :| 0 <= i < |s| && Same(s[i], k);
      assert r <= i;
      assert !Less(s[i], s[r]);
    }
  }

  /** In a strictly increasing sequence a match stands in the place of the key. */
  lemma MatchIsSlot(s: seq<V>, k: V, r: int)
    requires Strict(s) && 0 <= r < |s| && Same(s[r], k)
    ensures IsLower(s, k, r) && Holds(s, k)
  {
  }

  /** A key put into its place keeps the values in order. */
  lemma WithSorted(s: seq<V>, r: nat, k: V)
    requires Sorted(s) && r <= |s| && (r > 0 ==> !Less(k, s[r - 1])) && (r < |s| ==> !Less(s[r], k))
    ensures Sorted(With(s, r, k))
  {
    var t := With(s, r, k);
    forall i, j | 0 <= i < j < |t|
      ensures !Less(t[j], t[i])
    {
      WithAt2(s, r, k, i);
      WithAt2(s, r, k, j);
      if i < r == j {
        assert i == r - 1 || !Less(s[r - 1], s[i]);
      } else if i == r < j {
        assert j - 1 == r || !Less(s[j - 1], s[r]);
      }
    }
  }

  lemma WithAt2(s: seq<V>, r: nat, k: V, i: nat)
    requires r <= |s| && i <= |s|
    ensures With(s, r, k)[i] == if i < r then s[i] else if i == r then k else s[i - 1]
  {
  }

  /** A key strictly between its neighbours belongs there, and is not present yet. */
  lemma BetweenIsSlot(s: seq<V>, r: nat, k: V)
    requires Strict(s) && r <= |s| && (r > 0 ==> Less(s[r - 1], k)) && (r < |s| ==> Less(k, s[r]))
    ensures r == Slot(s, k) && !Holds(s, k) && Strict(With(s, r, k))
  {
    assert forall i :: 0 <= i < r ==> i == r - 1 || Less(s[i], s[r - 1]);
    assert forall i :: r <= i < |s| ==> i == r || Less(s[r], s[i]);
    assert IsLower(s, k, r);
    SlotIs(s, k, r);
    forall i, j | 0 <= i < j <= |s|
      ensures Less(With(s, r, k)[i], With(s, r, k)[j])
    {
      WithAt2(s, r, k, i);
      WithAt2(s, r, k, j);
    }
  }

  /** An absent key put into its place keeps the values strictly increasing. */
  lemma InsertStrict(s: seq<V>, k: V)
    requires Strict(s) && !Holds(s, k)
    ensures Slot(s, k) <= |s| && Strict(With(s, Slot(s, k), k))
  {
    StrictSorted(s);
    SlotIsLower(s, k);
    var r := Slot(s, k);
    HoldsAtSlot(s, k, r);
    BetweenIsSlot(s, r, k);
  }

  lemma SlotSplits(s: seq<V>, k: V)
    requires Sorted(s)
    ensures Splits(s, k, Less, Slot(s, k))
  {
    SlotIsLower(s, k);
    BoundsAreParts(s, k, Slot(s, k));
  }

  /** What a search without a match says about its place. */
  lemma MissAt(s: seq<V>, k: V, r: nat)
    requires IsLower(s, k, r) && forall i :: 0 <= i < |s| ==> !Same(s[i], k)
    ensures Splits(s, k, Less, r) && r <= |s| && (r < |s| ==> Less(k, s[r]))
  {
    BoundsAreParts(s, k, r);
  }

  lemma HoldsAt(s: seq<V>, k: V, i: nat)
    requires i < |s| && Same(s[i], k)
    ensures Holds(s, k)
  {
  }

  lemma SameAtLower(s: seq<V>, k: V, r: nat)
    requires IsLower(s, k, r) && r < |s| && !Less(k, s[r])
    ensures Same(s[r], k)
  {
  }

  lemma UpperNeighbours(s: seq<V>, k: V, r: int)
    requires IsUpper(s, k, r)
    ensures 0 <= r <= |s| && (r > 0 ==> !Less(k, s[r - 1])) && (r < |s| ==> !Less(s[r], k))
  {
  }

  lemma LessNotAbove(a: V, b: V)
    requires Less(a, b)
    ensures !Less(b, a)
  {
  }

  lemma WithoutStrict(s: seq<V>, i: nat)
    requires Strict(s) && i < |s|
    ensures Strict(Without(s, i))
  {
  }

  lemma LowerBelowUpper(s: seq<V>, k: V, i: int, j: int)
    requires IsLower(s, k, i) && IsUpper(s, k, j)
    ensures 0 <= i <= j <= |s|
  {
    assert j < |s| && Less(k, s[j]) ==> !Less(s[j], k);
  }

  lemma SliceSorted(s: seq<V>, i: nat, j: nat)
    requires Sorted(s) && i <= j <= |s|
    ensures Sorted(s[..i] + s[j..])
  {
  }

  lemma SortedNeighbours(s: seq<V>, i: nat)
    requires Sorted(s) && 1 <= i < |s|
    ensures !Less(s[i], s[i - 1])
  {
  }

  /** The bounds of a key are where the scans for it stop. */
  lemma BoundsAre(s: seq<V>, key: V, i: int, j: int)
    requires IsLower(s, key, i) && IsUpper(s, key, j)
    ensures i == Scan(s, key, Less) && j == Scan(s, key, NotAbove)
  {
    BoundsAreParts(s, key, i);
    BoundsAreParts(s, key, j);
    PartsUnique(s, key, Less, i);
    PartsUnique(s, key, NotAbove, j);
  }

  /** A value at index `k` keeps the sequence sorted. */
  ghost predicate FitsAt(s: seq<V>, k: nat, v: V)
    requires k <= |s|
  {
    (k == 0 || !Less(v, s[k - 1])) && (k == |s| || !Less(s[k], v))
  }

  /** Where a value with a hint goes: to the hint if it fits there, else behind the next value if it fits there, else behind all equivalent ones. */
  ghost function HintPlace(s: seq<V>, k: nat, v: V): (r: nat)
    requires k <= |s|
    ensures r <= |s|
  {
    if FitsAt(s, k, v) then k
    else if k < |s| && Less(s[k], v) && (k + 1 == |s| || !Less(s[k + 1], v)) then k + 1
    else Scan(s, v, NotAbove)
  }

  lemma HintPlaceIs(s: seq<V>, k: nat, v: V)
    requires k <= |s|
    ensures HintPlace(s, k, v) == if (k == 0 || !Less(v, s[k - 1])) && (k == |s| || !Less(s[k], v)) then k
                                  else if k < |s| && Less(s[k], v) && (k + 1 == |s| || !Less(s[k + 1], v)) then k + 1
                                  else Scan(s, v, NotAbove)
    ensures s == [] ==> Scan(s, v, NotAbove) == 0
  {
  }

  /** A hint is followed exactly when the value fits there; and wherever it goes, it fits. */
  lemma HintFollowed(s: seq<V>, k: nat, v: V)
    requires Sorted(s) && k <= |s|
    ensures HintPlace(s, k, v) == k <==> FitsAt(s, k, v)
    ensures FitsAt(s, HintPlace(s, k, v), v)
  {
    SortedMonotone(s, v);
    ScanParts(s, v, NotAbove);
    var u := Scan(s, v, NotAbove);
    assert FitsAt(s, u, v) by {
      if u < |s| {
        assert Less(v, s[u]);
      }
    }
    if k < |s| && Less(s[k], v) {
      assert !Less(v, s[k]);
    }
  }

  /** What `n` single erases in one place leave. */
  ghost function EraseTimes(s: seq<V>, i: nat, n: nat): (r: seq<V>)
    requires i + n <= |s|
    decreases n
  {
    if n == 0 then s else EraseTimes(Without(s, i), i, n - 1)
  }

  /** Erasing a slice and erasing its values one by one leave the same values. */
  lemma {:induction false} EraseTimesIsSlice(s: seq<V>, i: nat, n: nat)
    requires i + n <= |s|
    ensures EraseTimes(s, i, n) == s[..i] + s[i + n..]
    decreases n
  {
    if n > 0 {
      EraseTimesIsSlice(Without(s, i), i, n - 1);
    }
  }
}
