/** The elements a B-tree stores, their order, and the capacity of a node. */
module BtreeValues {

  /** A stored element together with its key; only the comparator looks inside. */
  type V(!new, 0)

  type Capacity = k: nat | k >= 3 witness 3

  /** `kNodeValues`: the number of values a full node holds.  Arbitrary, but at least three. */
  const K: Capacity

  /** `kMinNodeValues` */
  const MinValues: nat := K / 2

  lemma MinBelowCapacity()
    ensures 1 <= MinValues < K
  {
  }

  /** A comparator in the sense of the C++ containers. */
  ghost predicate StrictWeakOrder(less: (V, V) -> bool) {
    && (forall x :: !less(x, x))
    && (forall x, y, z :: less(x, y) && less(y, z) ==> less(x, z))
    && (forall x, y, z :: less(x, z) ==> less(x, y) || less(y, z))
  }

  type Comparator = f: (V, V) -> bool | StrictWeakOrder(f) witness (x: V, y: V) => false

  /** `key_comp()`: an arbitrary strict weak order. */
  const Less: Comparator

  /** No element is smaller than one that precedes it. */
  ghost predicate Sorted(s: seq<V>) {
    forall i, j :: 0 <= i < j < |s| ==> !Less(s[j], s[i])
  }

  /** Strictly increasing: sorted and without equivalent elements. */
  ghost predicate Strict(s: seq<V>) {
    forall i, j :: 0 <= i < j < |s| ==> Less(s[i], s[j])
  }

  /** `r` separates the elements smaller than `k` from the others. */
  ghost predicate IsLower(s: seq<V>, k: V, r: int) {
    && 0 <= r <= |s|
    && (forall i :: 0 <= i < r ==> Less(s[i], k))
    && (forall i :: r <= i < |s| ==> !Less(s[i], k))
  }

  /** `r` separates the elements greater than `k` from the others. */
  ghost predicate IsUpper(s: seq<V>, k: V, r: int) {
    && 0 <= r <= |s|
    && (forall i :: 0 <= i < r ==> !Less(k, s[i]))
    && (forall i :: r <= i < |s| ==> Less(k, s[i]))
  }

  function With<T>(s: seq<T>, i: nat, x: T): (r: seq<T>)
    requires i <= |s|
    ensures |r| == |s| + 1
  {
    s[..i] + [x] + s[i..]
  }

  function Without<T>(s: seq<T>, i: nat): (r: seq<T>)
    requires i < |s|
    ensures |r| == |s| - 1
  {
    s[..i] + s[i + 1..]
  }

  lemma WithoutIs<T>(s: seq<T>, i: nat)
    requires i < |s|
    ensures Without(s, i) == s[..i] + s[i + 1..]
  {
  }

  /** Removing a stretch in two portions, both at its front. */
  lemma SliceAgain<T>(s: seq<T>, i: nat, gone: nat, m: nat)
    requires i + gone + m <= |s|
    ensures |s[..i] + s[i + gone..]| == |s| - gone
    ensures (s[..i] + s[i + gone..])[..i] + (s[..i] + s[i + gone..])[i + m..] == s[..i] + s[i + (gone + m)..]
  {
  }

  lemma WithLength<T>(s: seq<T>, i: nat, x: T)
    requires i <= |s|
    ensures |With(s, i, x)| == |s| + 1
  {
  }
}
