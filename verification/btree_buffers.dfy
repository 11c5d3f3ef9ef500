/** Sequences used as storage: copying stretches between them, and what the results read as. */
module Buffers {
  import opened BtreeValues

  /** `s` is `dst` with the `n` elements of `src` from index `i` on written over it from index `j` on. */
  ghost predicate Copied<T>(s: seq<T>, dst: seq<T>, j: nat, src: seq<T>, i: nat, n: nat) {
    && |s| == |dst| && i + n <= |src| && j + n <= |dst|
    && (forall k {:trigger s[k]} :: j <= k < j + n ==> s[k] == src[k + i - j])
    && (forall k {:trigger s[k]} :: 0 <= k < j || j + n <= k < |dst| ==> s[k] == dst[k])
  }

  lemma RemovedByIndex<T>(s: seq<T>, was: seq<T>, c: nat, i: nat, n: nat)
    requires i + n <= c <= |was| && Copied(s, was, i, was, i + n, c - (i + n))
    ensures s[..c - n] == was[..c][..i] + was[..c][i + n..]
  {
  }

  lemma WithoutByIndex<T>(s: seq<T>, was: seq<T>, n: nat, i: nat)
    requires i < n <= |was| && Copied(s, was, i, was, i + 1, n - i - 1)
    ensures s[..n - 1] == Without(was[..n], i)
  {
  }

  /** The `j` elements of `a`, then `d`, then the first `n - 1` of the `m` elements of `b`. */
  lemma PrefixByIndex<T>(s: seq<T>, a: seq<T>, j: nat, d: T, b: seq<T>, m: nat, n: nat)
    requires j < |a| && 1 <= n <= m <= |b|
    requires Copied(s, a[j := d], j + 1, b, 0, n - 1)
    ensures s[..j + n] == a[..j] + [d] + b[..m][..n - 1]
  {
  }

  lemma SuffixByIndex<T>(s: seq<T>, b: seq<T>, m: nat, n: nat)
    requires n <= m <= |b| && Copied(s, b, 0, b, n, m - n)
    ensures s[..m - n] == b[..m][n..]
  {
  }

  /** `s` reads: the last `n - 1` of the `lc` elements of `l`, then `d`, then the `rc` elements of `r`. */
  ghost predicate Filled<T>(s: seq<T>, l: seq<T>, lc: nat, n: nat, d: T, r: seq<T>, rc: nat) {
    && |s| == |r| && 1 <= n <= lc <= |l| && rc + n <= |r|
    && (forall k {:trigger s[k]} :: 0 <= k < n - 1 ==> s[k] == l[lc - n + 1 + k])
    && s[n - 1] == d
    && (forall k {:trigger s[k]} :: n <= k < rc + n ==> s[k] == r[k - n])
  }

  lemma FilledByIndex<T>(s: seq<T>, l: seq<T>, lc: nat, n: nat, d: T, r: seq<T>, rc: nat)
    requires Filled(s, l, lc, n, d, r, rc)
    ensures s[..rc + n] == l[..lc][lc - n + 1..] + [d] + r[..rc]
  {
  }

  /** Filling a buffer from the left when its old values must move by more places than there are of them. */
  lemma FilledUninitialized<T>(r: seq<T>, rc: nat, s1: seq<T>, s2: seq<T>, s: seq<T>, l: seq<T>, lc: nat, n: nat, d: T)
    requires rc < n <= lc <= |l| && rc + n <= |r| && |s1| == |r|
    requires Copied(s1, r, n, r, 0, rc)
    requires Copied(s2, s1[n - 1 := d], rc, l, lc - (n - rc - 1), n - rc - 1)
    requires Copied(s, s2, 0, l, lc - (n - 1), rc)
    ensures Filled(s, l, lc, n, d, r, rc)
  {
  }

  /** Filling a buffer from the left when its old values overlap the places they move to. */
  lemma FilledInitialized<T>(r: seq<T>, rc: nat, s1: seq<T>, s2: seq<T>, s: seq<T>, l: seq<T>, lc: nat, n: nat, d: T)
    requires 1 <= n <= lc <= |l| && n <= rc && rc + n <= |r| && |s1| == |s2| == |r|
    requires Copied(s1, r, rc, r, rc - n, n)
    requires Copied(s2, s1, n, s1, 0, rc - n)
    requires Copied(s, s2[n - 1 := d], 0, l, lc - (n - 1), n - 1)
    ensures Filled(s, l, lc, n, d, r, rc)
  {
  }

  /** `s` reads: the `n` elements of `a` from index `i` on, then the `m` elements of `was`. */
  ghost predicate Prepended<T>(s: seq<T>, was: seq<T>, m: nat, a: seq<T>, i: nat, n: nat) {
    && |s| == |was| && m + n <= |was| && i + n <= |a|
    && (forall k {:trigger s[k]} :: 0 <= k < n ==> s[k] == a[i + k])
    && (forall k {:trigger s[k]} :: n <= k < n + m ==> s[k] == was[k - n])
  }

  lemma PrependedByIndex<T>(s: seq<T>, shifted: seq<T>, was: seq<T>, m: nat, a: seq<T>, i: nat, n: nat)
    requires Copied(shifted, was, n, was, 0, m) && Copied(s, shifted, 0, a, i, n)
    ensures Prepended(s, was, m, a, i, n)
  {
  }

  lemma TailByIndex<T>(s: seq<T>, b: seq<T>, n: nat)
    requires n <= |b| && |b| - n <= |s|
    requires forall k :: 0 <= k < |b| - n ==> s[k] == b[k + n]
    ensures s[..|b| - n] == b[n..]
  {
  }

  lemma WithAt<T>(s: seq<T>, was: seq<T>, n: nat, i: nat, x: T)
    requires i <= n < |was| == |s| && s[i] == x
    requires forall k :: 0 <= k < i ==> s[k] == was[k]
    requires forall k :: i < k <= n ==> s[k] == was[k - 1]
    ensures s[..n + 1] == With(was[..n], i, x)
  {
  }

  lemma MergedByIndex<T>(s: seq<T>, a: seq<T>, j: nat, d: T, b: seq<T>, m: nat)
    requires j < |a| && m <= |b| && Copied(s, a[j := d], j + 1, b, 0, m)
    ensures s[..j + 1 + m] == a[..j] + [d] + b[..m]
  {
  }

  lemma AppendedByIndex<T>(s: seq<T>, a: seq<T>, j: nat, b: seq<T>, m: nat)
    requires j <= |a| && m <= |b| && Copied(s, a, j, b, 0, m)
    ensures s[..j + m] == a[..j] + b[..m]
  {
  }

  /** Moving `n` elements from the front of `b` to the back of `a`, read as one sequence. */
  lemma MovedReads<T>(s: seq<T>, t: seq<T>, a: seq<T>, j: nat, b: seq<T>, m: nat, n: nat)
    requires j <= |a| && n <= m <= |b| && Copied(s, a, j, b, 0, n) && Copied(t, b, 0, b, n, m - n)
    ensures s[..j + n] == (a[..j] + b[..m])[..j + n] && t[..m - n] == (a[..j] + b[..m])[j + n..]
  {
  }

  /** Moving `n` elements from the back of `a` to the front of `b`, read as one sequence. */
  lemma MovedBackReads<T>(t: seq<T>, a: seq<T>, j: nat, b: seq<T>, m: nat, n: nat)
    requires n <= j <= |a| && Prepended(t, b, m, a, j - n, n)
    ensures a[..j - n] == (a[..j] + b[..m])[..j - n] && t[..n + m] == (a[..j] + b[..m])[j - n..]
  {
  }

  /** The first `n` elements of `b`, and then the next ones up to `m` copied behind them. */
  lemma TakenReads<T>(s: seq<T>, was: seq<T>, b: seq<T>, a: seq<T>, n: nat, m: nat)
    requires n <= m <= |b| == |a| && was == b[..n] + a[n..] && Copied(s, was, n, a[..n] + b[n..], n, m - n)
    ensures |s| == |b| && s[..m] == b[..m]
  {
  }

  lemma SameFront<T>(s: seq<T>, t: seq<T>, n: nat)
    requires n <= |s| && n <= |t| && forall k :: 0 <= k < n ==> s[k] == t[k]
    ensures s[..n] == t[..n]
  {
  }
}
