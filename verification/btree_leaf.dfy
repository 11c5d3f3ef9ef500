/** Changing the values of one leaf of a whole tree. */
module BtreeLeaf {
  import opened BtreeValues
  import opened BtreeNodes
  import opened BtreeShape
  import opened BtreeSetVals
  import opened BtreeExcise
  import opened BtreeFollow

  lemma SetFits(h: Heap, root: Node, rightmost: Node, n: Node, v: seq<V>)
    requires Fits(h, root, rightmost) && Settable(h, n, v)
    ensures Fits(SetVals(h, n, v), root, rightmost)
  {
    SetValsEnds(h, root, n, v, h[root].parent);
    SetValsEnds(h, root, n, v, rightmost);
  }

  lemma SetSize(h: Heap, n: Node, v: seq<V>)
    requires Settable(h, n, v)
    ensures n in SetVals(h, n, v) && SetVals(h, n, v)[n].vals == v
  {
  }

  lemma SetPopulated(h: Heap, n: Node, v: seq<V>, bare: set<Node>)
    requires Settable(h, n, v) && Populated(h, {n}) && (v != [] || n in bare)
    ensures Populated(SetVals(h, n, v), bare)
  {
    forall x | x in SetVals(h, n, v) && x !in bare
      ensures SetVals(h, n, v)[x].vals != []
    {
      assert x != n ==> h[x].vals != [];
    }
  }

  lemma WithInside(b: seq<V>, f: seq<V>, a: seq<V>, i: nat, v: V)
    requires i <= |f|
    ensures b + With(f, i, v) + a == With(b + f + a, |b| + i, v)
  {
  }

  lemma CutMiddle(b: seq<V>, f: seq<V>, a: seq<V>, i: nat, k: nat)
    requires i + k <= |f|
    ensures b + (f[..i] + f[i + k..]) + a == (b + f + a)[..|b| + i] + (b + f + a)[|b| + i + k..]
  {
  }

  /** A value put into a leaf goes into the sequence at the same rank. */
  lemma LeafInsert(h: Heap, root: Node, rightmost: Node, n: Node, i: nat, v: V)
    requires Fits(h, root, rightmost) && n in h && h[n].level == 0 && i <= |h[n].vals| && Populated(h, {n})
    ensures var h' := SetVals(h, n, With(h[n].vals, i, v));
            && Fits(h', root, rightmost) && Populated(h', {})
            && Rank(h', root, n, i) == Rank(h, root, n, i) <= |Flat(h, root)|
            && Flat(h', root) == With(Flat(h, root), Rank(h, root, n, i), v)
  {
    var w := With(h[n].vals, i, v);
    SetFits(h, root, rightmost, n, w);
    SetPopulated(h, n, w, {});
    SetLeaf(h, root, n, w);
    WithInside(Before(h, root, n), h[n].vals, After(h, root, n), i, v);
  }

  /** Values taken out of a leaf leave the sequence at the same rank. */
  lemma LeafRemove(h: Heap, root: Node, rightmost: Node, n: Node, i: nat, k: nat)
    requires Fits(h, root, rightmost) && n in h && h[n].level == 0 && i + k <= |h[n].vals| && Populated(h, {n})
    ensures var h' := SetVals(h, n, h[n].vals[..i] + h[n].vals[i + k..]);
            && Fits(h', root, rightmost) && Populated(h', {n})
            && Rank(h', root, n, i) == Rank(h, root, n, i) && Rank(h, root, n, i) + k <= |Flat(h, root)|
            && Flat(h', root) == Flat(h, root)[..Rank(h, root, n, i)] + Flat(h, root)[Rank(h, root, n, i) + k..]
  {
    var w := h[n].vals[..i] + h[n].vals[i + k..];
    SetFits(h, root, rightmost, n, w);
    SetPopulated(h, n, w, {n});
    SetLeaf(h, root, n, w);
    CutMiddle(Before(h, root, n), h[n].vals, After(h, root, n), i, k);
  }

  /** Overwriting the value of one place with `v` overwrites one element, and moves no place. */
  lemma PlaceWrite(h: Heap, root: Node, rightmost: Node, n: Node, i: nat, v: V, x: Node, j: nat)
    requires Fits(h, root, rightmost) && n in h && i < |h[n].vals| && Populated(h, {}) && x in h && j <= |h[x].vals|
    ensures var h' := SetVals(h, n, h[n].vals[i := v]);
            && Fits(h', root, rightmost) && Populated(h', {}) && x in h' && |h'[x].vals| == |h[x].vals|
            && Rank(h', root, x, j) == Rank(h, root, x, j) && Rank(h, root, n, i) < |Flat(h, root)|
            && Flat(h', root) == Flat(h, root)[Rank(h, root, n, i) := v]
  {
    var w := h[n].vals[i := v];
    SetFits(h, root, rightmost, n, w);
    PopulatedMore(h, {}, {n});
    SetPopulated(h, n, w, {});
    SetOne(h, root, n, i, v);
    SetRank(h, root, n, w, x, j);
  }

  /** Moving a value over its successor and removing it in its old place removes the successor. */
  lemma MovedOver(s: seq<V>, k: nat)
    requires 1 <= k < |s|
    ensures Without(s[k := s[k - 1]], k - 1) == Without(s, k)
  {
  }

  // ----- removing a run of an internal node

  lemma ExcisePopulated(h: Heap, n: Node, b: nat, e: nat, dead: set<Node>)
    requires n in h && |h[n].kids| == |h[n].vals| + 1 && b < e < |h[n].vals| && Populated(h, {})
    ensures Populated(Excise(h, n, b, e, dead), {})
  {
    var h' := Excise(h, n, b, e, dead);
    forall x | x in h'
      ensures h'[x].vals != []
    {
      assert h[x].vals != [];
    }
  }

  lemma ExciseRoot(h: Heap, root: Node, n: Node, b: nat, e: nat, dead: set<Node>, x: Node)
    requires Closed(h, root, n, b, e, dead) && x in h && x !in dead
    ensures var h' := Excise(h, n, b, e, dead);
            root in h' && h'[root].parent == h[root].parent && x in h' && h'[x].level == h[x].level && n in h'
            && |h'[n].vals| == |h[n].vals| - (e - b)
  {
  }

  /** What is left after a run has been taken out. */
  lemma ExciseWhole(h: Heap, root: Node, rightmost: Node, n: Node, b: nat, e: nat, dead: set<Node>)
    requires Fits(h, root, rightmost) && Populated(h, {}) && Closed(h, root, n, b, e, dead)
    ensures var h' := Excise(h, n, b, e, dead);
            && Fits(h', root, rightmost) && Populated(h', {}) && Rank(h, root, n, b) <= Rank(h, root, n, e) <= |Flat(h, root)|
            && Flat(h', root) == Flat(h, root)[..Rank(h, root, n, b)] + Flat(h, root)[Rank(h, root, n, e)..]
            && n in h' && |h'[n].vals| == |h[n].vals| - (e - b) && Rank(h', root, n, b) == Rank(h, root, n, b)
  {
    ExcisePopulated(h, n, b, e, dead);
    ExciseEnds(h, root, n, b, e, dead, h[root].parent);
    ExciseEnds(h, root, n, b, e, dead, rightmost);
    ExciseRoot(h, root, n, b, e, dead, h[root].parent);
    ExciseRoot(h, root, n, b, e, dead, rightmost);
    ExciseFlat(h, root, n, b, e, dead);
    ExciseRank(h, root, n, b, e, dead);
  }
}
