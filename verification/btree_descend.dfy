/** Searching down a tree whose sequence is in order. */
module BtreeDescend {
  import opened BtreeValues
  import opened BtreeNodes
  import opened Weaving
  import opened BtreeShape
  import opened BtreeWalk
  import opened BtreeSearch

  /** The values of a node stand in the sequence in their order. */
  lemma RankOrder(h: Heap, root: Node, n: Node, i: nat, j: nat)
    requires Tree(h, root) && n in h && i < j < |h[n].vals|
    ensures Rank(h, root, n, i) < Rank(h, root, n, j) < |Flat(h, root)|
    ensures Flat(h, root)[Rank(h, root, n, i)] == h[n].vals[i] && Flat(h, root)[Rank(h, root, n, j)] == h[n].vals[j]
  {
    OffsetMonotone(h[n].vals, Parts(h, n), i, j);
    RankValue(h, root, n, i);
    RankValue(h, root, n, j);
  }

  lemma NodeMonotone(h: Heap, root: Node, n: Node, k: V, test: Test)
    requires Tree(h, root) && n in h && Monotone(Flat(h, root), k, test)
    ensures Monotone(h[n].vals, k, test)
  {
    forall i, j | 0 <= i < j < |h[n].vals| && test(h[n].vals[j], k)
      ensures test(h[n].vals[i], k)
    {
      RankOrder(h, root, n, i, j);
    }
  }

  lemma NodeSorted(h: Heap, root: Node, n: Node)
    requires Tree(h, root) && n in h && Sorted(Flat(h, root))
    ensures Sorted(h[n].vals) && (Strict(Flat(h, root)) ==> Strict(h[n].vals))
  {
    forall i, j | 0 <= i < j < |h[n].vals|
      ensures !Less(h[n].vals[j], h[n].vals[i]) && (Strict(Flat(h, root)) ==> Less(h[n].vals[i], h[n].vals[j]))
    {
      RankOrder(h, root, n, i, j);
    }
  }

  /** The place `r` that splits the sequence lies in the span of `n`. */
  ghost predicate Spans(h: Heap, root: Node, n: Node, r: int)
    requires Tree(h, root) && n in h
  {
    |Before(h, root, n)| <= r <= |Before(h, root, n)| + |Flat(h, n)|
  }

  /** Where a split of the values of one node leaves the split of the whole sequence. */
  lemma SplitWithin(h: Heap, root: Node, n: Node, k: V, test: Test, r: int, p: int)
    requires Tree(h, root) && n in h && Splits(Flat(h, root), k, test, r) && Splits(h[n].vals, k, test, p)
    ensures p > 0 ==> Rank(h, root, n, p - 1) < r
    ensures p < |h[n].vals| ==> r <= Rank(h, root, n, p)
  {
    if p > 0 {
      RankValue(h, root, n, p - 1);
    }
    if p < |h[n].vals| {
      RankValue(h, root, n, p);
    }
  }

  /** The search goes on in the child that spans the place. */
  lemma SplitDown(h: Heap, root: Node, n: Node, k: V, test: Test, r: int, p: int)
    requires Tree(h, root) && n in h && h[n].level > 0 && Spans(h, root, n, r)
    requires Splits(Flat(h, root), k, test, r) && Splits(h[n].vals, k, test, p)
    ensures p < |h[n].kids| && h[n].kids[p] in h && h[h[n].kids[p]].level < h[n].level && Spans(h, root, h[n].kids[p], r)
  {
    SplitWithin(h, root, n, k, test, r, p);
    StepDown(h, root, n, p);
    LastRank(h, root, n);
  }

  /** On a leaf the search has found the place. */
  lemma SplitFound(h: Heap, root: Node, n: Node, k: V, test: Test, r: int, p: int)
    requires Tree(h, root) && n in h && h[n].level == 0 && Spans(h, root, n, r)
    requires Splits(Flat(h, root), k, test, r) && Splits(h[n].vals, k, test, p)
    ensures Rank(h, root, n, p) == r
  {
    SplitWithin(h, root, n, k, test, r, p);
    LastRank(h, root, n);
    LeafRank(h, root, n, p);
    if p > 0 {
      LeafRank(h, root, n, p - 1);
    }
  }

  lemma SpansRoot(h: Heap, root: Node, r: int)
    requires Tree(h, root) && 0 <= r <= |Flat(h, root)|
    ensures Spans(h, root, root, r)
  {
  }

  /** Behind the span of `n` the values are greater than the key. */
  ghost predicate Greater(h: Heap, root: Node, n: Node, k: V)
    requires Tree(h, root) && n in h
  {
    var u := |Before(h, root, n)| + |Flat(h, n)|;
    u < |Flat(h, root)| ==> Less(k, Flat(h, root)[u])
  }

  lemma GreaterRoot(h: Heap, root: Node, k: V)
    requires Tree(h, root)
    ensures Greater(h, root, root, k)
  {
  }

  lemma GreaterDown(h: Heap, root: Node, n: Node, k: V, p: nat)
    requires Tree(h, root) && n in h && h[n].level > 0 && p <= |h[n].vals| && Greater(h, root, n, k)
    requires p < |h[n].vals| ==> Less(k, h[n].vals[p])
    ensures p < |h[n].kids| && h[n].kids[p] in h && Greater(h, root, h[n].kids[p], k)
  {
    StepDown(h, root, n, p);
    LastRank(h, root, n);
    if p < |h[n].vals| {
      RankValue(h, root, n, p);
    }
  }

  lemma GreaterLeaf(h: Heap, root: Node, n: Node, k: V, p: nat)
    requires Tree(h, root) && n in h && p <= |h[n].vals| && Greater(h, root, n, k)
    requires p < |h[n].vals| ==> Less(k, h[n].vals[p])
    ensures var r := Rank(h, root, n, p);
            r < |Flat(h, root)| ==> Less(k, Flat(h, root)[r])
  {
    LastRank(h, root, n);
    if p < |h[n].vals| {
      RankValue(h, root, n, p);
    }
  }

  // ----- bounds handed down by the structure check

  /** The values next to the span of `n`. */
  ghost predicate Framed(h: Heap, root: Node, n: Node, lo: seq<V>, hi: seq<V>)
    requires Tree(h, root) && n in h
  {
    var f, b, u := Flat(h, root), |Before(h, root, n)|, |Before(h, root, n)| + |Flat(h, n)|;
    && (lo == [] || (0 < b <= |f| && lo == [f[b - 1]]))
    && (hi == [] || (u < |f| && hi == [f[u]]))
  }

  lemma FramedRoot(h: Heap, root: Node)
    requires Tree(h, root)
    ensures Framed(h, root, root, [], [])
  {
  }

  lemma FramedChild(h: Heap, root: Node, n: Node, i: nat, lo: seq<V>, hi: seq<V>)
    requires Tree(h, root) && n in h && h[n].level > 0 && i <= |h[n].vals| && Framed(h, root, n, lo, hi)
    ensures i < |h[n].kids| && h[n].kids[i] in h
    ensures Framed(h, root, h[n].kids[i], if i == 0 then lo else [h[n].vals[i - 1]], if i == |h[n].vals| then hi else [h[n].vals[i]])
  {
    hide Tree, Flat, Before, Rank;
    StepDown(h, root, n, i);
    LastRank(h, root, n);
    if i > 0 {
      RankValue(h, root, n, i - 1);
    }
    if i < |h[n].vals| {
      RankValue(h, root, n, i);
    }
  }

  lemma FramedOrder(h: Heap, root: Node, n: Node, lo: seq<V>, hi: seq<V>)
    requires Tree(h, root) && n in h && h[n].vals != [] && Sorted(Flat(h, root)) && Framed(h, root, n, lo, hi)
    ensures lo != [] ==> !Less(h[n].vals[0], lo[0])
    ensures hi != [] ==> !Less(hi[0], h[n].vals[|h[n].vals| - 1])
  {
    var last := |h[n].vals| - 1;
    RankValue(h, root, n, 0);
    RankValue(h, root, n, last);
    LastRank(h, root, n);
    OffsetMonotone(h[n].vals, Parts(h, n), last, last + 1);
  }

  /** How many values stand in the children in front of child `i`, and in child `i`. */
  lemma ChildSize(h: Heap, root: Node, n: Node, i: nat)
    requires Tree(h, root) && n in h && h[n].level > 0 && i <= |h[n].vals|
    ensures i < |h[n].kids| && h[n].kids[i] in h
    ensures |Flat(h, h[n].kids[i])| == Rank(h, root, n, i) - if i == 0 then |Before(h, root, n)| else Rank(h, root, n, i - 1) + 1
  {
    StepDown(h, root, n, i);
  }
}
