/** Iteration and its ends, on whole trees as values. */
module BtreeWalk {
  import opened BtreeNodes
  import opened BtreeShape
  import opened BtreeEdit
  import opened BtreeRank
  import opened BtreeFollow

  /** Only the root has a leaf for a parent. */
  lemma RootTest(h: Heap, root: Node, rightmost: Node, n: Node)
    requires Fits(h, root, rightmost) && n in h
    ensures h[n].parent in h && (h[h[n].parent].level == 0 <==> n == root)
    ensures n != root ==> Up(h, n) && h[n].pos <= |h[h[n].parent].vals| && h[h[n].parent].level == h[n].level + 1 <= h[root].level
  {
    if n != root {
      assert Up(h, n) && Down(h, h[n].parent);
    }
  }

  lemma FitsFacts(h: Heap, root: Node, rightmost: Node)
    requires Fits(h, root, rightmost)
    ensures Tree(h, root) && root in h && h[root].parent in h && rightmost in h && h[rightmost].level == 0
  {
  }

  lemma LeafRank(h: Heap, root: Node, n: Node, i: nat)
    requires Tree(h, root) && n in h && h[n].level == 0 && i <= |h[n].vals|
    ensures Rank(h, root, n, i) == |Before(h, root, n)| + i
  {
    FlatLeaf(h, n);
  }

  /** The place behind the last value of a node stands at the end of the node's span. */
  lemma LastRank(h: Heap, root: Node, n: Node)
    requires Tree(h, root) && n in h
    ensures Rank(h, root, n, |h[n].vals|) == |Before(h, root, n)| + |Flat(h, n)|
  {
  }

  lemma EndRank(h: Heap, root: Node, rightmost: Node)
    requires Fits(h, root, rightmost)
    ensures Rank(h, root, rightmost, |h[rightmost].vals|) == |Flat(h, root)|
  {
    LastRank(h, root, rightmost);
    Zipper(h, root, rightmost);
  }

  lemma BeginRank(h: Heap, root: Node, rightmost: Node)
    requires Fits(h, root, rightmost)
    ensures Rank(h, root, h[root].parent, 0) == 0
  {
    LeafRank(h, root, h[root].parent, 0);
  }

  /** The leaf with nothing behind it is the rightmost one. */
  lemma RightmostOnly(h: Heap, root: Node, rightmost: Node, n: Node)
    requires Fits(h, root, rightmost) && n in h && h[n].level == 0
    requires Rank(h, root, n, |h[n].vals|) == |Flat(h, root)|
    ensures n == rightmost
  {
    LastRank(h, root, n);
    Zipper(h, root, n);
    RightSpineAfter(h, root, n);
    RightSpineAfter(h, root, rightmost);
    RightmostUnique(h, root, n);
    RightmostUnique(h, root, rightmost);
  }

  /** The leaf with nothing in front of it is the leftmost one. */
  lemma LeftmostOnly(h: Heap, root: Node, rightmost: Node, n: Node)
    requires Fits(h, root, rightmost) && n in h && h[n].level == 0 && Before(h, root, n) == []
    ensures n == h[root].parent
  {
    LeftSpineBefore(h, root, n);
    LeftSpineBefore(h, root, h[root].parent);
    LeftmostUnique(h, root, n);
    LeftmostUnique(h, root, h[root].parent);
  }

  /** Stepping down in front of value `i`, or behind it. */
  lemma StepDown(h: Heap, root: Node, n: Node, i: nat)
    requires Tree(h, root) && n in h && h[n].level > 0 && i <= |h[n].vals|
    ensures i < |h[n].kids|
    ensures var c := h[n].kids[i];
            && c in h && h[c].level + 1 == h[n].level
            && |Before(h, root, c)| + |Flat(h, c)| == Rank(h, root, n, i)
            && |Before(h, root, c)| == if i == 0 then |Before(h, root, n)| else Rank(h, root, n, i - 1) + 1
  {
    SpanChild(h, root, n, i);
    BeforeChild(h, root, n, i);
  }

  /** Stepping up from the front of a node. */
  lemma StepUpFront(h: Heap, root: Node, n: Node)
    requires Tree(h, root) && n in h && n != root
    ensures Up(h, n) && h[n].pos <= |h[h[n].parent].vals|
    ensures |Before(h, root, n)| == if h[n].pos == 0 then |Before(h, root, h[n].parent)| else Rank(h, root, h[n].parent, h[n].pos - 1) + 1
  {
    assert Up(h, n) && Down(h, h[n].parent);
    BeforeChild(h, root, h[n].parent, h[n].pos);
  }

  /** A leaf that is its own parent is a whole tree. */
  lemma LoneLeaf(h: Heap, n: Node)
    requires h.Keys == {n} && h[n].level == 0 && h[n].kids == [] && h[n].parent == n
    ensures Fits(h, n, n) && Flat(h, n) == h[n].vals
  {
    FlatLeaf(h, n);
  }

  lemma LeafRootAlone(h: Heap, root: Node)
    requires Tree(h, root) && h[root].level == 0
    ensures h.Keys == {root} && Flat(h, root) == h[root].vals && Before(h, root, root) == []
  {
    FlatLeaf(h, root);
    forall n | n in h
      ensures n == root
    {
      var l := h[n].level;
    }
  }

  lemma AloneKeys(h: Heap, root: Node, n: Node)
    requires h.Keys == {root} && n in h
    ensures n == root
  {
  }

  lemma LoneRanks(h: Heap, root: Node, i: nat)
    requires Tree(h, root) && h[root].level == 0 && i <= |h[root].vals|
    ensures Rank(h, root, root, i) == i
  {
    FlatLeaf(h, root);
  }

  /** A tree whose root holds a value spells a sequence that is not empty. */
  lemma NotEmpty(h: Heap, root: Node)
    requires Tree(h, root) && h[root].vals != []
    ensures Flat(h, root) != []
  {
    RankValue(h, root, root, 0);
  }

  /** Steps from a node up to the root. */
  ghost function Depth(h: Heap, root: Node, n: Node): (d: nat)
    requires Tree(h, root) && n in h
    decreases h[root].level - h[n].level
  {
    if n == root then 0 else assert Up(h, n); 1 + Depth(h, root, h[n].parent)
  }

  /** All leaves are at the same depth. */
  lemma {:induction false} EqualDepth(h: Heap, root: Node, n: Node)
    requires Tree(h, root) && n in h
    ensures Depth(h, root, n) + h[n].level == h[root].level
    decreases h[root].level - h[n].level
  {
    if n != root {
      assert Up(h, n);
      EqualDepth(h, root, h[n].parent);
    }
  }
}
