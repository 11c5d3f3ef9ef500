/** The linked nodes of a B-tree as a finite map, and what it means for them to form a tree. */
module BtreeShape {
  import opened BtreeValues
  import opened BtreeNodes
  import opened Weaving

  type Heap = map<Node, Rec>

  ghost predicate Child(h: Heap, n: Node, i: nat)
    requires n in h && i < |h[n].kids|
  {
    var c := h[n].kids[i];
    c in h && h[c].level + 1 == h[n].level && h[c].parent == n && h[c].pos == i
  }

  /** `n` sits correctly above its children. */
  ghost predicate Down(h: Heap, n: Node)
    requires n in h
  {
    && (h[n].level == 0 ==> h[n].kids == [])
    && (h[n].level > 0 ==> |h[n].kids| == |h[n].vals| + 1)
    && forall i {:trigger Child(h, n, i)} :: 0 <= i < |h[n].kids| ==> Child(h, n, i)
  }

  /** `n` sits correctly below its parent. */
  ghost predicate Up(h: Heap, n: Node)
    requires n in h
  {
    var p := h[n].parent;
    p in h && h[p].level == h[n].level + 1 && h[n].pos < |h[p].kids| && h[p].kids[h[n].pos] == n
  }

  ghost predicate AllDown(h: Heap) {
    forall n {:trigger Down(h, n)} :: n in h ==> Down(h, n)
  }

  /** One tree with all leaves at level 0: child, parent and position links agree everywhere. */
  ghost predicate Tree(h: Heap, root: Node) {
    && root in h
    && AllDown(h)
    && (forall n {:trigger Up(h, n)} :: n in h && n != root ==> Up(h, n))
    && (forall n {:trigger h[n].level} :: n in h && n != root ==> h[n].level < h[root].level)
  }

  /** The contents of the subtrees between the values of `n`; a leaf has empty ones. */
  ghost function Parts(h: Heap, n: Node): (r: seq<seq<V>>)
    requires AllDown(h) && n in h
    ensures |r| == |h[n].vals| + 1
    decreases h[n].level, 0
  {
    if h[n].level == 0 then
      seq(|h[n].vals| + 1, _ => [])
    else
      assert Down(h, n);
      seq(|h[n].kids|, i requires 0 <= i < |h[n].kids| => assert Child(h, n, i); Flat(h, h[n].kids[i]))
  }

  /** The in-order contents of the subtree at `n`. */
  ghost function Flat(h: Heap, n: Node): (r: seq<V>)
    requires AllDown(h) && n in h
    decreases h[n].level, 1
  {
    Weave(h[n].vals, Parts(h, n))
  }

  /** Everything in order in front of the subtree at `n`. */
  ghost function Before(h: Heap, root: Node, n: Node): (r: seq<V>)
    requires Tree(h, root) && n in h
    decreases h[root].level - h[n].level
  {
    if n == root then [] else
      assert Up(h, n);
      var p := h[n].parent;
      assert Down(h, p);
      Before(h, root, p) + Pre(h[p].vals, Parts(h, p), h[n].pos)
  }

  /** Everything in order behind the subtree at `n`. */
  ghost function After(h: Heap, root: Node, n: Node): (r: seq<V>)
    requires Tree(h, root) && n in h
    decreases h[root].level - h[n].level
  {
    if n == root then [] else
      assert Up(h, n);
      var p := h[n].parent;
      assert Down(h, p);
      Post(h[p].vals, Parts(h, p), h[n].pos) + After(h, root, p)
  }

  /** The in-order index an iterator at value `i` of node `n` denotes. */
  ghost function Rank(h: Heap, root: Node, n: Node, i: nat): (r: nat)
    requires Tree(h, root) && n in h && i <= |h[n].vals|
  {
    |Before(h, root, n)| + Offset(h[n].vals, Parts(h, n), i)
  }

  lemma PartAt(h: Heap, n: Node, i: nat)
    requires AllDown(h) && n in h && h[n].level > 0 && i <= |h[n].vals|
    ensures |h[n].kids| == |h[n].vals| + 1 && Child(h, n, i)
    ensures Parts(h, n)[i] == Flat(h, h[n].kids[i])
  {
    assert Down(h, n);
    assert Child(h, n, i);
  }

  /** A leaf's contents are its values. */
  lemma FlatLeaf(h: Heap, n: Node)
    requires AllDown(h) && n in h && h[n].level == 0
    ensures Flat(h, n) == h[n].vals
    ensures forall i :: 0 <= i <= |h[n].vals| ==> Offset(h[n].vals, Parts(h, n), i) == i
  {
    forall i | 0 <= i <= |h[n].vals|
      ensures Pre(h[n].vals, Parts(h, n), i) == h[n].vals[..i]
    {
      PreBare(h[n].vals, Parts(h, n), i);
    }
  }

  /** The whole sequence seen from any node. */
  lemma {:induction false} Zipper(h: Heap, root: Node, n: Node)
    requires Tree(h, root) && n in h
    ensures Flat(h, root) == Before(h, root, n) + Flat(h, n) + After(h, root, n)
    decreases h[root].level - h[n].level
  {
    if n != root {
      assert Up(h, n);
      var p := h[n].parent;
      assert Down(h, p);
      Zipper(h, root, p);
      var vals, parts, i := h[p].vals, Parts(h, p), h[n].pos;
      PartAt(h, p, i);
      WeaveAt(vals, parts, i);
      Regroup(Before(h, root, p), Pre(vals, parts, i), Flat(h, n), Post(vals, parts, i), After(h, root, p));
    }
  }

  /** An iterator's rank finds its value in the sequence. */
  lemma RankValue(h: Heap, root: Node, n: Node, i: nat)
    requires Tree(h, root) && n in h && i < |h[n].vals|
    ensures Rank(h, root, n, i) < |Flat(h, root)|
    ensures Flat(h, root)[Rank(h, root, n, i)] == h[n].vals[i]
  {
    Zipper(h, root, n);
    OffsetValue(h[n].vals, Parts(h, n), i);
  }

  lemma RankBound(h: Heap, root: Node, n: Node, i: nat)
    requires Tree(h, root) && n in h && i <= |h[n].vals|
    ensures Rank(h, root, n, i) <= |Flat(h, root)|
  {
    Zipper(h, root, n);
    OffsetMonotone(h[n].vals, Parts(h, n), i, |h[n].vals|);
  }

  /** The position behind a node's last value is its own position in its parent. */
  lemma RankClimb(h: Heap, root: Node, n: Node)
    requires Tree(h, root) && n in h && n != root
    ensures Up(h, n) && h[n].pos <= |h[h[n].parent].vals|
    ensures Rank(h, root, n, |h[n].vals|) == Rank(h, root, h[n].parent, h[n].pos)
  {
    assert Up(h, n);
    var p := h[n].parent;
    assert Down(h, p);
    PartAt(h, p, h[n].pos);
  }

  /** Child `i` starts where value `i - 1` ends. */
  lemma BeforeChild(h: Heap, root: Node, n: Node, i: nat)
    requires Tree(h, root) && n in h && h[n].level > 0 && i <= |h[n].vals|
    ensures |h[n].kids| == |h[n].vals| + 1 && Child(h, n, i)
    ensures Before(h, root, h[n].kids[i]) == Before(h, root, n) + Pre(h[n].vals, Parts(h, n), i)
    ensures |Before(h, root, h[n].kids[i])| == if i == 0 then |Before(h, root, n)| else Rank(h, root, n, i - 1) + 1
  {
    PartAt(h, n, i);
    assert h[h[n].kids[i]].level < h[n].level <= h[root].level;
  }
}
