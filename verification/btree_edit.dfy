/** Replacing what hangs under one node: the rest of the sequence stays in front of and behind it. */
module BtreeEdit {
  import opened BtreeNodes
  import opened Weaving
  import opened BtreeShape

  /** The ancestor of `x` at level `top`. */
  ghost function Ancestor(h: Heap, root: Node, x: Node, top: nat): (a: Node)
    requires Tree(h, root) && x in h && h[x].level <= top <= h[root].level
    ensures a in h && h[a].level == top
    decreases top - h[x].level
  {
    if h[x].level == top then x else assert Up(h, x); Ancestor(h, root, h[x].parent, top)
  }

  /** `x` is `n` or lies somewhere below it. */
  ghost predicate Under(h: Heap, root: Node, x: Node, n: Node)
    requires Tree(h, root) && x in h && n in h
  {
    h[x].level <= h[n].level && (assert h[n].level <= h[root].level; Ancestor(h, root, x, h[n].level) == n)
  }

  /** A child lies under whatever its parent lies under, and under nothing else but itself. */
  lemma UnderChild(h: Heap, root: Node, x: Node, i: nat, n: Node)
    requires Tree(h, root) && x in h && n in h && i < |h[x].kids|
    ensures Child(h, x, i)
    ensures Under(h, root, h[x].kids[i], n) <==> Under(h, root, x, n) || h[x].kids[i] == n
  {
    assert Down(h, x);
    assert Child(h, x, i);
    assert h[n].level <= h[root].level;
  }

  lemma UnderParent(h: Heap, root: Node, x: Node, n: Node)
    requires Tree(h, root) && x in h && n in h && x != root
    ensures Up(h, x)
    ensures Under(h, root, x, n) <==> Under(h, root, h[x].parent, n) || x == n
  {
    assert Up(h, x);
    assert h[n].level <= h[root].level;
  }

  /** Outside the subtree at `n` the two trees are the same, and `n` hangs at the same place. */
  ghost predicate Swapped(h: Heap, h': Heap, root: Node, n: Node)
    requires Tree(h, root) && Tree(h', root) && n in h
  {
    && n in h' && h'[n].level == h[n].level && h'[n].parent == h[n].parent && h'[n].pos == h[n].pos
    && forall x {:trigger Under(h, root, x, n)} :: x in h && !Under(h, root, x, n) ==> x in h' && h'[x] == h[x]
  }

  /** `x` lies beside `n`: neither under it nor above it. */
  ghost predicate Beside(h: Heap, root: Node, x: Node, n: Node)
    requires Tree(h, root) && x in h && n in h
  {
    !Under(h, root, x, n) && !Under(h, root, n, x)
  }

  lemma {:induction false} BesideFlat(h: Heap, h': Heap, root: Node, n: Node, x: Node)
    requires Tree(h, root) && Tree(h', root) && n in h && Swapped(h, h', root, n)
    requires x in h && Beside(h, root, x, n)
    ensures x in h' && h'[x] == h[x]
    ensures Parts(h', x) == Parts(h, x) && Flat(h', x) == Flat(h, x)
    decreases h[x].level
  {
    if h[x].level > 0 {
      forall j | 0 <= j <= |h[x].vals|
        ensures Parts(h', x)[j] == Parts(h, x)[j]
      {
        PartAt(h, x, j);
        PartAt(h', x, j);
        var c := h[x].kids[j];
        BesideChild(h, root, n, x, j);
        BesideFlat(h, h', root, n, c);
      }
      assert Parts(h', x) == Parts(h, x);
    }
  }

  lemma BesideChild(h: Heap, root: Node, n: Node, x: Node, j: nat)
    requires Tree(h, root) && n in h && x in h && Beside(h, root, x, n) && j < |h[x].kids|
    ensures Child(h, x, j) && Beside(h, root, h[x].kids[j], n)
  {
    var c := h[x].kids[j];
    UnderChild(h, root, x, j, n);
    UnderAbove(h, root, n, c);
  }

  /** If `n` lies under `c`, it lies under the parent of `c`. */
  lemma {:induction false} UnderAbove(h: Heap, root: Node, n: Node, c: Node)
    requires Tree(h, root) && n in h && c in h && c != root
    ensures Up(h, c) && (Under(h, root, n, c) ==> Under(h, root, n, h[c].parent))
    decreases h[root].level - h[n].level
  {
    assert Up(h, c);
    if Under(h, root, n, c) && n != c {
      assert n != root;
      UnderParent(h, root, n, c);
      UnderAbove(h, root, h[n].parent, c);
      UnderParent(h, root, n, h[c].parent);
    }
  }

  /** Two nodes of one level above `n` are the same node. */
  lemma UnderUnique(h: Heap, root: Node, n: Node, a: Node, b: Node)
    requires Tree(h, root) && n in h && a in h && b in h
    requires Under(h, root, n, a) && Under(h, root, n, b) && h[a].level == h[b].level
    ensures a == b
  {
  }

  /** The siblings of a node on the way up from `n` lie beside `n`. */
  lemma SiblingBeside(h: Heap, root: Node, n: Node, a: Node, j: nat)
    requires Tree(h, root) && n in h && a in h && a != root && Under(h, root, n, a)
    requires Up(h, a) && j < |h[h[a].parent].kids| && j != h[a].pos
    ensures Child(h, h[a].parent, j) && Beside(h, root, h[h[a].parent].kids[j], n)
  {
    var p := h[a].parent;
    UnderChild(h, root, p, j, n);
    var c := h[p].kids[j];
    assert c != a;
    if Under(h, root, n, c) {
      UnderUnique(h, root, n, a, c);
    }
  }

  /** Every part of a node above `n` is unchanged, except the one that leads to `n`. */
  lemma PathParts(h: Heap, h': Heap, root: Node, n: Node, a: Node)
    requires Tree(h, root) && Tree(h', root) && n in h && Swapped(h, h', root, n)
    requires a in h && a != root && Under(h, root, n, a)
    ensures Up(h, a) && h[a].parent in h' && h'[h[a].parent] == h[h[a].parent]
    ensures var p := h[a].parent;
            forall j :: 0 <= j < |Parts(h, p)| && j != h[a].pos ==> Parts(h', p)[j] == Parts(h, p)[j]
  {
    assert Up(h, a);
    var p := h[a].parent;
    assert !Under(h, root, p, n);
    assert Down(h, p);
    forall j | 0 <= j < |Parts(h, p)| && j != h[a].pos
      ensures Parts(h', p)[j] == Parts(h, p)[j]
    {
      SiblingBeside(h, root, n, a, j);
      BesideFlat(h, h', root, n, h[p].kids[j]);
      PartAt(h, p, j);
      PartAt(h', p, j);
    }
  }

  /** Nothing in front of or behind a node above `n` changes. */
  lemma {:induction false} PathContext(h: Heap, h': Heap, root: Node, n: Node, a: Node)
    requires Tree(h, root) && Tree(h', root) && n in h && Swapped(h, h', root, n)
    requires a in h && Under(h, root, n, a)
    ensures a in h'
    ensures Before(h', root, a) == Before(h, root, a) && After(h', root, a) == After(h, root, a)
    decreases h[root].level - h[a].level
  {
    assert a != n ==> !Under(h, root, a, n);
    if a != root {
      UnderAbove(h, root, n, a);
      var p, i := h[a].parent, h[a].pos;
      PathContext(h, h', root, n, p);
      PathParts(h, h', root, n, a);
      assert Down(h, p);
      assert Up(h', a);
      assert h'[a].parent == p && h'[a].pos == i;
      assert Parts(h', p)[..i] == Parts(h, p)[..i];
      PreSame(h'[p].vals, Parts(h', p), h[p].vals, Parts(h, p), i);
      assert Parts(h', p)[i + 1..] == Parts(h, p)[i + 1..];
      PostSame(h'[p].vals, Parts(h', p), i, h[p].vals, Parts(h, p), i);
    }
  }

  /** Exchanging a subtree exchanges its stretch of the sequence and nothing else. */
  lemma SwapTheorem(h: Heap, h': Heap, root: Node, n: Node)
    requires Tree(h, root) && Tree(h', root) && n in h && Swapped(h, h', root, n)
    ensures Flat(h, root) == Before(h, root, n) + Flat(h, n) + After(h, root, n)
    ensures Flat(h', root) == Before(h, root, n) + Flat(h', n) + After(h, root, n)
    ensures Before(h', root, n) == Before(h, root, n)
  {
    assert Under(h, root, n, n);
    PathContext(h, h', root, n, n);
    Zipper(h, root, n);
    Zipper(h', root, n);
  }

  // ----- the two ends of the sequence

  /** All the way up from `n` there is no left sibling. */
  ghost predicate LeftSpine(h: Heap, root: Node, n: Node)
    requires Tree(h, root) && n in h
    decreases h[root].level - h[n].level
  {
    n == root || (assert Up(h, n); h[n].pos == 0 && LeftSpine(h, root, h[n].parent))
  }

  /** All the way up from `n` there is no right sibling. */
  ghost predicate RightSpine(h: Heap, root: Node, n: Node)
    requires Tree(h, root) && n in h
    decreases h[root].level - h[n].level
  {
    n == root || (assert Up(h, n); h[n].pos == |h[h[n].parent].vals| && RightSpine(h, root, h[n].parent))
  }

  lemma {:induction false} LeftSpineBefore(h: Heap, root: Node, n: Node)
    requires Tree(h, root) && n in h
    ensures LeftSpine(h, root, n) <==> Before(h, root, n) == []
    decreases h[root].level - h[n].level
  {
    if n != root {
      assert Up(h, n);
      assert Down(h, h[n].parent);
      LeftSpineBefore(h, root, h[n].parent);
    }
  }

  lemma {:induction false} RightSpineAfter(h: Heap, root: Node, n: Node)
    requires Tree(h, root) && n in h
    ensures RightSpine(h, root, n) <==> After(h, root, n) == []
    decreases h[root].level - h[n].level
  {
    if n != root {
      assert Up(h, n);
      assert Down(h, h[n].parent);
      RightSpineAfter(h, root, h[n].parent);
    }
  }

  /** The leaf reached from `n` by always taking the first child. */
  ghost function LeftmostLeaf(h: Heap, n: Node): (r: Node)
    requires AllDown(h) && n in h
    decreases h[n].level
  {
    if h[n].level == 0 then n else assert Down(h, n); assert Child(h, n, 0); LeftmostLeaf(h, h[n].kids[0])
  }

  /** The leaf reached from `n` by always taking the last child. */
  ghost function RightmostLeaf(h: Heap, n: Node): (r: Node)
    requires AllDown(h) && n in h
    decreases h[n].level
  {
    if h[n].level == 0 then n else
      assert Down(h, n);
      assert Child(h, n, |h[n].kids| - 1);
      RightmostLeaf(h, h[n].kids[|h[n].kids| - 1])
  }

  /** A leaf has nothing in front of it exactly when the first children lead to it. */
  lemma {:induction false} LeftmostUnique(h: Heap, root: Node, n: Node)
    requires Tree(h, root) && n in h && LeftSpine(h, root, n)
    ensures LeftmostLeaf(h, n) == LeftmostLeaf(h, root)
    decreases h[root].level - h[n].level
  {
    if n != root {
      assert Up(h, n);
      assert Down(h, h[n].parent);
      LeftmostUnique(h, root, h[n].parent);
    }
  }

  lemma {:induction false} RightmostUnique(h: Heap, root: Node, n: Node)
    requires Tree(h, root) && n in h && RightSpine(h, root, n)
    ensures RightmostLeaf(h, n) == RightmostLeaf(h, root)
    decreases h[root].level - h[n].level
  {
    if n != root {
      assert Up(h, n);
      assert Down(h, h[n].parent);
      RightmostUnique(h, root, h[n].parent);
    }
  }
}
