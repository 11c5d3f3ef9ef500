/** Adding a level above the root and taking it away again. */
module BtreeTop {
  import opened BtreeNodes
  import opened BtreeShape
  import opened BtreeKeep

  /** `m` is `h` with an empty node `top` above its root. */
  ghost predicate Topped(h: Heap, root: Node, m: Heap, top: Node) {
    && root in h && top !in h && m.Keys == h.Keys + {top}
    && m[top].level == h[root].level + 1 && m[top].vals == [] && m[top].kids == [root]
    && m[root].level == h[root].level && m[root].vals == h[root].vals && m[root].kids == h[root].kids
    && m[root].parent == top && m[root].pos == 0
    && forall x {:trigger m[x]} :: x in h && x != root ==> m[x] == h[x]
  }

  lemma ToppedDown(h: Heap, root: Node, m: Heap, top: Node)
    requires Topped(h, root, m, top)
    requires AllDown(h)
    requires forall n {:trigger Up(h, n)} :: n in h && n != root ==> Up(h, n)
    requires forall n {:trigger h[n].level} :: n in h && n != root ==> h[n].level < h[root].level
    ensures AllDown(m)
  {
    forall n | n in m
      ensures Down(m, n)
    {
      if n != top {
        assert Down(h, n);
        forall i | 0 <= i < |m[n].kids|
          ensures Child(m, n, i)
        {
          assert Child(h, n, i);
        }
      } else {
        assert Child(m, top, 0);
      }
    }
  }

  lemma GrowTree(h: Heap, root: Node, m: Heap, top: Node)
    requires Tree(h, root) && Topped(h, root, m, top)
    ensures Tree(m, top)
  {
    ToppedDown(h, root, m, top);
    forall n | n in m && n != top
      ensures Up(m, n)
    {
      if n != root {
        assert Up(h, n);
      }
    }
  }

  lemma ShrinkTree(h: Heap, root: Node, m: Heap, top: Node)
    requires Tree(m, top) && Topped(h, root, m, top)
    ensures Tree(h, root)
  {
    forall n | n in h
      ensures Down(h, n)
    {
      assert Down(m, n);
      forall i | 0 <= i < |h[n].kids|
        ensures Child(h, n, i)
      {
        assert Child(m, n, i);
      }
    }
    forall n | n in h && n != root
      ensures Up(h, n) && h[n].level < h[root].level
    {
      assert Up(m, n);
    }
  }

  lemma {:induction false} TopFlat(h: Heap, root: Node, m: Heap, top: Node, n: Node)
    requires Tree(h, root) && Tree(m, top) && Topped(h, root, m, top) && n in h
    ensures Parts(m, n) == Parts(h, n) && Flat(m, n) == Flat(h, n)
    decreases h[n].level
  {
    if h[n].level > 0 {
      forall j | 0 <= j <= |h[n].vals|
        ensures Parts(m, n)[j] == Parts(h, n)[j]
      {
        PartAt(h, n, j);
        PartAt(m, n, j);
        TopFlat(h, root, m, top, h[n].kids[j]);
      }
      assert Parts(m, n) == Parts(h, n);
    }
  }

  lemma {:induction false} TopContext(h: Heap, root: Node, m: Heap, top: Node, n: Node)
    requires Tree(h, root) && Tree(m, top) && Topped(h, root, m, top) && n in h
    ensures Before(m, top, n) == Before(h, root, n) && After(m, top, n) == After(h, root, n)
    decreases h[root].level - h[n].level
  {
    assert Up(m, n);
    if n != root {
      assert Up(h, n);
      var p := h[n].parent;
      TopContext(h, root, m, top, p);
      TopFlat(h, root, m, top, p);
    }
  }

  /** An empty node on top changes nothing below. */
  lemma TopKeeps(h: Heap, root: Node, m: Heap, top: Node)
    requires Tree(h, root) && Tree(m, top) && Topped(h, root, m, top)
    ensures Keeps(h, root, m, top, h[root].level + 1)
  {
    PartAt(m, top, 0);
    TopFlat(h, root, m, top, root);
    assert Flat(m, top) == Flat(h, root);
    forall n | n in h && h[n].level < h[root].level + 1
      ensures SamePlace(h, root, m, top, n)
    {
      TopFlat(h, root, m, top, n);
      TopContext(h, root, m, top, n);
    }
  }

  /** The only child of an empty root, as the root of what is left. */
  lemma ShrinkTopped(h: Heap, child: Node, m: Heap, top: Node)
    requires Tree(m, top) && m[top].vals == [] && m[top].level > 0 && |m[top].kids| > 0 && child == m[top].kids[0]
    requires h.Keys == m.Keys - {top} && child in h && child in m && h[child] == m[child].(parent := h[child].parent)
    requires forall x {:trigger h[x]} :: x in h && x != child ==> h[x] == m[x]
    ensures Topped(h, child, m, top)
  {
    assert Down(m, top) && Child(m, top, 0);
  }
}
