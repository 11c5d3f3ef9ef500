/** Joining two neighbouring siblings around their delimiter, and cutting a node in two. */
module BtreeJoin {
  import opened BtreeValues
  import opened BtreeNodes
  import opened Weaving
  import opened BtreeShape

  /** `r` follows `l` under the same parent. */
  ghost predicate Siblings(h: Heap, l: Node, r: Node) {
    && l in h && r in h && Up(h, l) && Up(h, r)
    && h[l].parent == h[r].parent && h[l].pos + 1 == h[r].pos
  }

  /** `c` is a child of `n`; the level test rules out the root, whose parent link is the leftmost leaf. */
  ghost predicate Below(h: Heap, c: Node, n: Node)
    requires c in h && n in h
  {
    h[c].parent == n && h[c].level < h[n].level
  }

  ghost function JoinRec(h: Heap, l: Node, r: Node, n: Node): (x: Rec)
    requires Siblings(h, l, r) && n in h
    requires h[l].pos < |h[h[l].parent].vals|
  {
    var p, i := h[l].parent, h[l].pos;
    if n == l then
      h[l].(vals := h[l].vals + [h[p].vals[i]] + h[r].vals, kids := h[l].kids + h[r].kids)
    else if n == p then
      h[p].(vals := Without(h[p].vals, i), kids := Without(h[p].kids, i + 1))
    else if Below(h, n, r) then
      h[n].(parent := l, pos := |h[l].kids| + h[n].pos)
    else if Below(h, n, p) && h[n].pos > i + 1 then
      h[n].(pos := h[n].pos - 1)
    else
      h[n]
  }

  /** The tree in which `l` has taken over the delimiter and everything of `r`. */
  ghost function Join(h: Heap, l: Node, r: Node): (m: Heap)
    requires Siblings(h, l, r)
    requires h[l].pos < |h[h[l].parent].vals|
  {
    map n | n in h && n != r :: JoinRec(h, l, r, n)
  }

  lemma SiblingFacts(h: Heap, root: Node, l: Node, r: Node)
    requires Tree(h, root) && Siblings(h, l, r)
    ensures l != r && l != root && r != root && h[l].parent != l && h[l].parent != r
    ensures h[l].pos < |h[h[l].parent].vals|
    ensures h[h[l].parent].level == h[l].level + 1 == h[r].level + 1
  {
    assert Down(h, h[l].parent);
  }

  lemma JoinChildLeft(h: Heap, root: Node, l: Node, r: Node, j: nat)
    requires Tree(h, root) && Siblings(h, l, r) && h[l].pos < |h[h[l].parent].vals|
    requires l != r && l in Join(h, l, r) && j < |Join(h, l, r)[l].kids|
    ensures Child(Join(h, l, r), l, j)
  {
    SiblingFacts(h, root, l, r);
    assert Down(h, l) && Down(h, r);
    if j < |h[l].kids| {
      assert Child(h, l, j);
    } else {
      assert Child(h, r, j - |h[l].kids|);
    }
  }

  lemma JoinChild(h: Heap, root: Node, l: Node, r: Node, n: Node, j: nat)
    requires Tree(h, root) && Siblings(h, l, r) && h[l].pos < |h[h[l].parent].vals|
    requires n in h && n != l && n != r && n in Join(h, l, r) && j < |Join(h, l, r)[n].kids|
    ensures Child(Join(h, l, r), n, j)
  {
    SiblingFacts(h, root, l, r);
    assert Down(h, n);
    assert Child(h, n, if n == h[l].parent && j > h[l].pos then j + 1 else j);
  }

  lemma JoinDown(h: Heap, root: Node, l: Node, r: Node, n: Node)
    requires Tree(h, root) && Siblings(h, l, r) && n in h && n != r
    requires h[l].pos < |h[h[l].parent].vals|
    ensures n in Join(h, l, r) && Down(Join(h, l, r), n)
  {
    SiblingFacts(h, root, l, r);
    var m := Join(h, l, r);
    assert Down(h, n) && Down(h, l) && Down(h, r);
    forall j | 0 <= j < |m[n].kids|
      ensures Child(m, n, j)
    {
      if n == l {
        JoinChildLeft(h, root, l, r, j);
      } else {
        JoinChild(h, root, l, r, n, j);
      }
    }
    hide Child, Tree;
  }

  lemma JoinUpRight(h: Heap, root: Node, l: Node, r: Node, n: Node)
    requires Tree(h, root) && Siblings(h, l, r) && n in h && n != r && n != root && h[n].parent == r
    requires h[l].pos < |h[h[l].parent].vals|
    ensures n in Join(h, l, r) && Up(Join(h, l, r), n)
  {
    SiblingFacts(h, root, l, r);
    assert Up(h, n);
    assert Down(h, l) && Down(h, r);
    hide Tree, Down;
  }

  lemma JoinUp(h: Heap, root: Node, l: Node, r: Node, n: Node)
    requires Tree(h, root) && Siblings(h, l, r) && n in h && n != r && n != root
    requires h[l].pos < |h[h[l].parent].vals|
    ensures n in Join(h, l, r) && Up(Join(h, l, r), n)
  {
    SiblingFacts(h, root, l, r);
    assert Up(h, n);
    assert Down(h, h[n].parent);
    if h[n].parent == r {
      JoinUpRight(h, root, l, r, n);
    }
    hide Tree, Down;
  }

  lemma JoinTree(h: Heap, root: Node, l: Node, r: Node)
    requires Tree(h, root) && Siblings(h, l, r)
    ensures h[l].pos < |h[h[l].parent].vals| && Tree(Join(h, l, r), root)
  {
    SiblingFacts(h, root, l, r);
    var m := Join(h, l, r);
    assert AllDown(m) by {
      forall n | n in m
        ensures Down(m, n)
      {
        JoinDown(h, root, l, r, n);
      }
    }
    assert forall n {:trigger Up(m, n)} :: n in m && n != root ==> Up(m, n) by {
      forall n | n in m && n != root
        ensures Up(m, n)
      {
        JoinUp(h, root, l, r, n);
      }
    }
  }

  /** Joining changes the contents of no subtree but that of `l`, which swallows the delimiter and `r`. */
  lemma {:induction false} JoinFlat(h: Heap, root: Node, l: Node, r: Node, n: Node)
    requires Tree(h, root) && Siblings(h, l, r) && n in h && n != r
    requires h[l].pos < |h[h[l].parent].vals| && Tree(Join(h, l, r), root)
    ensures Flat(Join(h, l, r), n)
            == if n == l then Flat(h, l) + [h[h[l].parent].vals[h[l].pos]] + Flat(h, r) else Flat(h, n)
    decreases h[n].level
  {
    SiblingFacts(h, root, l, r);
    var m := Join(h, l, r);
    if n == l {
      JoinFlatLeft(h, root, l, r);
    } else if n == h[l].parent {
      JoinFlatParent(h, root, l, r);
    } else if h[n].level > 0 {
      forall j | 0 <= j <= |h[n].vals|
        ensures Parts(m, n)[j] == Parts(h, n)[j]
      {
        PartAt(h, n, j);
        PartAt(m, n, j);
        JoinFlat(h, root, l, r, h[n].kids[j]);
      }
      assert Parts(m, n) == Parts(h, n);
    }
  }

  lemma {:induction false} JoinFlatLeft(h: Heap, root: Node, l: Node, r: Node)
    requires Tree(h, root) && Siblings(h, l, r)
    requires h[l].pos < |h[h[l].parent].vals| && Tree(Join(h, l, r), root)
    ensures Parts(Join(h, l, r), l) == Parts(h, l) + Parts(h, r)
    ensures Flat(Join(h, l, r), l) == Flat(h, l) + [h[h[l].parent].vals[h[l].pos]] + Flat(h, r)
    decreases h[l].level, 0
  {
    SiblingFacts(h, root, l, r);
    var m := Join(h, l, r);
    if h[l].level > 0 {
      assert Down(h, l) && Down(h, r);
      forall j | 0 <= j < |m[l].kids|
        ensures Parts(m, l)[j] == (Parts(h, l) + Parts(h, r))[j]
      {
        PartAt(m, l, j);
        if j < |h[l].kids| {
          PartAt(h, l, j);
        } else {
          PartAt(h, r, j - |h[l].kids|);
        }
        JoinFlat(h, root, l, r, m[l].kids[j]);
      }
    }
    assert Parts(m, l) == Parts(h, l) + Parts(h, r);
    WeaveConcat(h[l].vals, Parts(h, l), h[h[l].parent].vals[h[l].pos], h[r].vals, Parts(h, r));
  }

  lemma {:induction false} JoinFlatParent(h: Heap, root: Node, l: Node, r: Node)
    requires Tree(h, root) && Siblings(h, l, r)
    requires h[l].pos < |h[h[l].parent].vals| && Tree(Join(h, l, r), root)
    ensures h[l].parent != r && h[h[l].parent].level > 0
    ensures var p := h[l].parent;
            |Parts(h, p)| == |h[p].vals| + 1 && Parts(Join(h, l, r), p) == Fuse(h[p].vals, Parts(h, p), h[l].pos)
    ensures Flat(Join(h, l, r), h[l].parent) == Flat(h, h[l].parent)
    decreases h[l].level + 1, 2
  {
    SiblingFacts(h, root, l, r);
    var m, p, i := Join(h, l, r), h[l].parent, h[l].pos;
    assert m[p].vals == Without(h[p].vals, i);
    forall j | 0 <= j <= |m[p].vals|
      ensures Parts(m, p)[j] == Fuse(h[p].vals, Parts(h, p), i)[j]
    {
      JoinPartAt(h, root, l, r, j);
    }
    hide Parts, Join;
    assert Parts(m, p) == Fuse(h[p].vals, Parts(h, p), i);
    WeaveFuse(h[p].vals, Parts(h, p), i);
  }

  lemma {:induction false} JoinPartAt(h: Heap, root: Node, l: Node, r: Node, j: nat)
    requires Tree(h, root) && Siblings(h, l, r) && h[l].parent != r
    requires h[l].pos < |h[h[l].parent].vals| && Tree(Join(h, l, r), root) && j < |h[h[l].parent].vals|
    ensures var p := h[l].parent;
            Parts(Join(h, l, r), p)[j] == Fuse(h[p].vals, Parts(h, p), h[l].pos)[j]
    decreases h[l].level + 1, 1
  {
    SiblingFacts(h, root, l, r);
    var p, i := h[l].parent, h[l].pos;
    if j == i {
      JoinPartLeft(h, root, l, r);
    } else {
      JoinPartElse(h, root, l, r, j);
    }
  }

  lemma {:induction false} JoinPartLeft(h: Heap, root: Node, l: Node, r: Node)
    requires Tree(h, root) && Siblings(h, l, r) && h[l].parent != r
    requires h[l].pos < |h[h[l].parent].vals| && Tree(Join(h, l, r), root)
    ensures var p, i := h[l].parent, h[l].pos;
            Parts(Join(h, l, r), p)[i] == Parts(h, p)[i] + [h[p].vals[i]] + Parts(h, p)[i + 1]
    decreases h[l].level + 1, 0
  {
    SiblingFacts(h, root, l, r);
    var m, p, i := Join(h, l, r), h[l].parent, h[l].pos;
    assert Down(h, p) && m[p].kids == Without(h[p].kids, i + 1);
    hide Parts, Flat, Join, Tree, Down;
    PartAt(m, p, i);
    PartAt(h, p, i);
    PartAt(h, p, i + 1);
    JoinFlatLeft(h, root, l, r);
  }

  lemma {:induction false} JoinPartElse(h: Heap, root: Node, l: Node, r: Node, j: nat)
    requires Tree(h, root) && Siblings(h, l, r) && h[l].parent != r
    requires h[l].pos < |h[h[l].parent].vals| && Tree(Join(h, l, r), root) && j < |h[h[l].parent].vals| && j != h[l].pos
    ensures var p := h[l].parent;
            Parts(Join(h, l, r), p)[j] == Parts(h, p)[if j < h[l].pos then j else j + 1]
    decreases h[l].level + 1, 0
  {
    SiblingFacts(h, root, l, r);
    var m, p, i := Join(h, l, r), h[l].parent, h[l].pos;
    assert Down(h, p) && m[p].kids == Without(h[p].kids, i + 1);
    PartAt(m, p, j);
    PartAt(h, p, if j < i then j else j + 1);
    JoinFlat(h, root, l, r, m[p].kids[j]);
  }

  /** Joining moves nothing: every surviving node keeps what stands in front of it. */
  lemma {:induction false} JoinBefore(h: Heap, root: Node, l: Node, r: Node, n: Node)
    requires Tree(h, root) && Siblings(h, l, r) && n in h && n != r
    requires h[l].pos < |h[h[l].parent].vals| && Tree(Join(h, l, r), root)
    ensures Before(Join(h, l, r), root, n) == Before(h, root, n)
    decreases h[root].level - h[n].level
  {
    if n != root {
      JoinedNode(h, root, l, r, n);
      var q := Join(h, l, r)[n].parent;
      JoinBefore(h, root, l, r, q);
      hide *;
      if q == l {
        JoinBeforeChild(h, root, l, r, n);
      } else if q == h[l].parent {
        JoinBeforeUnder(h, root, l, r, n);
      } else {
        BeforeIs(h, root, n);
        BeforeIs(Join(h, l, r), root, n);
        SameParts(h, root, l, r, q);
      }
    }
  }

  /** What joining does to the parent of `n` and above it. */
  lemma JoinedNode(h: Heap, root: Node, l: Node, r: Node, n: Node)
    requires Tree(h, root) && Siblings(h, l, r) && n in h && n != r && n != root
    requires h[l].pos < |h[h[l].parent].vals| && Tree(Join(h, l, r), root)
    ensures n in Join(h, l, r) && l in Join(h, l, r) && h[l].parent in Join(h, l, r)
    ensures var m := Join(h, l, r);
            var q := m[n].parent;
            && q in m && q in h && q != r && h[n].level < h[q].level <= h[root].level
            && (q != l && q != h[l].parent ==> q == h[n].parent && m[n].pos == h[n].pos && m[q].vals == h[q].vals)
  {
    SiblingFacts(h, root, l, r);
    assert Up(Join(h, l, r), n) && Up(h, n);
  }

  /** How the links of a node change when the nodes next to it are joined. */
  lemma JoinMoved(h: Heap, root: Node, l: Node, r: Node, n: Node)
    requires Tree(h, root) && Siblings(h, l, r) && n in h && n != r && n != root
    requires h[l].pos < |h[h[l].parent].vals|
    ensures n in Join(h, l, r)
    ensures var m, p, i := Join(h, l, r), h[l].parent, h[l].pos;
            && (m[n].parent == p ==> h[n].parent == p && h[n].pos == if m[n].pos <= i then m[n].pos else m[n].pos + 1)
            && (m[n].parent == l ==> || (h[n].parent == l && h[n].pos == m[n].pos < |h[l].kids|)
                                     || (h[n].parent == r && m[n].pos == |h[l].kids| + h[n].pos))
  {
    SiblingFacts(h, root, l, r);
    assert Up(h, n);
  }

  lemma BeforeIs(h: Heap, root: Node, n: Node)
    requires Tree(h, root) && n in h && n != root
    ensures var p := h[n].parent;
            && p in h && h[n].pos <= |h[p].vals| && |Parts(h, p)| == |h[p].vals| + 1
            && Before(h, root, n) == Before(h, root, p) + Pre(h[p].vals, Parts(h, p), h[n].pos)
  {
    assert Up(h, n) && Down(h, h[n].parent);
    hide Parts, Pre;
  }

  lemma JoinedParent(h: Heap, root: Node, l: Node, r: Node)
    requires Tree(h, root) && Siblings(h, l, r) && h[l].pos < |h[h[l].parent].vals|
    ensures AllDown(h) && l in h && h[l].parent in h
    ensures h[l].parent in Join(h, l, r) && Join(h, l, r)[h[l].parent].vals == Without(h[h[l].parent].vals, h[l].pos)
    ensures |Join(h, l, r)[h[l].parent].vals| == |h[h[l].parent].vals| - 1
  {
    SiblingFacts(h, root, l, r);
  }

  lemma {:induction false} JoinBeforeUnder(h: Heap, root: Node, l: Node, r: Node, n: Node)
    requires Tree(h, root) && Siblings(h, l, r) && n in h && n != r && n != root
    requires h[l].pos < |h[h[l].parent].vals| && Tree(Join(h, l, r), root)
    requires n in Join(h, l, r) && Join(h, l, r)[n].parent == h[l].parent
    requires h[l].parent in Join(h, l, r)
    requires Before(Join(h, l, r), root, h[l].parent) == Before(h, root, h[l].parent)
    ensures Before(Join(h, l, r), root, n) == Before(h, root, n)
  {
    hide *;
    BeforeIs(h, root, n);
    BeforeIs(Join(h, l, r), root, n);
    JoinMoved(h, root, l, r, n);
    JoinedParent(h, root, l, r);
    JoinFlatParent(h, root, l, r);
    var p := h[l].parent;
    PreFuse(h[p].vals, Parts(h, p), h[l].pos, Join(h, l, r)[n].pos);
  }

  lemma SameParts(h: Heap, root: Node, l: Node, r: Node, q: Node)
    requires Tree(h, root) && Siblings(h, l, r) && q in h && q != r && q != l && q != h[l].parent
    requires h[l].pos < |h[h[l].parent].vals| && Tree(Join(h, l, r), root)
    ensures Parts(Join(h, l, r), q) == Parts(h, q)
  {
    var m := Join(h, l, r);
    if h[q].level > 0 {
      forall j | 0 <= j <= |h[q].vals|
        ensures Parts(m, q)[j] == Parts(h, q)[j]
      {
        PartAt(h, q, j);
        PartAt(m, q, j);
        JoinFlat(h, root, l, r, h[q].kids[j]);
      }
      assert Parts(m, q) == Parts(h, q);
    }
  }

  lemma JoinedLeft(h: Heap, root: Node, l: Node, r: Node, n: Node)
    requires Tree(h, root) && Siblings(h, l, r) && n in h && n != r && n != root
    requires h[l].pos < |h[h[l].parent].vals|
    requires n in Join(h, l, r) && Join(h, l, r)[n].parent == l && l in Join(h, l, r)
    ensures var m := Join(h, l, r);
            && m[l].vals == h[l].vals + [h[h[l].parent].vals[h[l].pos]] + h[r].vals
            && |h[l].kids| == |h[l].vals| + 1 && (h[n].parent == l || h[n].parent == r)
            && h[n].pos <= |h[h[n].parent].vals|
            && m[n].pos == if h[n].parent == l then h[n].pos else |h[l].kids| + h[n].pos
  {
    SiblingFacts(h, root, l, r);
    JoinMoved(h, root, l, r, n);
    assert Up(h, n) && Down(h, l) && Down(h, r);
    hide Tree;
  }

  /** The part of a joined node in front of one of its children. */
  lemma JoinPre(h: Heap, root: Node, l: Node, r: Node, n: Node)
    requires Tree(h, root) && Siblings(h, l, r) && n in h && n != r && n != root
    requires h[l].pos < |h[h[l].parent].vals| && Tree(Join(h, l, r), root)
    requires n in Join(h, l, r) && Join(h, l, r)[n].parent == l && l in Join(h, l, r)
    ensures var m, d := Join(h, l, r), h[h[l].parent].vals[h[l].pos];
            && m[n].pos <= |m[l].vals| && m[n].pos <= |Parts(m, l)|
            && (h[n].parent == l || h[n].parent == r)
            && h[n].pos <= |h[h[n].parent].vals| && h[n].pos <= |Parts(h, h[n].parent)|
            && Pre(m[l].vals, Parts(m, l), m[n].pos)
               == (if h[n].parent == l then [] else Flat(h, l) + [d]) + Pre(h[h[n].parent].vals, Parts(h, h[n].parent), h[n].pos)
  {
    JoinedLeft(h, root, l, r, n);
    JoinFlatLeft(h, root, l, r);
    hide Parts, Pre, Join, JoinRec, Weave, Tree, Siblings, AllDown;
    PreSide(h[l].vals, Parts(h, l), h[h[l].parent].vals[h[l].pos], h[r].vals, Parts(h, r), h[n].parent == l, h[n].pos);
  }

  lemma {:induction false} JoinBeforeChild(h: Heap, root: Node, l: Node, r: Node, n: Node)
    requires Tree(h, root) && Siblings(h, l, r) && n in h && n != r && n != root
    requires h[l].pos < |h[h[l].parent].vals| && Tree(Join(h, l, r), root)
    requires n in Join(h, l, r) && Join(h, l, r)[n].parent == l && l in Join(h, l, r)
    requires Before(Join(h, l, r), root, l) == Before(h, root, l)
    ensures Before(Join(h, l, r), root, n) == Before(h, root, n)
  {
    hide Join, Flat, Parts, Pre;
    JoinPre(h, root, l, r, n);
    assert Up(Join(h, l, r), n) && Up(h, n);
    if h[n].parent == r {
      BeforeRight(h, root, l, r);
      Regroup3(Before(h, root, l), Flat(h, l), [h[h[l].parent].vals[h[l].pos]], Pre(h[r].vals, Parts(h, r), h[n].pos));
    }
  }

  lemma BeforeRight(h: Heap, root: Node, l: Node, r: Node)
    requires Tree(h, root) && Siblings(h, l, r)
    ensures h[l].pos < |h[h[l].parent].vals|
    ensures Before(h, root, r) == Before(h, root, l) + Flat(h, l) + [h[h[l].parent].vals[h[l].pos]]
  {
    SiblingFacts(h, root, l, r);
    var p, i := h[l].parent, h[l].pos;
    assert Down(h, p);
    PartAt(h, p, i);
    hide Flat, Parts;
    var b, x := Before(h, root, p), Pre(h[p].vals, Parts(h, p), i);
    Gather(b, x, Flat(h, l), [h[p].vals[i]]);
  }

  lemma Gather(b: seq<V>, x: seq<V>, f: seq<V>, d: seq<V>)
    ensures b + (x + f + d) == (b + x) + f + d
  {
  }

  // ----- cutting

  ghost predicate Cuttable(h: Heap, n: Node, right: Node, c: nat) {
    && n in h && Up(h, n) && right !in h && c < |h[n].vals|
    && h[n].pos <= |h[h[n].parent].vals|
    && (h[n].level > 0 ==> |h[n].kids| == |h[n].vals| + 1)
  }

  ghost function CutRec(h: Heap, n: Node, right: Node, c: nat, x: Node): (r: Rec)
    requires Cuttable(h, n, right, c) && (x in h || x == right)
  {
    var p, i := h[n].parent, h[n].pos;
    if x == right then
      Rec(h[n].level, h[n].vals[c + 1..], if h[n].level == 0 then [] else h[n].kids[c + 1..], p, i + 1)
    else if x == n then
      h[n].(vals := h[n].vals[..c], kids := if h[n].level == 0 then [] else h[n].kids[..c + 1])
    else if x == p then
      h[p].(vals := With(h[p].vals, i, h[n].vals[c]), kids := With(h[p].kids, i + 1, right))
    else if Below(h, x, n) && h[x].pos > c then
      h[x].(parent := right, pos := h[x].pos - (c + 1))
    else if Below(h, x, p) && h[x].pos > i then
      h[x].(pos := h[x].pos + 1)
    else
      h[x]
  }

  /** The tree in which `right` has taken over everything of `n` behind value `c`, which goes up to the parent. */
  ghost function Cut(h: Heap, n: Node, right: Node, c: nat): (m: Heap)
    requires Cuttable(h, n, right, c)
  {
    map x | x in h.Keys + {right} :: CutRec(h, n, right, c, x)
  }

  lemma CutChildOfParent(h: Heap, root: Node, n: Node, right: Node, c: nat, j: nat)
    requires Tree(h, root) && n != root && Cuttable(h, n, right, c)
    requires j < |Cut(h, n, right, c)[h[n].parent].kids|
    ensures Child(Cut(h, n, right, c), h[n].parent, j)
  {
    var p, i := h[n].parent, h[n].pos;
    assert Down(h, p);
    if j <= i {
      assert Child(h, p, j);
    } else if j > i + 1 {
      assert Child(h, p, j - 1);
    }
  }

  lemma CutChildOfRight(h: Heap, root: Node, n: Node, right: Node, c: nat, j: nat)
    requires Tree(h, root) && n != root && Cuttable(h, n, right, c)
    requires j < |Cut(h, n, right, c)[right].kids|
    ensures Child(Cut(h, n, right, c), right, j)
  {
    assert Down(h, n);
    assert Child(h, n, c + 1 + j);
    hide Tree, Down;
  }

  lemma CutChild(h: Heap, root: Node, n: Node, right: Node, c: nat, x: Node, j: nat)
    requires Tree(h, root) && n != root && Cuttable(h, n, right, c) && x in h
    requires x != h[n].parent && j < |Cut(h, n, right, c)[x].kids|
    ensures Child(Cut(h, n, right, c), x, j)
  {
    assert Down(h, x);
    assert Child(h, x, j);
    hide Tree, Down;
  }

  lemma CutDown(h: Heap, root: Node, n: Node, right: Node, c: nat, x: Node)
    requires Tree(h, root) && n != root && Cuttable(h, n, right, c) && (x in h || x == right)
    ensures x in Cut(h, n, right, c) && Down(Cut(h, n, right, c), x)
  {
    var m := Cut(h, n, right, c);
    assert Down(h, n) && Down(h, h[n].parent);
    forall j | 0 <= j < |m[x].kids|
      ensures Child(m, x, j)
    {
      if x == h[n].parent {
        CutChildOfParent(h, root, n, right, c, j);
      } else if x == right {
        CutChildOfRight(h, root, n, right, c, j);
      } else {
        CutChild(h, root, n, right, c, x, j);
      }
    }
    if x in h {
      assert Down(h, x);
    }
  }

  lemma CutUpRight(h: Heap, root: Node, n: Node, right: Node, c: nat)
    requires Tree(h, root) && n != root && Cuttable(h, n, right, c)
    ensures right in Cut(h, n, right, c) && Up(Cut(h, n, right, c), right)
  {
    assert Down(h, h[n].parent);
    hide Tree, Down;
  }

  lemma CutUpBelow(h: Heap, root: Node, n: Node, right: Node, c: nat, x: Node)
    requires Tree(h, root) && n != root && Cuttable(h, n, right, c) && x in h && x != root && Below(h, x, n)
    ensures x in Cut(h, n, right, c) && Up(Cut(h, n, right, c), x)
  {
    assert Down(h, n) && Up(h, x);
    hide Tree, Down;
  }

  lemma CutUp(h: Heap, root: Node, n: Node, right: Node, c: nat, x: Node)
    requires Tree(h, root) && n != root && Cuttable(h, n, right, c) && (x in h || x == right) && x != root
    ensures x in Cut(h, n, right, c) && Up(Cut(h, n, right, c), x)
  {
    if x == right {
      CutUpRight(h, root, n, right, c);
    } else if Below(h, x, n) {
      CutUpBelow(h, root, n, right, c, x);
    } else {
      CutUpElse(h, root, n, right, c, x);
    }
  }

  lemma CutUpElse(h: Heap, root: Node, n: Node, right: Node, c: nat, x: Node)
    requires Tree(h, root) && n != root && Cuttable(h, n, right, c) && x in h && x != root && !Below(h, x, n)
    ensures x in Cut(h, n, right, c) && Up(Cut(h, n, right, c), x)
  {
    assert Up(h, x);
    var m, p := Cut(h, n, right, c), h[n].parent;
    if h[x].parent == p {
      assert Down(h, p);
      assert m[p].kids == With(h[p].kids, h[n].pos + 1, right) && m[p].level == h[p].level;
      assert m[x].parent == p && m[x].level == h[x].level && m[x].pos == if h[x].pos > h[n].pos then h[x].pos + 1 else h[x].pos;
      hide Cut, CutRec, Tree, Down;
    } else {
      assert m[x].parent == h[x].parent && m[x].pos == h[x].pos && m[x].level == h[x].level;
      assert m[h[x].parent].kids == h[h[x].parent].kids && m[h[x].parent].level == h[h[x].parent].level;
      hide Cut, CutRec, Tree, Down;
    }
  }

  lemma CutTree(h: Heap, root: Node, n: Node, right: Node, c: nat)
    requires Tree(h, root) && n != root && Cuttable(h, n, right, c)
    ensures Tree(Cut(h, n, right, c), root)
  {
    var m := Cut(h, n, right, c);
    assert AllDown(m) by {
      forall x | x in m
        ensures Down(m, x)
      {
        CutDown(h, root, n, right, c, x);
      }
    }
    assert forall x {:trigger Up(m, x)} :: x in m && x != root ==> Up(m, x) by {
      forall x | x in m && x != root
        ensures Up(m, x)
      {
        CutUp(h, root, n, right, c, x);
      }
    }
  }

  /** Joining undoes cutting. */
  lemma JoinCut(h: Heap, root: Node, n: Node, right: Node, c: nat)
    requires Tree(h, root) && n != root && Cuttable(h, n, right, c)
    ensures var m := Cut(h, n, right, c);
            Siblings(m, n, right) && m[n].pos < |m[m[n].parent].vals| && Join(m, n, right) == h
  {
    var m, p, i := Cut(h, n, right, c), h[n].parent, h[n].pos;
    CutUp(h, root, n, right, c, n);
    CutUp(h, root, n, right, c, right);
    assert Down(h, n) && Down(h, p);
    assert Join(m, n, right).Keys == h.Keys;
    forall x | x in h
      ensures JoinRec(m, n, right, x) == h[x]
    {
      JoinCutRec(h, root, n, right, c, x);
    }
  }

  lemma JoinCutNode(h: Heap, root: Node, n: Node, right: Node, c: nat)
    requires Tree(h, root) && n != root && Cuttable(h, n, right, c)
    requires Siblings(Cut(h, n, right, c), n, right)
    requires var m := Cut(h, n, right, c); m[n].pos < |m[m[n].parent].vals|
    ensures JoinRec(Cut(h, n, right, c), n, right, n) == h[n]
  {
    assert Down(h, n);
    assert h[n].vals == h[n].vals[..c] + [h[n].vals[c]] + h[n].vals[c + 1..];
    assert h[n].level > 0 ==> h[n].kids == h[n].kids[..c + 1] + h[n].kids[c + 1..];
  }

  lemma JoinCutParent(h: Heap, root: Node, n: Node, right: Node, c: nat)
    requires Tree(h, root) && n != root && Cuttable(h, n, right, c)
    requires Siblings(Cut(h, n, right, c), n, right)
    requires var m := Cut(h, n, right, c); m[n].pos < |m[m[n].parent].vals|
    ensures JoinRec(Cut(h, n, right, c), n, right, h[n].parent) == h[h[n].parent]
  {
    var p, i := h[n].parent, h[n].pos;
    assert Down(h, p);
    assert Without(With(h[p].vals, i, h[n].vals[c]), i) == h[p].vals;
    assert Without(With(h[p].kids, i + 1, right), i + 1) == h[p].kids;
  }

  lemma JoinCutRec(h: Heap, root: Node, n: Node, right: Node, c: nat, x: Node)
    requires Tree(h, root) && n != root && Cuttable(h, n, right, c) && x in h
    requires Siblings(Cut(h, n, right, c), n, right)
    requires var m := Cut(h, n, right, c); m[n].pos < |m[m[n].parent].vals|
    ensures JoinRec(Cut(h, n, right, c), n, right, x) == h[x]
  {
    if x == n {
      JoinCutNode(h, root, n, right, c);
    } else if x == h[n].parent {
      JoinCutParent(h, root, n, right, c);
    } else if x != root {
      assert Up(h, x) && Down(h, n) && Down(h, h[n].parent);
    }
  }
}
