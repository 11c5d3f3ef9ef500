/** What restructuring leaves alone: the sequence, and every iterator below the level it works on. */
module BtreeKeep {
  import opened BtreeNodes
  import opened Weaving
  import opened BtreeShape
  import opened BtreeJoin

  /** Node `n` holds the same values at the same in-order place in both trees. */
  ghost predicate SamePlace(h: Heap, root: Node, h': Heap, root': Node, n: Node)
    requires Tree(h, root) && Tree(h', root') && n in h
  {
    && n in h' && h'[n].level == h[n].level && h'[n].vals == h[n].vals && h'[n].kids == h[n].kids
    && Before(h', root', n) == Before(h, root, n)
    && Parts(h', n) == Parts(h, n)
    && After(h', root', n) == After(h, root, n)
  }

  /** `h'` spells the same sequence as `h`, and the nodes below level `top` have not moved in it. */
  ghost predicate Keeps(h: Heap, root: Node, h': Heap, root': Node, top: nat)
    requires Tree(h, root) && Tree(h', root')
  {
    && Flat(h', root') == Flat(h, root)
    && (forall n {:trigger SamePlace(h, root, h', root', n)} :: n in h && h[n].level < top ==> SamePlace(h, root, h', root', n))
    && (forall n {:trigger n in h} :: n in h' && h'[n].level < top ==> n in h && h[n].level == h'[n].level)
  }

  lemma KeepsTrans(a: Heap, ra: Node, b: Heap, rb: Node, c: Heap, rc: Node, top: nat, top': nat)
    requires Tree(a, ra) && Tree(b, rb) && Tree(c, rc) && top' <= top
    requires Keeps(a, ra, b, rb, top) && Keeps(b, rb, c, rc, top')
    ensures Keeps(a, ra, c, rc, top')
  {
    forall n | n in a && a[n].level < top'
      ensures SamePlace(a, ra, c, rc, n)
    {
      assert SamePlace(a, ra, b, rb, n);
      assert SamePlace(b, rb, c, rc, n);
    }
    forall n | n in c && c[n].level < top'
      ensures n in a && a[n].level == c[n].level
    {
      assert n in b;
      assert n in a;
    }
  }

  lemma KeepsSym(a: Heap, ra: Node, b: Heap, rb: Node, top: nat)
    requires Tree(a, ra) && Tree(b, rb) && Keeps(a, ra, b, rb, top)
    ensures Keeps(b, rb, a, ra, top)
  {
    forall n | n in b && b[n].level < top
      ensures SamePlace(b, rb, a, ra, n)
    {
      assert n in a;
      assert SamePlace(a, ra, b, rb, n);
    }
    forall n | n in a && a[n].level < top
      ensures n in b && b[n].level == a[n].level
    {
      assert SamePlace(a, ra, b, rb, n);
    }
  }

  /** The same place means the same ranks. */
  lemma SameRank(h: Heap, root: Node, h': Heap, root': Node, n: Node, i: nat)
    requires Tree(h, root) && Tree(h', root') && n in h && i <= |h[n].vals|
    requires SamePlace(h, root, h', root', n)
    ensures Rank(h', root', n, i) == Rank(h, root, n, i)
  {
  }

  /** What follows a node is fixed by the whole sequence, what precedes it and what it holds. */
  lemma AfterByRest(h: Heap, root: Node, n: Node, h': Heap, root': Node, n': Node)
    requires Tree(h, root) && n in h && Tree(h', root') && n' in h'
    requires Flat(h, root) == Flat(h', root')
    requires |Before(h, root, n)| + |Flat(h, n)| == |Before(h', root', n')| + |Flat(h', n')|
    ensures After(h, root, n) == After(h', root', n')
  {
    Zipper(h, root, n);
    Zipper(h', root', n');
    var k := |Before(h, root, n)| + |Flat(h, n)|;
    assert After(h, root, n) == Flat(h, root)[k..];
    assert After(h', root', n') == Flat(h', root')[k..];
  }

  /** Joining two siblings keeps the sequence and everything below them. */
  lemma JoinKeeps(h: Heap, root: Node, l: Node, r: Node)
    requires Tree(h, root) && Siblings(h, l, r)
    ensures h[l].pos < |h[h[l].parent].vals| && Tree(Join(h, l, r), root)
    ensures Keeps(h, root, Join(h, l, r), root, h[l].level)
  {
    JoinTree(h, root, l, r);
    SiblingFacts(h, root, l, r);
    JoinFlat(h, root, l, r, root);
    var m := Join(h, l, r);
    forall n | n in h && h[n].level < h[l].level
      ensures SamePlace(h, root, m, root, n)
    {
      JoinPlace(h, root, l, r, n);
    }
  }

  lemma JoinedSame(h: Heap, root: Node, l: Node, r: Node, n: Node)
    requires Tree(h, root) && Siblings(h, l, r) && n in h && h[n].level < h[l].level && h[l].pos < |h[h[l].parent].vals|
    ensures root != r && root != l && n != l && n != r && n != h[l].parent && root in h
    ensures var m := Join(h, l, r);
            root in m && n in m && m[n].level == h[n].level && m[n].vals == h[n].vals && m[n].kids == h[n].kids
  {
    SiblingFacts(h, root, l, r);
  }

  lemma JoinPlace(h: Heap, root: Node, l: Node, r: Node, n: Node)
    requires Tree(h, root) && Siblings(h, l, r) && n in h && h[n].level < h[l].level
    requires h[l].pos < |h[h[l].parent].vals| && Tree(Join(h, l, r), root)
    ensures SamePlace(h, root, Join(h, l, r), root, n)
  {
    hide Before, After, Parts, Flat, Tree, Join, Siblings;
    JoinedSame(h, root, l, r, n);
    JoinFlat(h, root, l, r, root);
    JoinBefore(h, root, l, r, n);
    SameParts(h, root, l, r, n);
    JoinFlat(h, root, l, r, n);
    AfterByRest(h, root, n, Join(h, l, r), root, n);
  }

  /** The ranks of the two joined nodes, seen in the joined one. */
  lemma JoinRanks(h: Heap, root: Node, l: Node, r: Node)
    requires Tree(h, root) && Siblings(h, l, r)
    ensures h[l].pos < |h[h[l].parent].vals| && Tree(Join(h, l, r), root)
    ensures forall i :: 0 <= i <= |h[l].vals| ==> Rank(Join(h, l, r), root, l, i) == Rank(h, root, l, i)
    ensures forall j :: 0 <= j <= |h[r].vals| ==> Rank(Join(h, l, r), root, l, |h[l].vals| + 1 + j) == Rank(h, root, r, j)
  {
    JoinTree(h, root, l, r);
    forall i | 0 <= i <= |h[l].vals|
      ensures Rank(Join(h, l, r), root, l, i) == Rank(h, root, l, i)
    {
      JoinRankLeft(h, root, l, r, i);
    }
    forall j | 0 <= j <= |h[r].vals|
      ensures Rank(Join(h, l, r), root, l, |h[l].vals| + 1 + j) == Rank(h, root, r, j)
    {
      JoinRankRight(h, root, l, r, j);
    }
  }

  lemma JoinRankLeft(h: Heap, root: Node, l: Node, r: Node, i: nat)
    requires Tree(h, root) && Siblings(h, l, r) && i <= |h[l].vals|
    requires h[l].pos < |h[h[l].parent].vals| && Tree(Join(h, l, r), root)
    ensures Rank(Join(h, l, r), root, l, i) == Rank(h, root, l, i)
  {
    SiblingFacts(h, root, l, r);
    JoinFlatLeft(h, root, l, r);
    JoinBefore(h, root, l, r, l);
    var m := Join(h, l, r);
    PreSame(m[l].vals, Parts(m, l), h[l].vals, Parts(h, l), i);
  }

  lemma JoinRankRight(h: Heap, root: Node, l: Node, r: Node, j: nat)
    requires Tree(h, root) && Siblings(h, l, r) && j <= |h[r].vals|
    requires h[l].pos < |h[h[l].parent].vals| && Tree(Join(h, l, r), root)
    ensures Rank(Join(h, l, r), root, l, |h[l].vals| + 1 + j) == Rank(h, root, r, j)
  {
    SiblingFacts(h, root, l, r);
    JoinFlatLeft(h, root, l, r);
    JoinBefore(h, root, l, r, l);
    BeforeRight(h, root, l, r);
    var d, m := h[h[l].parent].vals[h[l].pos], Join(h, l, r);
    calc {
      Offset(m[l].vals, Parts(m, l), |h[l].vals| + 1 + j);
      { assert m[l].vals == h[l].vals + [d] + h[r].vals; }
      Offset(h[l].vals + [d] + h[r].vals, Parts(h, l) + Parts(h, r), |h[l].vals| + 1 + j);
      { OffsetConcat(h[l].vals, Parts(h, l), d, h[r].vals, Parts(h, r), j); }
      |Flat(h, l)| + 1 + Offset(h[r].vals, Parts(h, r), j);
    }
  }

  /** Joining at the end: what followed `r` follows `l`, and nothing else changes. */
  lemma JoinAfter(h: Heap, root: Node, l: Node, r: Node, n: Node)
    requires Tree(h, root) && Siblings(h, l, r) && n in h && n != l
    ensures h[l].pos < |h[h[l].parent].vals| && Tree(Join(h, l, r), root)
    ensures n != r ==> After(Join(h, l, r), root, n) == After(h, root, n)
    ensures n == r ==> After(Join(h, l, r), root, l) == After(h, root, r)
  {
    JoinTree(h, root, l, r);
    SiblingFacts(h, root, l, r);
    JoinFlat(h, root, l, r, root);
    if n == r {
      JoinFlat(h, root, l, r, l);
      JoinBefore(h, root, l, r, l);
      BeforeRight(h, root, l, r);
      AfterByRest(h, root, r, Join(h, l, r), root, l);
    } else {
      JoinFlat(h, root, l, r, n);
      JoinBefore(h, root, l, r, n);
      AfterByRest(h, root, n, Join(h, l, r), root, n);
    }
  }

  /** Cutting a node in two keeps the sequence and everything below it. */
  lemma CutKeeps(h: Heap, root: Node, n: Node, right: Node, c: nat)
    requires Tree(h, root) && n != root && Cuttable(h, n, right, c)
    ensures Tree(Cut(h, n, right, c), root) && Keeps(h, root, Cut(h, n, right, c), root, h[n].level)
  {
    CutTree(h, root, n, right, c);
    JoinCut(h, root, n, right, c);
    var m := Cut(h, n, right, c);
    JoinKeeps(m, root, n, right);
    KeepsSym(m, root, h, root, h[n].level);
  }

  lemma HalvesOf(h: Heap, root: Node, n: Node, right: Node, c: nat)
    requires Tree(h, root) && Cuttable(h, n, right, c)
    ensures root in h && n in h && c < |h[n].vals|
    ensures var m := Cut(h, n, right, c);
            n in m && right in m && |m[n].vals| == c && |m[right].vals| == |h[n].vals| - c - 1
  {
  }

  /** The ranks of a node that is cut, seen in its two halves. */
  lemma CutRanks(h: Heap, root: Node, n: Node, right: Node, c: nat)
    requires Tree(h, root) && n != root && Cuttable(h, n, right, c)
    ensures Tree(Cut(h, n, right, c), root)
    ensures forall i :: 0 <= i <= c ==> Rank(Cut(h, n, right, c), root, n, i) == Rank(h, root, n, i)
    ensures forall j :: 0 <= j < |h[n].vals| - c ==> Rank(Cut(h, n, right, c), root, right, j) == Rank(h, root, n, c + 1 + j)
  {
    hide *;
    CutTree(h, root, n, right, c);
    JoinCut(h, root, n, right, c);
    HalvesOf(h, root, n, right, c);
    var m := Cut(h, n, right, c);
    forall i | 0 <= i <= c
      ensures Rank(m, root, n, i) == Rank(h, root, n, i)
    {
      JoinRankLeft(m, root, n, right, i);
    }
    forall j | 0 <= j < |h[n].vals| - c
      ensures Rank(m, root, right, j) == Rank(h, root, n, c + 1 + j)
    {
      JoinRankRight(m, root, n, right, j);
    }
  }

  lemma CutEnds(h: Heap, root: Node, n: Node, right: Node, c: nat, x: Node)
    requires Tree(h, root) && n != root && Cuttable(h, n, right, c) && x in h
    ensures Tree(Cut(h, n, right, c), root)
    ensures Before(Cut(h, n, right, c), root, x) == Before(h, root, x)
    ensures After(Cut(h, n, right, c), root, if x == n then right else x) == After(h, root, x)
  {
    CutTree(h, root, n, right, c);
    JoinCut(h, root, n, right, c);
    var m := Cut(h, n, right, c);
    JoinBefore(m, root, n, right, x);
    JoinAfter(m, root, n, right, if x == n then right else x);
  }
}
