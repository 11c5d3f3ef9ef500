/** Whole trees with their two ends, and iterators followed through a restructuring. */
module BtreeFollow {
  import opened BtreeNodes
  import opened BtreeShape
  import opened BtreeJoin
  import opened BtreeKeep
  import opened BtreeRecut
  import opened BtreeTop

  /** A tree whose root links to its leftmost leaf, and whose rightmost leaf is `rightmost`. */
  ghost predicate Fits(h: Heap, root: Node, rightmost: Node) {
    && Tree(h, root)
    && h[root].parent in h && h[h[root].parent].level == 0 && Before(h, root, h[root].parent) == []
    && rightmost in h && h[rightmost].level == 0 && After(h, root, rightmost) == []
  }

  /** Every node outside `bare` holds a value. */
  ghost predicate Populated(h: Heap, bare: set<Node>) {
    forall n {:trigger h[n]} :: n in h && n !in bare ==> h[n].vals != []
  }

  /** Place `i` of node `n` has become place `i'` of node `n'`, on the same level and at the same rank,
      with the same child behind it; below that level nothing has moved. */
  ghost predicate Follows(h: Heap, root: Node, n: Node, i: nat, h': Heap, root': Node, n': Node, i': nat) {
    && Tree(h, root) && Tree(h', root') && n in h && n' in h' && i <= |h[n].vals| && i' <= |h'[n'].vals|
    && h'[n'].level == h[n].level && Keeps(h, root, h', root', h[n].level)
    && Rank(h', root', n', i') == Rank(h, root, n, i)
    && (h[n].level > 0 ==> i < |h[n].kids| && Hangs(h', h[n].kids[i], n', i'))
  }

  ghost predicate Hangs(h: Heap, c: Node, p: Node, i: nat) {
    c in h && p in h && h[c].parent == p && h[c].pos == i && h[c].level < h[p].level
  }

  // ----- recutting

  lemma RecutRoot(h: Heap, root: Node, l: Node, r: Node, c: nat)
    requires Tree(h, root) && Recuttable(h, l, r, c)
    ensures root in Recut(h, l, r, c) && Recut(h, l, r, c)[root].parent == h[root].parent
  {
    SiblingFacts(h, root, l, r);
  }

  lemma RecutFits(h: Heap, root: Node, rightmost: Node, l: Node, r: Node, c: nat)
    requires Fits(h, root, rightmost) && Recuttable(h, l, r, c)
    ensures Fits(Recut(h, l, r, c), root, rightmost)
  {
    RecutRoot(h, root, l, r, c);
    RecutEnds(h, root, l, r, c, h[root].parent);
    RecutEnds(h, root, l, r, c, rightmost);
  }

  lemma RecutPopulated(h: Heap, root: Node, l: Node, r: Node, c: nat, bare: set<Node>)
    requires Tree(h, root) && Recuttable(h, l, r, c) && Populated(h, bare)
    requires bare <= {l, r} && 1 <= c < |h[l].vals| + |h[r].vals|
    ensures Populated(Recut(h, l, r, c), {})
  {
    var m := Recut(h, l, r, c);
    forall n | n in m
      ensures m[n].vals != []
    {
      assert n in h && (n in bare || h[n].vals != []);
    }
  }

  lemma RecutSizes(h: Heap, root: Node, l: Node, r: Node, c: nat)
    requires Tree(h, root) && Recuttable(h, l, r, c)
    ensures var m := Recut(h, l, r, c);
            l in m && r in m && |m[l].vals| == c && |m[r].vals| == |h[l].vals| + |h[r].vals| - c
  {
    SiblingFacts(h, root, l, r);
  }

  lemma RecutHangsLeft(h: Heap, root: Node, l: Node, r: Node, c: nat, k: nat)
    requires Tree(h, root) && Recuttable(h, l, r, c) && k <= |h[l].vals| && h[l].level > 0
    ensures k < |h[l].kids| && Hangs(Recut(h, l, r, c), h[l].kids[k], if k <= c then l else r, if k <= c then k else k - c - 1)
  {
    assert Down(h, l) && Child(h, l, k);
    SiblingFacts(h, root, l, r);
  }

  lemma RecutHangsRight(h: Heap, root: Node, l: Node, r: Node, c: nat, j: nat)
    requires Tree(h, root) && Recuttable(h, l, r, c) && j <= |h[r].vals| && h[l].level > 0
    ensures var k := |h[l].vals| + 1 + j;
            j < |h[r].kids| && Hangs(Recut(h, l, r, c), h[r].kids[j], if k <= c then l else r, if k <= c then k else k - c - 1)
  {
    assert Down(h, r) && Child(h, r, j);
    SiblingFacts(h, root, l, r);
  }

  /** Where recutting takes the places of the left node. */
  lemma RecutFollowsLeft(h: Heap, root: Node, l: Node, r: Node, c: nat, k: nat)
    requires Tree(h, root) && Recuttable(h, l, r, c) && k <= |h[l].vals|
    ensures Follows(h, root, l, k, Recut(h, l, r, c), root, if k <= c then l else r, if k <= c then k else k - c - 1)
  {
    RecutRanks(h, root, l, r, c);
    RecutKeeps(h, root, l, r, c);
    SiblingFacts(h, root, l, r);
    if h[l].level > 0 {
      RecutHangsLeft(h, root, l, r, c, k);
    }
  }

  /** Where recutting takes the places of the right node. */
  lemma RecutFollowsRight(h: Heap, root: Node, l: Node, r: Node, c: nat, j: nat)
    requires Tree(h, root) && Recuttable(h, l, r, c) && j <= |h[r].vals|
    ensures var k := |h[l].vals| + 1 + j;
            Follows(h, root, r, j, Recut(h, l, r, c), root, if k <= c then l else r, if k <= c then k else k - c - 1)
  {
    RecutRanks(h, root, l, r, c);
    RecutKeeps(h, root, l, r, c);
    SiblingFacts(h, root, l, r);
    if h[l].level > 0 {
      RecutHangsRight(h, root, l, r, c, j);
    }
  }

  // ----- cutting

  lemma CutLeaves(h: Heap, root: Node, n: Node, right: Node, c: nat, x: Node)
    requires Tree(h, root) && n != root && Cuttable(h, n, right, c) && x in h
    ensures var m := Cut(h, n, right, c);
            && root in m && x in m && right in m && m[root].parent == h[root].parent
            && m[x].level == h[x].level && m[right].level == h[n].level
  {
  }

  lemma CutFits(h: Heap, root: Node, rightmost: Node, n: Node, right: Node, c: nat)
    requires Fits(h, root, rightmost) && n != root && Cuttable(h, n, right, c)
    ensures Fits(Cut(h, n, right, c), root, if rightmost == n then right else rightmost)
  {
    assert root in h;
    hide Cut, Tree, Before, After, Cuttable;
    CutLeaves(h, root, n, right, c, h[root].parent);
    CutLeaves(h, root, n, right, c, rightmost);
    CutEnds(h, root, n, right, c, h[root].parent);
    CutEnds(h, root, n, right, c, rightmost);
  }

  /** The one node that may come out empty is the one that takes the new value. */
  lemma CutPopulated(h: Heap, root: Node, n: Node, right: Node, c: nat, bare: set<Node>)
    requires Tree(h, root) && n != root && Cuttable(h, n, right, c) && Populated(h, {h[n].parent})
    requires c > 0 || n in bare
    requires c + 1 < |h[n].vals| || right in bare
    ensures Populated(Cut(h, n, right, c), bare)
  {
    var m := Cut(h, n, right, c);
    forall x | x in m && x !in bare
      ensures m[x].vals != []
    {
      if x != right && x != n && x != h[n].parent {
        assert h[x].vals != [];
      }
    }
  }

  lemma CutHangs(h: Heap, root: Node, n: Node, right: Node, c: nat, k: nat)
    requires Tree(h, root) && n != root && Cuttable(h, n, right, c) && k <= |h[n].vals| && h[n].level > 0
    ensures k < |h[n].kids| && Hangs(Cut(h, n, right, c), h[n].kids[k], if k <= c then n else right, if k <= c then k else k - c - 1)
  {
    assert Down(h, n) && Child(h, n, k) && Up(h, n);
  }

  lemma CutSizes(h: Heap, root: Node, n: Node, right: Node, c: nat)
    requires Tree(h, root) && n != root && Cuttable(h, n, right, c)
    ensures var m := Cut(h, n, right, c);
            n in m && right in m && m[n].level == m[right].level == h[n].level && |m[n].vals| == c && |m[right].vals| == |h[n].vals| - c - 1
  {
    assert Up(h, n);
  }

  /** The places in front of the cut stay where they are. */
  lemma CutFollowsNear(h: Heap, root: Node, n: Node, right: Node, c: nat, k: nat)
    requires Tree(h, root) && n != root && Cuttable(h, n, right, c) && k <= c
    ensures Follows(h, root, n, k, Cut(h, n, right, c), root, n, k)
  {
    CutSizes(h, root, n, right, c);
    hide Cut, Tree, Keeps, Rank, Hangs;
    CutRanks(h, root, n, right, c);
    CutKeeps(h, root, n, right, c);
    if h[n].level > 0 {
      CutHangs(h, root, n, right, c, k);
    }
  }

  /** The places behind the cut go to the new node. */
  lemma CutFollowsFar(h: Heap, root: Node, n: Node, right: Node, c: nat, j: nat)
    requires Tree(h, root) && n != root && Cuttable(h, n, right, c) && c + 1 + j <= |h[n].vals|
    ensures Follows(h, root, n, c + 1 + j, Cut(h, n, right, c), root, right, j)
  {
    CutSizes(h, root, n, right, c);
    hide Cut, Tree, Keeps, Rank, Hangs;
    CutRanks(h, root, n, right, c);
    CutKeeps(h, root, n, right, c);
    if h[n].level > 0 {
      CutHangs(h, root, n, right, c, c + 1 + j);
    }
  }

  // ----- joining

  lemma JoinLeaves(h: Heap, root: Node, l: Node, r: Node, x: Node)
    requires Tree(h, root) && Siblings(h, l, r) && x in h
    ensures h[l].pos < |h[h[l].parent].vals|
    ensures var m := Join(h, l, r);
            && root in m && m[root].parent == h[root].parent && l in m && m[l].level == h[l].level == h[r].level
            && (x != r ==> x in m && m[x].level == h[x].level)
  {
    SiblingFacts(h, root, l, r);
  }

  lemma JoinFits(h: Heap, root: Node, rightmost: Node, l: Node, r: Node)
    requires Fits(h, root, rightmost) && Siblings(h, l, r)
    ensures h[l].pos < |h[h[l].parent].vals|
    ensures Fits(Join(h, l, r), root, if rightmost == r then l else rightmost)
  {
    assert root in h;
    hide Join, Tree, Before, After, Siblings;
    JoinLeaves(h, root, l, r, h[root].parent);
    JoinLeaves(h, root, l, r, rightmost);
    JoinTree(h, root, l, r);
    BeforeRight(h, root, l, r);
    AfterLeft(h, root, l, r);
    JoinBefore(h, root, l, r, h[root].parent);
    JoinAfter(h, root, l, r, rightmost);
  }

  lemma JoinPopulated(h: Heap, root: Node, l: Node, r: Node, bare: set<Node>)
    requires Tree(h, root) && Siblings(h, l, r) && Populated(h, bare) && bare <= {l, r}
    ensures h[l].pos < |h[h[l].parent].vals| && Populated(Join(h, l, r), {h[l].parent})
  {
    SiblingFacts(h, root, l, r);
    var m := Join(h, l, r);
    forall x | x in m && x != h[l].parent
      ensures m[x].vals != []
    {
      if x != l {
        assert h[x].vals != [];
      }
    }
  }

  lemma JoinUnder(h: Heap, root: Node, l: Node, r: Node)
    requires Tree(h, root) && Siblings(h, l, r)
    ensures h[l].pos < |h[h[l].parent].vals| && l != root && l != r && l in Join(h, l, r) && Join(h, l, r)[l].parent == h[l].parent
  {
    SiblingFacts(h, root, l, r);
  }

  lemma JoinSizes(h: Heap, root: Node, l: Node, r: Node)
    requires Tree(h, root) && Siblings(h, l, r)
    ensures h[l].pos < |h[h[l].parent].vals| && l in Join(h, l, r) && |Join(h, l, r)[l].vals| == |h[l].vals| + 1 + |h[r].vals|
  {
    SiblingFacts(h, root, l, r);
  }

  lemma JoinHangs(h: Heap, root: Node, l: Node, r: Node, n: Node, k: nat)
    requires Tree(h, root) && Siblings(h, l, r) && (n == l || n == r) && k <= |h[n].vals| && h[l].level > 0
    ensures h[l].pos < |h[h[l].parent].vals|
    ensures k < |h[n].kids| && Hangs(Join(h, l, r), h[n].kids[k], l, if n == l then k else |h[l].vals| + 1 + k)
  {
    SiblingFacts(h, root, l, r);
    assert Down(h, n) && Down(h, l) && Child(h, n, k);
  }

  /** Where joining takes the places of the two nodes. */
  lemma JoinFollows(h: Heap, root: Node, l: Node, r: Node, n: Node, k: nat)
    requires Tree(h, root) && Siblings(h, l, r) && (n == l || n == r) && k <= |h[n].vals|
    ensures h[l].pos < |h[h[l].parent].vals|
    ensures Follows(h, root, n, k, Join(h, l, r), root, l, if n == l then k else |h[l].vals| + 1 + k)
  {
    SiblingFacts(h, root, l, r);
    JoinRanks(h, root, l, r);
    JoinKeeps(h, root, l, r);
    if h[l].level > 0 {
      JoinHangs(h, root, l, r, n, k);
    }
  }

  // ----- a new or a dropped top

  lemma GrowFits(h: Heap, root: Node, m: Heap, top: Node, rightmost: Node)
    requires Fits(h, root, rightmost) && Topped(h, root, m, top) && m[top].parent == h[root].parent
    ensures Fits(m, top, rightmost)
  {
    GrowTree(h, root, m, top);
    TopContext(h, root, m, top, h[root].parent);
    TopContext(h, root, m, top, rightmost);
  }

  lemma ShrinkFits(h: Heap, root: Node, m: Heap, top: Node, rightmost: Node)
    requires Fits(m, top, rightmost) && Topped(h, root, m, top) && m[top].parent == h[root].parent
    ensures Fits(h, root, rightmost)
  {
    ShrinkTree(h, root, m, top);
    TopContext(h, root, m, top, h[root].parent);
    TopContext(h, root, m, top, rightmost);
  }

  lemma GrowPopulated(h: Heap, root: Node, m: Heap, top: Node)
    requires Topped(h, root, m, top) && Populated(h, {})
    ensures Populated(m, {top})
  {
    forall x | x in m && x != top
      ensures m[x].vals != []
    {
      assert h[x].vals != [];
    }
  }

  lemma ShrinkPopulated(h: Heap, root: Node, m: Heap, top: Node)
    requires Topped(h, root, m, top) && Populated(m, {top})
    ensures Populated(h, {})
  {
    forall x | x in h
      ensures h[x].vals != []
    {
      assert m[x].vals != [];
    }
  }

  // ----- composing

  /** A place below the level of a restructuring is followed by itself. */
  lemma KeepsFollows(h: Heap, root: Node, h': Heap, root': Node, top: nat, n: Node, i: nat)
    requires Tree(h, root) && Tree(h', root') && Keeps(h, root, h', root', top)
    requires n in h && h[n].level < top && i <= |h[n].vals|
    ensures n in h' && i <= |h'[n].vals| && h'[n].vals == h[n].vals && h'[n].kids == h[n].kids && h'[n].level == h[n].level
    ensures Rank(h', root', n, i) == Rank(h, root, n, i) && Keeps(h, root, h', root', h[n].level)
    ensures After(h', root', n) == After(h, root, n)
  {
    assert SamePlace(h, root, h', root', n);
    SameRank(h, root, h', root', n, i);
    KeepsLess(h, root, h', root', top, h[n].level);
  }

  lemma KeepsLess(h: Heap, root: Node, h': Heap, root': Node, top: nat, top': nat)
    requires Tree(h, root) && Tree(h', root') && Keeps(h, root, h', root', top) && top' <= top
    ensures Keeps(h, root, h', root', top')
  {
  }

  lemma KeepsAll(h: Heap, root: Node, top: nat)
    requires Tree(h, root)
    ensures Keeps(h, root, h, root, top)
  {
    forall n | n in h
      ensures SamePlace(h, root, h, root, n)
    {
    }
  }

  lemma FollowsSelf(h: Heap, root: Node, n: Node, i: nat)
    requires Tree(h, root) && n in h && i <= |h[n].vals|
    ensures Follows(h, root, n, i, h, root, n, i)
  {
    KeepsAll(h, root, h[n].level);
    assert Down(h, n);
    if h[n].level > 0 {
      assert Child(h, n, i);
    }
  }

  /** Restructuring above a node, then at the node. */
  lemma FollowsAbove(h: Heap, root: Node, h': Heap, root': Node, h'': Heap, root'': Node, top: nat, n: Node, i: nat, n': Node, i': nat)
    requires Tree(h, root) && Tree(h', root') && Keeps(h, root, h', root', top)
    requires n in h && h[n].level < top && i <= |h[n].vals|
    requires n in h' && Follows(h', root', n, i, h'', root'', n', i')
    ensures Follows(h, root, n, i, h'', root'', n', i')
  {
    KeepsFollows(h, root, h', root', top, n, i);
    KeepsTrans(h, root, h', root', h'', root'', h[n].level, h[n].level);
  }

  /** After its parent's place has been followed, a node hangs in the node that has the room. */
  lemma FollowsParent(h: Heap, root: Node, n: Node, h': Heap, root': Node, p: Node, i: nat)
    requires Tree(h, root) && n in h && n != root && h[n].parent in h
    requires Follows(h, root, h[n].parent, h[n].pos, h', root', p, i)
    ensures Tree(h', root') && Keeps(h, root, h', root', h[n].level + 1) && n in h' && h'[n].vals == h[n].vals
    ensures h'[n].parent == p && n != root'
  {
    assert Up(h, n);
    assert SamePlace(h, root, h', root', n);
  }

  lemma FollowsTop(h: Heap, root: Node, m: Heap, top: Node)
    requires Tree(h, root) && Topped(h, root, m, top)
    ensures Tree(m, top) && Keeps(h, root, m, top, h[root].level + 1) && root in m && m[root].vals == h[root].vals
    ensures m[root].parent == top && root != top
  {
    GrowTree(h, root, m, top);
    TopKeeps(h, root, m, top);
  }

  lemma FollowsFacts(h: Heap, root: Node, n: Node, i: nat, h': Heap, root': Node, n': Node, i': nat)
    requires Follows(h, root, n, i, h', root', n', i')
    ensures Tree(h, root) && Tree(h', root') && n in h && n' in h' && i <= |h[n].vals| && i' <= |h'[n'].vals|
    ensures h'[n'].level == h[n].level && Rank(h', root', n', i') == Rank(h, root, n, i) && Keeps(h, root, h', root', h[n].level)
  {
  }

  lemma SameFlat(h: Heap, root: Node, h': Heap, root': Node, top: nat)
    requires Tree(h, root) && Tree(h', root') && Keeps(h, root, h', root', top)
    ensures Flat(h', root') == Flat(h, root)
  {
  }

  lemma PopulatedMore(h: Heap, bare: set<Node>, bare': set<Node>)
    requires Populated(h, bare) && bare <= bare'
    ensures Populated(h, bare')
  {
  }

  /** Dropping an empty top moves nothing below it. */
  lemma ShrinkKeeps(h: Heap, root: Node, m: Heap, top: Node)
    requires Tree(h, root) && Tree(m, top) && Topped(h, root, m, top)
    ensures Keeps(m, top, h, root, m[top].level) && Flat(h, root) == Flat(m, top)
  {
    TopKeeps(h, root, m, top);
    KeepsSym(h, root, m, top, h[root].level + 1);
  }

  /** The root stands highest. */
  lemma BelowRoot(h: Heap, root: Node, n: Node)
    requires Tree(h, root) && n in h && n != root
    ensures h[n].level < h[root].level
  {
  }
}
