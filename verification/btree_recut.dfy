/** Moving values between two neighbouring siblings: joining them and cutting them elsewhere. */
module BtreeRecut {
  import opened BtreeValues
  import opened BtreeNodes
  import opened BtreeShape
  import opened BtreeJoin
  import opened BtreeKeep

  /** The values of two siblings and their delimiter, in order. */
  ghost function BothVals(h: Heap, l: Node, r: Node): (s: seq<V>)
    requires Siblings(h, l, r) && h[l].pos < |h[h[l].parent].vals|
  {
    h[l].vals + [h[h[l].parent].vals[h[l].pos]] + h[r].vals
  }

  ghost function BothKids(h: Heap, l: Node, r: Node): (s: seq<Node>)
    requires Siblings(h, l, r)
  {
    h[l].kids + h[r].kids
  }

  ghost predicate Recuttable(h: Heap, l: Node, r: Node, c: nat) {
    && Siblings(h, l, r) && h[l].pos < |h[h[l].parent].vals| && c < |h[l].vals| + 1 + |h[r].vals|
    && (h[l].level > 0 ==> |h[l].kids| == |h[l].vals| + 1 && |h[r].kids| == |h[r].vals| + 1)
  }

  /** What each node holds once `l` keeps the first `c` of the values of both and the next one separates them. */
  ghost function RecutRec(h: Heap, l: Node, r: Node, c: nat, n: Node): (x: Rec)
    requires Recuttable(h, l, r, c) && n in h
  {
    var p, i := h[l].parent, h[l].pos;
    if n == l then
      h[l].(vals := BothVals(h, l, r)[..c], kids := if h[l].level == 0 then [] else BothKids(h, l, r)[..c + 1])
    else if n == r then
      h[r].(vals := BothVals(h, l, r)[c + 1..], kids := if h[l].level == 0 then [] else BothKids(h, l, r)[c + 1..])
    else if n == p then
      h[p].(vals := h[p].vals[i := BothVals(h, l, r)[c]])
    else if Below(h, n, l) && h[n].pos > c then
      h[n].(parent := r, pos := h[n].pos - (c + 1))
    else if Below(h, n, r) then
      var j := |h[l].kids| + h[n].pos;
      if j <= c then h[n].(parent := l, pos := j) else h[n].(pos := j - (c + 1))
    else
      h[n]
  }

  ghost function Recut(h: Heap, l: Node, r: Node, c: nat): (m: Heap)
    requires Recuttable(h, l, r, c)
  {
    map n | n in h :: RecutRec(h, l, r, c, n)
  }

  lemma RecutFacts(h: Heap, root: Node, l: Node, r: Node, c: nat)
    requires Tree(h, root) && Siblings(h, l, r)
    ensures h[l].pos < |h[h[l].parent].vals| && Tree(Join(h, l, r), root)
    ensures c < |h[l].vals| + 1 + |h[r].vals| ==> Recuttable(h, l, r, c) && Cuttable(Join(h, l, r), l, r, c)
  {
    SiblingFacts(h, root, l, r);
    JoinTree(h, root, l, r);
    var m := Join(h, l, r);
    assert Down(h, l) && Down(h, r);
    assert Up(m, l) && Down(m, l) && Down(m, m[l].parent);
  }

  lemma RecutIsCutJoin(h: Heap, root: Node, l: Node, r: Node, c: nat)
    requires Tree(h, root) && Recuttable(h, l, r, c) && Tree(Join(h, l, r), root) && Cuttable(Join(h, l, r), l, r, c)
    ensures Recut(h, l, r, c) == Cut(Join(h, l, r), l, r, c)
  {
    SiblingFacts(h, root, l, r);
    var m := Cut(Join(h, l, r), l, r, c);
    assert m.Keys == h.Keys;
    forall n | n in h
      ensures RecutRec(h, l, r, c, n) == CutRec(Join(h, l, r), l, r, c, n)
    {
      RecutRecIsCutJoin(h, root, l, r, c, n);
    }
  }

  lemma RecutRecIsCutJoin(h: Heap, root: Node, l: Node, r: Node, c: nat, n: Node)
    requires Tree(h, root) && Recuttable(h, l, r, c) && Tree(Join(h, l, r), root) && Cuttable(Join(h, l, r), l, r, c) && n in h
    ensures RecutRec(h, l, r, c, n) == CutRec(Join(h, l, r), l, r, c, n)
  {
    SiblingFacts(h, root, l, r);
    var p, i, m := h[l].parent, h[l].pos, Join(h, l, r);
    if n == p {
      assert Down(h, p);
      assert With(Without(h[p].vals, i), i, BothVals(h, l, r)[c]) == h[p].vals[i := BothVals(h, l, r)[c]];
      assert With(Without(h[p].kids, i + 1), i + 1, r) == h[p].kids;
    } else if n != l && n != r && n != root {
      RecutRecElse(h, root, l, r, c, n);
    }
  }

  lemma RecutRecElse(h: Heap, root: Node, l: Node, r: Node, c: nat, n: Node)
    requires Tree(h, root) && Recuttable(h, l, r, c) && Tree(Join(h, l, r), root) && Cuttable(Join(h, l, r), l, r, c) && n in h
    requires n != l && n != r && n != root && n != h[l].parent
    ensures RecutRec(h, l, r, c, n) == CutRec(Join(h, l, r), l, r, c, n)
  {
    SiblingFacts(h, root, l, r);
    assert Up(h, n);
    assert Down(h, l);
    var p := h[l].parent;
    if Below(h, n, r) {
    } else if Below(h, n, l) {
    } else if Below(h, n, p) {
      assert h[n].pos < h[l].pos || h[n].pos > h[l].pos + 1;
    }
  }

  /** Recutting keeps the sequence and everything below the two nodes. */
  lemma RecutKeeps(h: Heap, root: Node, l: Node, r: Node, c: nat)
    requires Tree(h, root) && Recuttable(h, l, r, c)
    ensures Tree(Recut(h, l, r, c), root) && Keeps(h, root, Recut(h, l, r, c), root, h[l].level)
  {
    RecutFacts(h, root, l, r, c);
    RecutIsCutJoin(h, root, l, r, c);
    SiblingFacts(h, root, l, r);
    JoinKeeps(h, root, l, r);
    CutKeeps(Join(h, l, r), root, l, r, c);
    KeepsTrans(h, root, Join(h, l, r), root, Cut(Join(h, l, r), l, r, c), root, h[l].level, h[l].level);
  }

  /** Where the positions of the two nodes go: counted through both nodes, index `k` stays index `k`. */
  ghost predicate RecutPlaces(h: Heap, root: Node, l: Node, r: Node, c: nat)
    requires Tree(h, root) && Recuttable(h, l, r, c) && Tree(Recut(h, l, r, c), root)
  {
    var lc, n, m := |h[l].vals|, |h[l].vals| + 1 + |h[r].vals|, Recut(h, l, r, c);
    && (forall k {:trigger Rank(h, root, l, k)} :: 0 <= k <= lc && k <= c ==> Rank(m, root, l, k) == Rank(h, root, l, k))
    && (forall k {:trigger Rank(h, root, l, k)} :: 0 <= k <= lc && c < k ==> Rank(m, root, r, k - c - 1) == Rank(h, root, l, k))
    && (forall j {:trigger Rank(h, root, r, j)} :: 0 <= j <= |h[r].vals| && lc + 1 + j <= c ==> Rank(m, root, l, lc + 1 + j) == Rank(h, root, r, j))
    && (forall j {:trigger Rank(h, root, r, j)} :: 0 <= j <= |h[r].vals| && c < lc + 1 + j ==> Rank(m, root, r, lc + j - c) == Rank(h, root, r, j))
  }

  lemma RecutRanks(h: Heap, root: Node, l: Node, r: Node, c: nat)
    requires Tree(h, root) && Recuttable(h, l, r, c)
    ensures Tree(Recut(h, l, r, c), root) && RecutPlaces(h, root, l, r, c)
  {
    RecutFacts(h, root, l, r, c);
    RecutIsCutJoin(h, root, l, r, c);
    SiblingFacts(h, root, l, r);
    var j, m := Join(h, l, r), Recut(h, l, r, c);
    CutTree(j, root, l, r, c);
    JoinRanks(h, root, l, r);
    CutRanks(j, root, l, r, c);
    hide Rank, Tree, Join, Cut, Recut;
    forall k | 0 <= k <= |h[l].vals| && c < k
      ensures Rank(m, root, r, k - c - 1) == Rank(h, root, l, k)
    {
      assert Rank(m, root, r, k - c - 1) == Rank(j, root, l, c + 1 + (k - c - 1));
    }
    forall t | 0 <= t <= |h[r].vals| && c < |h[l].vals| + 1 + t
      ensures Rank(m, root, r, |h[l].vals| + t - c) == Rank(h, root, r, t)
    {
      assert Rank(m, root, r, |h[l].vals| + t - c) == Rank(j, root, l, c + 1 + (|h[l].vals| + t - c));
    }
  }

  /** The leaves at the two ends stay there. */
  lemma RecutEnds(h: Heap, root: Node, l: Node, r: Node, c: nat, x: Node)
    requires Tree(h, root) && Recuttable(h, l, r, c) && x in h
    ensures Tree(Recut(h, l, r, c), root)
    ensures Before(h, root, x) == [] ==> Before(Recut(h, l, r, c), root, x) == []
    ensures After(h, root, x) == [] ==> After(Recut(h, l, r, c), root, x) == []
  {
    RecutFacts(h, root, l, r, c);
    RecutIsCutJoin(h, root, l, r, c);
    SiblingFacts(h, root, l, r);
    var j := Join(h, l, r);
    if Before(h, root, x) == [] {
      BeforeRight(h, root, l, r);
      JoinBefore(h, root, l, r, x);
      CutEnds(j, root, l, r, c, x);
    }
    if After(h, root, x) == [] {
      AfterLeft(h, root, l, r);
      JoinAfter(h, root, l, r, x);
      CutEnds(j, root, l, r, c, if x == r then l else x);
    }
    CutTree(j, root, l, r, c);
  }

  lemma AfterLeft(h: Heap, root: Node, l: Node, r: Node)
    requires Tree(h, root) && Siblings(h, l, r)
    ensures After(h, root, l) != []
  {
    SiblingFacts(h, root, l, r);
    assert Down(h, h[l].parent);
  }
}
