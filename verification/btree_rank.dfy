/** No two positions of a tree have the same rank. */
module BtreeRank {
  import opened BtreeValues
  import opened BtreeNodes
  import opened Weaving
  import opened BtreeShape
  import opened BtreeEdit

  lemma OffsetStrict(vals: seq<V>, parts: seq<seq<V>>, i: nat, j: nat)
    requires |parts| == |vals| + 1 && i < j <= |vals|
    ensures Offset(vals, parts, i) < |Pre(vals, parts, j)| <= Offset(vals, parts, j) <= |Weave(vals, parts)|
  {
    OffsetMonotone(vals, parts, i, j - 1);
    OffsetMonotone(vals, parts, j, |vals|);
  }

  /** The stretch of a child lies inside that of its parent. */
  lemma SpanChild(h: Heap, root: Node, a: Node, k: nat)
    requires Tree(h, root) && a in h && h[a].level > 0 && k <= |h[a].vals|
    ensures |h[a].kids| == |h[a].vals| + 1 && Child(h, a, k)
    ensures var c := h[a].kids[k];
            |Before(h, root, a)| <= |Before(h, root, c)| &&
            |Before(h, root, c)| + |Flat(h, c)| == Rank(h, root, a, k) <= |Before(h, root, a)| + |Flat(h, a)|
  {
    BeforeChild(h, root, a, k);
    PartAt(h, a, k);
    OffsetMonotone(h[a].vals, Parts(h, a), k, |h[a].vals|);
  }

  /** A position under `a` has a rank inside the stretch of `a`. */
  lemma {:induction false} SpanUnder(h: Heap, root: Node, n: Node, a: Node)
    requires Tree(h, root) && n in h && a in h && Under(h, root, n, a)
    ensures |Before(h, root, a)| <= |Before(h, root, n)|
    ensures |Before(h, root, n)| + |Flat(h, n)| <= |Before(h, root, a)| + |Flat(h, a)|
    decreases h[root].level - h[n].level
  {
    if n != a {
      assert n != root;
      UnderParent(h, root, n, a);
      var p := h[n].parent;
      assert Down(h, p);
      SpanChild(h, root, p, h[n].pos);
      SpanUnder(h, root, p, a);
    }
  }

  lemma RankSpan(h: Heap, root: Node, n: Node, i: nat, a: Node)
    requires Tree(h, root) && n in h && i < |h[n].vals| && a in h && Under(h, root, n, a)
    ensures |Before(h, root, a)| <= Rank(h, root, n, i) < |Before(h, root, a)| + |Flat(h, a)|
  {
    SpanUnder(h, root, n, a);
    OffsetValue(h[n].vals, Parts(h, n), i);
  }

  /** Which child of `a` leads to `n`. */
  lemma Towards(h: Heap, root: Node, n: Node, a: Node) returns (k: nat)
    requires Tree(h, root) && n in h && a in h && Under(h, root, n, a) && n != a
    ensures h[a].level > 0 && k <= |h[a].vals| && |h[a].kids| == |h[a].vals| + 1 && Child(h, a, k)
    ensures Under(h, root, n, h[a].kids[k])
  {
    assert h[n].level < h[a].level <= h[root].level;
    var c := Ancestor(h, root, n, h[a].level - 1);
    TowardsParent(h, root, n, c);
    assert Up(h, c) && Down(h, a);
    UnderAbove(h, root, n, c);
    UnderUnique(h, root, n, h[c].parent, a);
    k := h[c].pos;
    assert Child(h, a, k);
  }

  lemma TowardsParent(h: Heap, root: Node, n: Node, c: Node)
    requires Tree(h, root) && n in h && c in h && h[n].level <= h[c].level <= h[root].level
    requires c == Ancestor(h, root, n, h[c].level)
    ensures Under(h, root, n, c)
  {
  }

  /** A value of `a` and a position below `a` differ in rank. */
  lemma RankApart(h: Heap, root: Node, a: Node, i: nat, m: Node, j: nat)
    requires Tree(h, root) && a in h && i < |h[a].vals| && m in h && j < |h[m].vals|
    requires Under(h, root, m, a) && m != a
    ensures Rank(h, root, a, i) != Rank(h, root, m, j)
  {
    var k := Towards(h, root, m, a);
    var c := h[a].kids[k];
    RankSpan(h, root, m, j, c);
    SpanChild(h, root, a, k);
    BeforeChild(h, root, a, k);
    if i < k {
      OffsetStrict(h[a].vals, Parts(h, a), i, k);
    } else {
      OffsetMonotone(h[a].vals, Parts(h, a), k, i);
    }
  }

  lemma SpansApart(h: Heap, root: Node, a: Node, k: nat, l: nat)
    requires Tree(h, root) && a in h && h[a].level > 0 && k < l <= |h[a].vals|
    ensures |h[a].kids| == |h[a].vals| + 1 && Child(h, a, k) && Child(h, a, l)
    ensures |Before(h, root, h[a].kids[k])| + |Flat(h, h[a].kids[k])| < |Before(h, root, h[a].kids[l])|
  {
    SpanChild(h, root, a, k);
    BeforeChild(h, root, a, l);
    OffsetStrict(h[a].vals, Parts(h, a), k, l);
  }

  lemma {:induction false} RankInjectiveUnder(h: Heap, root: Node, a: Node, n: Node, i: nat, m: Node, j: nat)
    requires Tree(h, root) && a in h && n in h && i < |h[n].vals| && m in h && j < |h[m].vals|
    requires Under(h, root, n, a) && Under(h, root, m, a)
    requires Rank(h, root, n, i) == Rank(h, root, m, j)
    ensures n == m && i == j
    decreases h[a].level
  {
    if n == a && m == a {
      if i < j {
        OffsetStrict(h[a].vals, Parts(h, a), i, j);
      } else if j < i {
        OffsetStrict(h[a].vals, Parts(h, a), j, i);
      }
    } else if n == a {
      RankApart(h, root, a, i, m, j);
    } else if m == a {
      RankApart(h, root, a, j, n, i);
    } else {
      var k := Towards(h, root, n, a);
      var l := Towards(h, root, m, a);
      RankSpan(h, root, n, i, h[a].kids[k]);
      RankSpan(h, root, m, j, h[a].kids[l]);
      if k < l {
        SpansApart(h, root, a, k, l);
      } else if l < k {
        SpansApart(h, root, a, l, k);
      } else {
        RankInjectiveUnder(h, root, h[a].kids[k], n, i, m, j);
      }
    }
  }

  lemma {:induction false} AllUnderRoot(h: Heap, root: Node, n: Node)
    requires Tree(h, root) && n in h
    ensures Under(h, root, n, root)
    decreases h[root].level - h[n].level
  {
    if n != root {
      assert Up(h, n);
      AllUnderRoot(h, root, h[n].parent);
    }
  }

  /** Two positions with the same rank are the same position. */
  lemma RankInjective(h: Heap, root: Node, n: Node, i: nat, m: Node, j: nat)
    requires Tree(h, root) && n in h && i < |h[n].vals| && m in h && j < |h[m].vals|
    requires Rank(h, root, n, i) == Rank(h, root, m, j)
    ensures n == m && i == j
  {
    AllUnderRoot(h, root, n);
    AllUnderRoot(h, root, m);
    RankInjectiveUnder(h, root, root, n, i, m, j);
  }
}
