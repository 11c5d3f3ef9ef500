/** Deleting whole subtrees. */
module BtreeClear {
  import opened BtreeNodes
  import opened BtreeShape
  import opened BtreeEdit
  import opened BtreeRank
  import opened BtreeExcise
  import opened BtreeStore

  /** The nodes at and below `n`. */
  ghost function Subtree(h: Heap, root: Node, n: Node): (s: set<Node>)
    requires Tree(h, root) && n in h
  {
    set x | x in h && Under(h, root, x, n)
  }

  ghost predicate InFamily(h: Heap, root: Node, n: Node, k: int, x: Node)
    requires Tree(h, root) && n in h && x in h
  {
    0 <= k < |h[n].kids| && h[n].kids[k] in h && Under(h, root, x, h[n].kids[k])
  }

  /** The nodes at and below the children `lo..hi` of `n`. */
  ghost function Families(h: Heap, root: Node, n: Node, lo: int, hi: int): (s: set<Node>)
    requires Tree(h, root) && n in h
  {
    set x | x in h && exists k :: lo <= k < hi && InFamily(h, root, n, k, x)
  }

  /** One more child adds its subtree, none of which was there before. */
  lemma FamiliesStep(h: Heap, root: Node, n: Node, lo: nat, i: nat)
    requires Tree(h, root) && n in h && lo <= i < |h[n].kids|
    ensures Child(h, n, i)
    ensures Families(h, root, n, lo, i + 1) == Families(h, root, n, lo, i) + Subtree(h, root, h[n].kids[i])
    ensures Families(h, root, n, lo, i) !! Subtree(h, root, h[n].kids[i])
  {
    assert Down(h, n) && Child(h, n, i);
    forall x | x in Families(h, root, n, lo, i)
      ensures x !in Subtree(h, root, h[n].kids[i])
    {
      var k :| lo <= k < i && InFamily(h, root, n, k, x);
      assert Child(h, n, k);
      if Under(h, root, x, h[n].kids[i]) {
        UnderUnique(h, root, x, h[n].kids[k], h[n].kids[i]);
      }
    }
    FamiliesGrow(h, root, n, lo, i);
  }

  lemma FamiliesGrow(h: Heap, root: Node, n: Node, lo: nat, i: nat)
    requires Tree(h, root) && n in h && lo <= i < |h[n].kids| && h[n].kids[i] in h
    ensures Families(h, root, n, lo, i + 1) == Families(h, root, n, lo, i) + Subtree(h, root, h[n].kids[i])
  {
    forall x | x in h
      ensures x in Families(h, root, n, lo, i + 1) <==> x in Families(h, root, n, lo, i) || InFamily(h, root, n, i, x)
    {
      if x in Families(h, root, n, lo, i + 1) {
        var k :| lo <= k < i + 1 && InFamily(h, root, n, k, x);
      }
      if x in Families(h, root, n, lo, i) {
        var k :| lo <= k < i && InFamily(h, root, n, k, x);
      }
    }
  }

  /** A subtree is its top node and the subtrees of the children. */
  lemma SubtreeSplit(h: Heap, root: Node, n: Node)
    requires Tree(h, root) && n in h
    ensures Subtree(h, root, n) == {n} + Families(h, root, n, 0, |h[n].kids|) && n !in Families(h, root, n, 0, |h[n].kids|)
  {
    assert Down(h, n);
    forall x | x in h
      ensures Under(h, root, x, n) <==> x == n || x in Families(h, root, n, 0, |h[n].kids|)
    {
      if x == n {
      } else if Under(h, root, x, n) {
        var k := Towards(h, root, x, n);
        assert InFamily(h, root, n, k, x);
      } else if x in Families(h, root, n, 0, |h[n].kids|) {
        var k :| 0 <= k < |h[n].kids| && InFamily(h, root, n, k, x);
        assert Child(h, n, k);
        UnderAbove(h, root, x, h[n].kids[k]);
      }
    }
    forall k | 0 <= k < |h[n].kids|
      ensures !InFamily(h, root, n, k, n)
    {
      assert Child(h, n, k);
    }
  }

  lemma FamiliesDoomed(h: Heap, root: Node, n: Node, b: nat, e: nat)
    requires Run(h, root, n, b, e)
    ensures DoomedSet(h, root, n, b, e) == Families(h, root, n, b + 1, e + 1)
  {
    forall x | x in h
      ensures Doomed(h, root, n, b, e, x) <==> exists k :: b + 1 <= k < e + 1 && InFamily(h, root, n, k, x)
    {
      if Doomed(h, root, n, b, e, x) {
        var k :| b < k <= e && Under(h, root, x, h[n].kids[k]);
        assert InFamily(h, root, n, k, x);
      }
    }
  }

  lemma SubtreeRoot(h: Heap, root: Node)
    requires Tree(h, root)
    ensures Subtree(h, root, root) == h.Keys
  {
    forall x | x in h
      ensures Under(h, root, x, root)
    {
      AllUnderRoot(h, root, x);
    }
  }

  lemma SubtreeWithin(h: Heap, root: Node, n: Node)
    requires Tree(h, root) && n in h
    ensures Subtree(h, root, n) <= h.Keys
  {
  }

  lemma EmptyFamilies(h: Heap, root: Node, n: Node, lo: nat)
    requires Tree(h, root) && n in h
    ensures Families(h, root, n, lo, lo) == {}
  {
  }

  lemma LeafFamilies(h: Heap, root: Node, n: Node)
    requires Tree(h, root) && n in h && h[n].level == 0
    ensures Families(h, root, n, 0, |h[n].kids|) == {}
  {
    assert Down(h, n);
  }

  lemma FamilyWithin(h: Heap, root: Node, n: Node, i: nat)
    requires Tree(h, root) && n in h && i <= |h[n].kids|
    ensures Families(h, root, n, 0, i) <= Families(h, root, n, 0, |h[n].kids|)
  {
  }

  lemma ChildAt(nodes: set<Node>, root: Node, n: Node, i: nat)
    requires Sound(nodes) && Tree(Snap(nodes), root) && n in nodes && !n.IsLeaf() && i <= n.count
    ensures i < |n.children| && n.children[i] in nodes && n.children[i].level < n.level
    ensures n in Snap(nodes) && n.children[i] in Snap(nodes) && i < |Snap(nodes)[n].kids| && Snap(nodes)[n].kids[i] == n.children[i]
  {
    NodeAt(nodes, n);
    assert Down(Snap(nodes), n) && Child(Snap(nodes), n, i);
  }

  /** Deletes a node and everything below it: each node once, and nothing else.  `live` are the nodes not deleted yet. */
  method InternalClear(node: Node, ghost nodes: set<Node>, ghost root: Node, ghost live: set<Node>) returns (ghost left: set<Node>)
    requires Sound(nodes) && Tree(Snap(nodes), root) && node in nodes && node in Snap(nodes) && Subtree(Snap(nodes), root, node) <= live
    ensures left == live - Subtree(Snap(nodes), root, node)
    decreases node.level
  {
    hide *;
    ghost var h := Snap(nodes);
    NodeAt(nodes, node);
    SubtreeSplit(h, root, node);
    left := live;
    if !node.IsLeaf() {
      EmptyFamilies(h, root, node, 0);
      for i := 0 to node.count + 1
        invariant left == live - Families(h, root, node, 0, i)
      {
        ChildAt(nodes, root, node, i);
        FamiliesStep(h, root, node, 0, i);
        FamilyWithin(h, root, node, i + 1);
        left := InternalClear(node.children[i], nodes, root, left);
      }
    } else {
      LeafFamilies(h, root, node);
    }
    assert node in left;
    left := left - {node};
  }

  /** Deletes the children between the values `b` and `e` of an internal node, with all that hangs under them. */
  method ClearBetween(node: Node, b: nat, e: nat, ghost nodes: set<Node>, ghost root: Node) returns (ghost left: set<Node>, ghost dead: set<Node>)
    requires Sound(nodes) && Tree(Snap(nodes), root) && node in nodes && !node.IsLeaf() && b < e < node.count
    ensures Run(Snap(nodes), root, node, b, e) && dead == DoomedSet(Snap(nodes), root, node, b, e) && left == nodes - dead
    ensures Closed(Snap(nodes), root, node, b, e, dead)
  {
    hide *;
    ghost var h := Snap(nodes);
    left := nodes;
    NodeAt(nodes, node);
    KeysAre(nodes);
    EmptyFamilies(h, root, node, b + 1);
    for i := 0 to e - b
      invariant left == nodes - Families(h, root, node, b + 1, b + 1 + i)
    {
      ChildAt(nodes, root, node, b + i + 1);
      FamiliesStep(h, root, node, b + 1, b + 1 + i);
      SubtreeWithin(h, root, node.children[b + i + 1]);
      left := InternalClear(node.children[b + i + 1], nodes, root, left);
    }
    RunAt(nodes, root, node, b, e);
    FamiliesDoomed(h, root, node, b, e);
    DoomedClosed(h, root, node, b, e);
    dead := DoomedSet(h, root, node, b, e);
  }

  lemma KeysAre(nodes: set<Node>)
    requires Sound(nodes)
    ensures Snap(nodes).Keys == nodes
  {
  }

  lemma RunAt(nodes: set<Node>, root: Node, n: Node, b: nat, e: nat)
    requires Sound(nodes) && Tree(Snap(nodes), root) && n in nodes && !n.IsLeaf() && b < e < n.count
    ensures Run(Snap(nodes), root, n, b, e)
  {
    var h := Snap(nodes);
    NodeAt(nodes, n);
    assert Down(h, n);
    forall k | 0 <= k < |h[n].kids|
      ensures h[n].kids[k] in h
    {
      assert Child(h, n, k);
    }
  }

  lemma ChildLinks(nodes: set<Node>, root: Node, n: Node, i: nat)
    requires Sound(nodes) && Tree(Snap(nodes), root) && n in nodes && !n.IsLeaf() && i <= n.count
    ensures i < |n.children| && n.children[i].parent == n && n.children[i].position == i
  {
    NodeAt(nodes, n);
    assert Down(Snap(nodes), n) && Child(Snap(nodes), n, i);
  }
}
