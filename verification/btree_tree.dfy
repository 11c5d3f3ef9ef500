/** The B-tree container. */
module Btrees {
  import opened BtreeValues
  import opened Options
  import opened Weaving
  import opened BtreeNodes
  import opened BtreeShape
  import opened BtreeJoin
  import opened BtreeKeep
  import opened BtreeStore
  import opened BtreeSteps
  import opened BtreeFollow
  import opened BtreeLeaf
  import opened BtreeRank
  import opened BtreeExciseStep
  import opened BtreeClear
  import opened BtreeSearch
  import opened BtreeDescend
  import opened BtreeOrdered
  import opened BtreeTop
  import opened BtreeWalk

  /** A place in the tree; position -1 stands in front of the first value. */
  datatype Iter = Iter(node: Node, position: int)

  class Btree {
    var root: Node             // its parent link is the leftmost leaf
    var rightmost: Node
    var size: nat
    const sentinel: Node       // the static empty node: root, leftmost and rightmost of an empty tree
    ghost var nodes: set<Node> // the nodes of the tree

    /** The nodes form a tree with its two ends; each but those in `bare` holds a value, and only the root may be undersized. */
    ghost predicate Linked(bare: set<Node>)
      reads this`nodes, this`root, this`rightmost, nodes
    {
      && Sound(nodes) && Fits(Snap(nodes), root, rightmost) && Populated(Snap(nodes), bare)
      && Roomy(nodes, root)
    }

    /** The values in iteration order. */
    ghost function Contents(): (s: seq<V>)
      requires Sound(nodes) && Tree(Snap(nodes), root)
      reads this`nodes, this`root, nodes
    {
      Flat(Snap(nodes), root)
    }

    ghost predicate Place(it: Iter)
      reads this`nodes, nodes
    {
      it.node in nodes && 0 <= it.position <= it.node.count
    }

    /** How many values stand in front of a place. */
    ghost function RankOf(it: Iter): (r: nat)
      requires Sound(nodes) && Tree(Snap(nodes), root) && Place(it)
      reads this`nodes, this`root, nodes
    {
      NodeAt(nodes, it.node);
      Rank(Snap(nodes), root, it.node, it.position)
    }

    /** `it` is the iterator to the value of rank `k`, or the end iterator `(rightmost, rightmost.count)`. */
    ghost predicate Points(it: Iter, k: int)
      requires Sound(nodes) && Tree(Snap(nodes), root)
      reads this`nodes, this`root, this`rightmost, nodes
    {
      && Place(it) && RankOf(it) == k
      && (it.position == it.node.count ==> it.node == rightmost)
    }

    /** The static empty node: a leaf without values that is its own parent. */
    static ghost predicate Pristine(n: Node)
      reads n
    {
      n.Ok() && n.level == 0 && n.count == 0 && n.parent == n
    }

    ghost predicate Valid()
      reads this, nodes, sentinel
    {
      && Pristine(sentinel) && Linked(if size == 0 then {sentinel} else {}) && size == |Contents()|
      && (if size == 0 then nodes == {sentinel} else sentinel !in nodes)
    }

    constructor (empty: Node)
      requires Pristine(empty)
      ensures Valid() && Contents() == [] && sentinel == empty
    {
      root, rightmost, size, sentinel, nodes := empty, empty, 0, empty, {empty};
      new;
      LoneLeaf(Snap(nodes), root);
    }

    lemma LinkedFacts(bare: set<Node>)
      requires Linked(bare)
      ensures Sound(nodes) && Fits(Snap(nodes), root, rightmost) && Tree(Snap(nodes), root)
      ensures Populated(Snap(nodes), bare) && Roomy(nodes, root)
      ensures root in nodes && root.parent in nodes && rightmost in nodes
    {
    }

    lemma MakeLinked(bare: set<Node>)
      requires Sound(nodes) && Fits(Snap(nodes), root, rightmost) && Populated(Snap(nodes), bare) && Roomy(nodes, root)
      ensures Linked(bare)
    {
    }

    lemma PlaceAt(it: Iter)
      requires Sound(nodes) && Tree(Snap(nodes), root) && it.node in nodes && 0 <= it.position <= it.node.count
      ensures Place(it) && it.node in Snap(nodes) && it.position <= |Snap(nodes)[it.node].vals|
      ensures RankOf(it) == Rank(Snap(nodes), root, it.node, it.position)
    {
      NodeAt(nodes, it.node);
    }

    lemma RankAt(it: Iter)
      requires Sound(nodes) && Tree(Snap(nodes), root) && Place(it)
      ensures it.node in nodes && 0 <= it.position <= it.node.count
      ensures it.node in Snap(nodes) && it.position <= |Snap(nodes)[it.node].vals|
      ensures RankOf(it) == Rank(Snap(nodes), root, it.node, it.position)
    {
      NodeAt(nodes, it.node);
    }

    lemma ContentsAre()
      requires Sound(nodes) && Tree(Snap(nodes), root)
      ensures Contents() == Flat(Snap(nodes), root)
    {
    }

    lemma PointsAt(it: Iter)
      requires Sound(nodes) && Tree(Snap(nodes), root) && Place(it) && (it.position == it.node.count ==> it.node == rightmost)
      ensures Points(it, RankOf(it))
    {
    }

    // ----- iteration

    /** `++`: the iterator to the next value, or the end iterator. */
    method Increment(it: Iter) returns (r: Iter)
      requires Linked({}) && it.node in nodes && it.position < it.node.count
      requires it.position >= 0 || it == Iter(root.parent, -1)
      ensures it.position >= 0 ==> Points(r, RankOf(it) + 1)
      ensures it.position < 0 ==> Points(r, 0)
    {
      hide *;
      LinkedFacts({});
      ghost var h := Snap(nodes);
      NodeAt(nodes, it.node);
      if it.position >= 0 {
        PlaceAt(it);
      } else {
        NodeAt(nodes, root);
        RootTest(h, root, rightmost, root);
        BeginRank(h, root, rightmost);
        PopulatedAt(it.node);
      }
      if it.node.IsLeaf() {
        PlaceAt(Iter(it.node, it.position + 1));
        LeafRank(h, root, it.node, it.position + 1);
        if it.position >= 0 {
          LeafRank(h, root, it.node, it.position);
        }
        if it.position + 1 < it.node.count {
          r := Iter(it.node, it.position + 1);
          PointsAt(r);
        } else {
          r := IncrementUp(it.node);
        }
      } else {
        r := IncrementDown(it);
      }
    }

    lemma PopulatedAt(n: Node)
      requires Linked({}) && n in nodes
      ensures n.count > 0
    {
      assert Snap(nodes)[n].vals != [];
    }

    /** From behind the last value of a leaf up to the value that follows it. */
    method IncrementUp(leaf: Node) returns (r: Iter)
      requires Sound(nodes) && Fits(Snap(nodes), root, rightmost) && leaf in nodes && leaf.IsLeaf()
      ensures Tree(Snap(nodes), root) && Place(Iter(leaf, leaf.count)) && Points(r, RankOf(Iter(leaf, leaf.count)))
    {
      hide *;
      FitsFacts(Snap(nodes), root, rightmost);
      ghost var h := Snap(nodes);
      PlaceAt(Iter(leaf, leaf.count));
      NodeAt(nodes, leaf);
      ghost var k := Rank(h, root, leaf, leaf.count);
      var node, position: nat := leaf, leaf.count;
      RootTest(h, root, rightmost, node);
      SnapKeys(nodes, node.parent);
      NodeAt(nodes, node.parent);
      while position == node.count && !node.parent.IsLeaf()
        invariant node in nodes && node in h && node.parent in nodes && h[node].level <= h[root].level
        invariant node.parent.IsLeaf() <==> node == root
        invariant position <= |h[node].vals| && Rank(h, root, node, position) == k
        decreases h[root].level - h[node].level
      {
        NodeAt(nodes, node);
        RootTest(h, root, rightmost, node);
        RankClimb(h, root, node);
        position, node := node.position, node.parent;
        NodeAt(nodes, node);
        RootTest(h, root, rightmost, node);
        SnapKeys(nodes, node.parent);
        NodeAt(nodes, node.parent);
      }
      NodeAt(nodes, node);
      if position == node.count {
        LastRank(h, root, root);
        Zipper(h, root, root);
        RightmostOnly(h, root, rightmost, leaf);
        r := Iter(leaf, leaf.count);
      } else {
        r := Iter(node, position);
      }
      PlaceAt(r);
      PointsAt(r);
    }

    /** From a value of an internal node, or from its front, down to the leftmost leaf behind. */
    method IncrementDown(it: Iter) returns (r: Iter)
      requires Linked({}) && it.node in nodes && -1 <= it.position < it.node.count && !it.node.IsLeaf()
      ensures it.position >= 0 ==> Points(r, RankOf(it) + 1)
      ensures it == Iter(root, -1) ==> Points(r, 0)
    {
      hide *;
      LinkedFacts({});
      ghost var h := Snap(nodes);
      NodeAt(nodes, it.node);
      StepDown(h, root, it.node, it.position + 1);
      var node := it.node.children[it.position + 1];
      ghost var k := |Before(h, root, node)|;
      if it.position >= 0 {
        PlaceAt(it);
      } else if it.node == root {
        Zipper(h, root, root);
      }
      SnapKeys(nodes, node);
      NodeAt(nodes, node);
      while !node.IsLeaf()
        invariant node in nodes && node in h && |Before(h, root, node)| == k
        decreases h[node].level
      {
        NodeAt(nodes, node);
        StepDown(h, root, node, 0);
        node := node.children[0];
        SnapKeys(nodes, node);
      }
      NodeAt(nodes, node);
      LeafRank(h, root, node, 0);
      PopulatedAt(node);
      r := Iter(node, 0);
      PlaceAt(r);
      PointsAt(r);
    }

    /** `--`: the iterator to the previous value, or the place in front of the first one. */
    method Decrement(it: Iter) returns (r: Iter)
      requires Linked({}) && Place(it) && Points(it, RankOf(it))
      ensures RankOf(it) > 0 ==> Points(r, RankOf(it) - 1)
      ensures RankOf(it) == 0 ==> r == Iter(root.parent, -1)
      ensures !it.node.IsLeaf() ==> RankOf(it) > 0 && r.node.IsLeaf() && r.position < r.node.count
    {
      hide *;
      LinkedFacts({});
      RankAt(it);
      ghost var h := Snap(nodes);
      NodeAt(nodes, it.node);
      if it.node.IsLeaf() {
        LeafRank(h, root, it.node, it.position);
        if it.position - 1 >= 0 {
          LeafRank(h, root, it.node, it.position - 1);
          r := Iter(it.node, it.position - 1);
          PlaceAt(r);
          PointsAt(r);
        } else {
          r := DecrementUp(it.node);
        }
      } else {
        r := DecrementDown(it);
      }
    }

    /** From the front of a leaf up to the value in front of it. */
    method DecrementUp(leaf: Node) returns (r: Iter)
      requires Sound(nodes) && Fits(Snap(nodes), root, rightmost) && leaf in nodes && leaf.IsLeaf()
      ensures Sound(nodes) && Tree(Snap(nodes), root) && leaf in Snap(nodes)
      ensures var k := |Before(Snap(nodes), root, leaf)|;
              if k > 0 then Points(r, k - 1) else r == Iter(root.parent, -1)
    {
      hide *;
      FitsFacts(Snap(nodes), root, rightmost);
      ghost var h := Snap(nodes);
      NodeAt(nodes, leaf);
      SnapKeys(nodes, root);
      NodeAt(nodes, root);
      ghost var k := |Before(h, root, leaf)|;
      var node, position: int := leaf, -1;
      RootTest(h, root, rightmost, node);
      SnapKeys(nodes, node.parent);
      NodeAt(nodes, node.parent);
      while position < 0 && !node.parent.IsLeaf()
        invariant node in nodes && node in h && node.parent in nodes && h[node].level <= h[root].level
        invariant node.parent.IsLeaf() <==> node == root
        invariant -1 <= position < |h[node].vals|
        invariant if position < 0 then |Before(h, root, node)| == k else Rank(h, root, node, position) + 1 == k
        decreases h[root].level - h[node].level
      {
        NodeAt(nodes, node);
        RootTest(h, root, rightmost, node);
        StepUpFront(h, root, node);
        position, node := node.position - 1, node.parent;
        NodeAt(nodes, node);
        RootTest(h, root, rightmost, node);
        SnapKeys(nodes, node.parent);
        NodeAt(nodes, node.parent);
      }
      NodeAt(nodes, node);
      if position < 0 {
        Zipper(h, root, root);
        LeftmostOnly(h, root, rightmost, leaf);
        r := Iter(leaf, -1);
      } else {
        r := Iter(node, position);
        PlaceAt(r);
        PointsAt(r);
      }
    }

    /** From a value of an internal node down to the rightmost leaf in front of it. */
    method DecrementDown(it: Iter) returns (r: Iter)
      requires Linked({}) && Place(it) && !it.node.IsLeaf()
      ensures RankOf(it) > 0 && Points(r, RankOf(it) - 1) && r.node.IsLeaf() && r.position < r.node.count
    {
      hide *;
      LinkedFacts({});
      RankAt(it);
      ghost var h := Snap(nodes);
      NodeAt(nodes, it.node);
      StepDown(h, root, it.node, it.position);
      ghost var k := Rank(h, root, it.node, it.position);
      var node := it.node.children[it.position];
      SnapKeys(nodes, node);
      NodeAt(nodes, node);
      while !node.IsLeaf()
        invariant node in nodes && node in h && |Before(h, root, node)| + |Flat(h, node)| == k
        decreases h[node].level
      {
        NodeAt(nodes, node);
        StepDown(h, root, node, node.count);
        LastRank(h, root, node);
        node := node.children[node.count];
        SnapKeys(nodes, node);
      }
      NodeAt(nodes, node);
      LastRank(h, root, node);
      LeafRank(h, root, node, node.count);
      PopulatedAt(node);
      LeafRank(h, root, node, node.count - 1);
      r := Iter(node, node.count - 1);
      PlaceAt(r);
      PointsAt(r);
    }

    method Begin() returns (r: Iter)
      requires Valid()
      ensures r == Iter(root.parent, 0) && Points(r, 0)
    {
      hide *;
      ValidSize();
      NodeAt(nodes, root);
      RootTest(Snap(nodes), root, rightmost, root);
      BeginRank(Snap(nodes), root, rightmost);
      SnapKeys(nodes, root.parent);
      NodeAt(nodes, root.parent);
      r := Iter(root.parent, 0);
      PlaceAt(r);
      if size == 0 {
        EmptyEnds();
      } else {
        ValidFacts();
        PopulatedAt(root.parent);
      }
      PointsAt(r);
    }

    lemma EmptyEnds()
      requires Valid() && size == 0
      ensures root == sentinel && rightmost == sentinel && root.parent == sentinel
    {
    }

    method End() returns (r: Iter)
      requires Sound(nodes) && Fits(Snap(nodes), root, rightmost)
      ensures r == Iter(rightmost, rightmost.count) && Points(r, |Contents()|)
    {
      hide *;
      FitsFacts(Snap(nodes), root, rightmost);
      ContentsAre();
      SnapKeys(nodes, rightmost);
      NodeAt(nodes, rightmost);
      EndRank(Snap(nodes), root, rightmost);
      r := Iter(rightmost, rightmost.count);
      PlaceAt(r);
      PointsAt(r);
    }

    // ----- making room

    /** Makes room in a full node by moving values to its left sibling: half of its room, or all of it for an insertion at the end. */
    method RebalanceLeft(node: Node, position: nat) returns (done: bool, n: Node, p: nat, ghost left: Node)
      requires Linked({}) && node in nodes && node != root && node.count == node.Capacity() == K && position <= K
      modifies nodes`slots, nodes`count, nodes`children, nodes`parent, nodes`position
      ensures Linked({}) && n in nodes
      ensures !done ==> Snap(nodes) == old(Snap(nodes)) && node.count == K
      ensures done ==> Follows(old(Snap(nodes)), root, node, position, Snap(nodes), root, n, p) && n.count < n.Capacity() == K
      ensures done ==> Siblings(old(Snap(nodes)), left, node) && if position == K then left.count == K else -1 <= node.count - left.count <= 1
    {
      hide *;
      LinkedFacts({});
      ghost var h := Snap(nodes);
      done, n, p, left := false, node, position, node;
      NodeAt(nodes, node);
      ParentOf(nodes, root, node);
      if node.position > 0 {
        LeftOf(nodes, root, node);
        var left' := node.parent.children[node.position - 1];
        left := left';
        NodeAt(nodes, left);
        RoomyAt(nodes, root, left);
        PopulatedAt(left);
        if left'.count < K {
          var toMove := (K - left'.count) / (if position < K then 2 else 1);
          toMove := if toMove < 1 then 1 else toMove;
          if position - toMove >= 0 || left'.count + toMove < K {
            ghost var c := left.count + toMove;
            MoveToLeft(left', toMove, node, nodes, root);
            RecutFits(h, root, rightmost, left, node, c);
            RecutPopulated(h, root, left, node, c, {});
            RecutFollowsRight(h, root, left, node, c, position);
            RecutSizes(h, root, left, node, c);
            NodeAt(nodes, left);
            NodeAt(nodes, node);
            var place := position - toMove;
            if place < 0 {
              place, n := place + left'.count + 1, left';
            }
            done, p := true, place;
          }
        }
      }
      MakeLinked({});
    }

    /** Makes room in a full node by moving values to its right sibling: half of its room, or all of it for an insertion at the start. */
    method RebalanceRight(node: Node, position: nat) returns (done: bool, n: Node, p: nat, ghost right: Node)
      requires Linked({}) && node in nodes && node != root && node.count == node.Capacity() == K && position <= K
      modifies nodes`slots, nodes`count, nodes`children, nodes`parent, nodes`position
      ensures Linked({}) && n in nodes
      ensures !done ==> Snap(nodes) == old(Snap(nodes)) && node.count == K
      ensures done ==> Follows(old(Snap(nodes)), root, node, position, Snap(nodes), root, n, p) && n.count < n.Capacity() == K
      ensures done ==> Siblings(old(Snap(nodes)), node, right) && if position == 0 then right.count == K else -1 <= node.count - right.count <= 1
    {
      hide *;
      LinkedFacts({});
      ghost var h := Snap(nodes);
      done, n, p, right := false, node, position, node;
      NodeAt(nodes, node);
      ParentOf(nodes, root, node);
      if node.position < node.parent.count {
        RightOf(nodes, root, node);
        var right' := node.parent.children[node.position + 1];
        right := right';
        NodeAt(nodes, right);
        RoomyAt(nodes, root, right);
        PopulatedAt(right);
        if right'.count < K {
          var toMove := (K - right'.count) / (if position > 0 then 2 else 1);
          toMove := if toMove < 1 then 1 else toMove;
          if position <= node.count - toMove || right'.count + toMove < K {
            ghost var c := node.count - toMove;
            MoveToRight(node, toMove, right', nodes, root);
            RecutFits(h, root, rightmost, node, right, c);
            RecutPopulated(h, root, node, right, c, {});
            RecutFollowsLeft(h, root, node, right, c, position);
            RecutSizes(h, root, node, right, c);
            NodeAt(nodes, node);
            NodeAt(nodes, right);
            done := true;
            if position > node.count {
              p, n := position - node.count - 1, right';
            }
          }
        }
      }
      MakeLinked({});
    }

    /** Puts a new root above the old one. */
    method GrowRoot()
      requires Linked({}) && root.Capacity() == K
      modifies this`root, this`nodes, root`parent, root`position
      ensures fresh(root) && nodes == old(nodes) + {root} && Linked({root}) && root.count == 0 && root.maxCount == 0
      ensures Topped(old(Snap(nodes)), old(root), Snap(nodes), root)
    {
      hide *;
      LinkedFacts({});
      ghost var h, was := Snap(nodes), nodes;
      var below := root;
      NodeAt(nodes, root);
      var top := TopStep(root, nodes);
      root, nodes := top, nodes + {top};
      NodeAt(nodes, top);
      GrowFits(h, below, Snap(nodes), top, rightmost);
      GrowPopulated(h, below, Snap(nodes), top);
      RoomyTop(was, below, top);
      MakeLinked({top});
    }

    /** Splits off the back of the full node `node` into a new node `dest`, its next sibling. */
    method CutOff(node: Node, position: nat) returns (dest: Node)
      requires node in nodes && node != root && Linked({node.parent}) && node.count == node.Capacity() == K && position <= K
      requires node.parent in nodes ==> node.parent.count < K
      modifies this`rightmost, this`nodes, nodes`slots, nodes`count, nodes`children, nodes`parent, nodes`position
      ensures fresh(dest) && nodes == old(nodes) + {dest} && dest != root && Sound(nodes) && Roomy(nodes, root)
      ensures node.count == if position == 0 then 0 else if position == K then K - 1 else K - K / 2 - 1
      ensures Cuttable(old(Snap(nodes)), node, dest, node.count) && Snap(nodes) == Cut(old(Snap(nodes)), node, dest, node.count)
      ensures Fits(Snap(nodes), root, rightmost)
    {
      hide *;
      LinkedFacts({node.parent});
      ghost var h := Snap(nodes);
      FitsFacts(h, root, rightmost);
      NodeAt(nodes, node);
      SoundAt(nodes, node);
      RoomyKind(nodes, root, node);
      dest := NewNode(node, node.parent);
      SplitStep(node, position, dest, nodes, root);
      RoomyMore(nodes, root, dest);
      nodes := nodes + {dest};
      CutFits(h, root, rightmost, node, dest, node.count);
      if node.IsLeaf() && rightmost == node {
        rightmost := dest;
      }
    }

    /** Splits a full node whose parent has room, and follows the place of the insertion. */
    method SplitOff(node: Node, position: nat) returns (n: Node, p: nat)
      requires node in nodes && node != root && Linked({node.parent}) && node.count == node.Capacity() == K && position <= K
      requires node.parent in nodes ==> node.parent.count < K
      modifies this`rightmost, this`nodes, nodes`slots, nodes`count, nodes`children, nodes`parent, nodes`position
      ensures old(nodes) <= nodes && fresh(nodes - old(nodes)) && n in nodes && Linked({n}) && n.count < n.Capacity() == K
      ensures Follows(old(Snap(nodes)), root, node, position, Snap(nodes), root, n, p)
    {
      hide *;
      LinkedFacts({node.parent});
      ghost var h := Snap(nodes);
      NodeAt(nodes, node);
      var dest := CutOff(node, position);
      NodeAt(nodes, node);
      NodeAt(nodes, dest);
      ghost var c := node.count;
      CutSizes(h, root, node, dest, c);
      if position > node.count {
        n, p := dest, position - node.count - 1;
        CutFollowsFar(h, root, node, dest, c, p);
      } else {
        n, p := node, position;
        CutFollowsNear(h, root, node, dest, c, p);
      }
      CutPopulated(h, root, node, dest, c, {n});
      RoomyAt(nodes, root, n);
      MakeLinked({n});
    }

    lemma LinkedMore(bare: set<Node>)
      requires Linked({})
      ensures Linked(bare)
    {
      PopulatedMore(Snap(nodes), {}, bare);
    }

    /** Sees to it that a full node has a parent with room for one more value. */
    method RoomAbove(node: Node)
      requires Linked({}) && node in nodes && node.count == node.Capacity() == K
      modifies this`root, this`rightmost, this`nodes, nodes`slots, nodes`count, nodes`children, nodes`parent, nodes`position
      ensures old(nodes) <= nodes && fresh(nodes - old(nodes)) && node != root && Linked({node.parent})
      ensures node.count == K && node.parent in nodes && node.parent.count < K
      ensures Tree(old(Snap(nodes)), old(root)) && Keeps(old(Snap(nodes)), old(root), Snap(nodes), root, node.level + 1)
      decreases root.level - node.level, 0
    {
      hide *;
      LinkedFacts({});
      ghost var h, top := Snap(nodes), root;
      NodeAt(nodes, node);
      NodeAt(nodes, root);
      if node != root {
        ParentOf(nodes, root, node);
        NodeAt(nodes, node.parent);
        if node.parent.count == K {
          var above, i := RebalanceOrSplit(node.parent, node.position);
          LinkedFacts({above});
          FollowsParent(h, top, node, Snap(nodes), root, above, i);
          SnapKeys(nodes, node);
          NodeAt(nodes, node);
        } else {
          LinkedMore({node.parent});
          KeepsAll(h, root, node.level + 1);
        }
      } else {
        GrowRoot();
        LinkedFacts({root});
        FollowsTop(h, top, Snap(nodes), root);
        NodeAt(nodes, node);
      }
    }

    /** Finds or makes room for one more value at a place of a full node. */
    method RebalanceOrSplit(node: Node, position: nat) returns (n: Node, p: nat)
      requires Linked({}) && node in nodes && node.count == node.Capacity() == K && position <= K
      modifies this`root, this`rightmost, this`nodes, nodes`slots, nodes`count, nodes`children, nodes`parent, nodes`position
      ensures old(nodes) <= nodes && fresh(nodes - old(nodes)) && n in nodes && Linked({n}) && n.count < n.Capacity() == K
      ensures Follows(old(Snap(nodes)), old(root), node, position, Snap(nodes), root, n, p)
      decreases root.level - node.level, 2
    {
      hide *;
      LinkedFacts({});
      if node != root {
        var done;
        ghost var sibling;
        done, n, p, sibling := RebalanceLeft(node, position);
        if done {
          LinkedMore({n});
          return;
        }
        done, n, p, sibling := RebalanceRight(node, position);
        if done {
          LinkedMore({n});
          return;
        }
      }
      n, p := SplitWithRoom(node, position);
    }

    /** Makes room in the parent, through a new root if there is no parent, and splits the full node. */
    method SplitWithRoom(node: Node, position: nat) returns (n: Node, p: nat)
      requires Linked({}) && node in nodes && node.count == node.Capacity() == K && position <= K
      modifies this`root, this`rightmost, this`nodes, nodes`slots, nodes`count, nodes`children, nodes`parent, nodes`position
      ensures old(nodes) <= nodes && fresh(nodes - old(nodes)) && n in nodes && Linked({n}) && n.count < n.Capacity() == K
      ensures Follows(old(Snap(nodes)), old(root), node, position, Snap(nodes), root, n, p)
      decreases root.level - node.level, 1
    {
      hide *;
      LinkedFacts({});
      ghost var h, top := Snap(nodes), root;
      NodeAt(nodes, node);
      RoomAbove(node);
      LinkedFacts({node.parent});
      ghost var h1 := Snap(nodes);
      SnapKeys(nodes, node);
      n, p := SplitOff(node, position);
      LinkedFacts({n});
      FollowsAbove(h, top, h1, root, Snap(nodes), root, h[node].level + 1, node, position, n, p);
    }

    // ----- insertion

    /** Replaces a full leaf root that is below the node capacity by one of twice its size. */
    method GrowLeafRoot()
      requires Linked({}) && root.IsLeaf() && root.count == root.Capacity() < K
      modifies this`root, this`rightmost, this`nodes, root`slots, root`count
      ensures fresh(root) && nodes == {root} && Linked({}) && root.IsLeaf() && root.count == old(root.count) < root.Capacity() <= K
      ensures root.Capacity() == if 2 * old(root.count) < K then 2 * old(root.count) else K
      ensures Contents() == old(Contents())
    {
      hide *;
      LinkedFacts({});
      NodeAt(nodes, root);
      SoundAt(nodes, root);
      LeafRootAlone(Snap(nodes), root);
      CapacityOf(root);
      PopulatedAt(root);
      ContentsAre();
      var max := if 2 * root.Capacity() < K then 2 * root.Capacity() else K;
      var grown := NewLeafRoot(root, max);
      root, rightmost, nodes := grown, grown, {grown};
      CapacityOf(root);
      NodeAt(nodes, root);
      LoneLeaf(Snap(nodes), root);
      MakeLoneLinked({});
      ContentsAre();
    }

    lemma MakeLoneLinked(bare: set<Node>)
      requires nodes == {root} && Sound(nodes) && Fits(Snap(nodes), root, rightmost) && (root.count > 0 || root in bare)
      ensures Linked(bare)
    {
      NodeAt(nodes, root);
    }

    /** The place on a leaf with the same rank: in front of a value of an internal node stands the end of a leaf. */
    method LeafPlace(at: Iter) returns (node: Node, position: nat)
      requires Linked({}) && Place(at)
      ensures node in nodes && node.IsLeaf() && position <= node.count
      ensures RankOf(Iter(node, position)) == RankOf(at)
    {
      hide *;
      LinkedFacts({});
      RankAt(at);
      if at.node.IsLeaf() {
        node, position := at.node, at.position;
      } else {
        var prev := DecrementDown(at);
        RankIs(prev, RankOf(at) - 1);
        node, position := prev.node, prev.position + 1;
        NodeAt(nodes, node);
        LeafRank(Snap(nodes), root, node, prev.position);
        LeafRank(Snap(nodes), root, node, position);
        PlaceAt(Iter(node, position));
      }
    }

    lemma RankIs(it: Iter, k: int)
      requires Sound(nodes) && Tree(Snap(nodes), root) && Points(it, k)
      ensures Place(it) && RankOf(it) == k
      ensures it.node in nodes && 0 <= it.position <= it.node.count && it.node in Snap(nodes) && it.position <= |Snap(nodes)[it.node].vals|
      ensures RankOf(it) == Rank(Snap(nodes), root, it.node, it.position)
    {
      NodeAt(nodes, it.node);
    }

    /** A leaf with room for one more value at the rank of a place of a full leaf. */
    method LeafRoom(node: Node, position: nat) returns (n: Node, p: nat)
      requires Linked({}) && node in nodes && node.IsLeaf() && position <= node.count == node.Capacity()
      modifies this`root, this`rightmost, this`nodes, nodes`slots, nodes`count, nodes`children, nodes`parent, nodes`position
      ensures fresh(nodes - old(nodes)) && n in nodes && Linked({n}) && n.IsLeaf() && p <= n.count < n.Capacity()
      ensures Contents() == old(Contents()) && RankOf(Iter(n, p)) == old(RankOf(Iter(node, position)))
    {
      hide *;
      LinkedFacts({});
      PlaceAt(Iter(node, position));
      NodeAt(nodes, node);
      SoundAt(nodes, node);
      CapacityOf(node);
      ContentsAre();
      if node.Capacity() < K {
        SmallIsRoot(node);
        LoneRanks(Snap(nodes), root, position);
        GrowLeafRoot();
        n, p := root, position;
        LinkedFacts({});
        NodeAt(nodes, root);
        LoneRanks(Snap(nodes), root, position);
        PlaceAt(Iter(n, p));
        LinkedMore({n});
      } else {
        ghost var h, top := Snap(nodes), root;
        n, p := RebalanceOrSplit(node, position);
        LinkedFacts({n});
        FollowsFacts(h, top, node, position, Snap(nodes), root, n, p);
        SameFlat(h, top, Snap(nodes), root, h[node].level);
        NodeAt(nodes, n);
        ContentsAre();
        PlaceAt(Iter(n, p));
      }
    }

    lemma SmallIsRoot(n: Node)
      requires Linked({}) && n in nodes && n.Capacity() < K
      ensures n == root
    {
    }

    /** A tree that can take a value: populated, or a single leaf without any value yet. */
    ghost predicate Open()
      reads this`nodes, this`root, this`rightmost, nodes
    {
      Linked({}) || (nodes == {root} && Linked({root}) && root.IsLeaf() && root.count == 0)
    }

    lemma OpenFacts()
      requires Open()
      ensures Sound(nodes) && Tree(Snap(nodes), root) && Fits(Snap(nodes), root, rightmost)
      ensures !Linked({}) ==> nodes == {root} && Linked({root}) && root.IsLeaf() && root.count == 0
    {
    }

    /** A place on a leaf with room, at the rank of `at`. */
    method RoomFor(at: Iter) returns (node: Node, position: nat)
      requires Open() && Place(at)
      modifies this`root, this`rightmost, this`nodes, nodes`slots, nodes`count, nodes`children, nodes`parent, nodes`position
      ensures fresh(nodes - old(nodes)) && node in nodes && Linked({node}) && node.IsLeaf() && position <= node.count < node.Capacity()
      ensures Contents() == old(Contents()) && RankOf(Iter(node, position)) == old(RankOf(at))
    {
      hide *;
      OpenFacts();
      RankAt(at);
      node, position := at.node, at.position;
      if !at.node.IsLeaf() {
        node, position := LeafPlace(at);
      }
      SoundAt(nodes, node);
      CapacityOf(node);
      if node.count == node.Capacity() {
        node, position := LeafRoom(node, position);
      } else {
        if Linked({}) {
          LinkedMore({node});
        }
        PlaceAt(Iter(node, position));
      }
    }

    /** Puts a value at a place of a leaf that has room. */
    method PutValue(node: Node, position: nat, v: V)
      requires node in nodes && Linked({node}) && node.IsLeaf() && position <= node.count < node.Capacity()
      modifies this`size, nodes`slots, nodes`count, nodes`children, nodes`position
      ensures Linked({}) && size == old(size) + 1 && position < node.count
      ensures var k := old(RankOf(Iter(node, position)));
              k <= |old(Contents())| && Contents() == With(old(Contents()), k, v) && Points(Iter(node, position), k)
    {
      hide *;
      LinkedFacts({node});
      ContentsAre();
      PlaceAt(Iter(node, position));
      NodeAt(nodes, node);
      ghost var h := Snap(nodes);
      InsertStep(node, position, v, nodes);
      LeafInsert(h, root, rightmost, node, position, v);
      SetSize(h, node, With(h[node].vals, position, v));
      MakeLinked({});
      size := size + 1;
      LinkedFacts({});
      NodeAt(nodes, node);
      ContentsAre();
      PlaceAt(Iter(node, position));
      PointsAt(Iter(node, position));
    }

    /** Puts a value immediately in front of a place. */
    method InternalEmplace(at: Iter, v: V) returns (r: Iter)
      requires Open() && Place(at)
      modifies this`root, this`rightmost, this`size, this`nodes, nodes`slots, nodes`count, nodes`children, nodes`parent, nodes`position
      ensures fresh(nodes - old(nodes)) && Linked({}) && size == old(size) + 1
      ensures old(RankOf(at)) <= |old(Contents())| && Contents() == With(old(Contents()), old(RankOf(at)), v)
      ensures Points(r, old(RankOf(at))) && r.position < r.node.count
    {
      hide *;
      var node, position := RoomFor(at);
      PutValue(node, position, v);
      r := Iter(node, position);
    }

    // ----- repair after a deletion

    /** Merges `right` and the delimiter into its left neighbour, and drops `right`. */
    method MergeNodes(left: Node, right: Node, ghost bare: set<Node>)
      requires Linked(bare) && bare <= {left, right} && Siblings(Snap(nodes), left, right)
      requires left.Capacity() == right.Capacity() == K && left.count + 1 + right.count <= K
      modifies this`rightmost, this`nodes, nodes`slots, nodes`count, nodes`children, nodes`parent, nodes`position
      ensures nodes == old(nodes) - {right} && left in nodes && left != root && Linked({left.parent})
      ensures var h := old(Snap(nodes));
              Siblings(h, left, right) && h[left].pos < |h[h[left].parent].vals| && Snap(nodes) == Join(h, left, right)
    {
      hide *;
      LinkedFacts(bare);
      ghost var h := Snap(nodes);
      FitsFacts(h, root, rightmost);
      PairIsBeside(nodes, root, left, right);
      NodeAt(nodes, left);
      NodeAt(nodes, right);
      MergeStep(left, right, nodes, root);
      JoinFits(h, root, rightmost, left, right);
      JoinLeaves(h, root, left, right, left);
      JoinPopulated(h, root, left, right, bare);
      JoinUnder(h, root, left, right);
      RoomyLess(nodes, root, right);
      nodes := nodes - {right};
      if right.IsLeaf() {
        if rightmost == right {
          rightmost := left;
        }
      }
      SnapKeys(nodes, left);
      NodeAt(nodes, left);
      MakeLinked({left.parent});
    }

    lemma NodeIn(bare: set<Node>, n: Node)
      requires Linked(bare) && n in nodes
      ensures Sound(nodes) && n in Snap(nodes) && |Snap(nodes)[n].vals| == n.count <= n.Capacity()
    {
      NodeAt(nodes, n);
    }

    lemma PopulatedOther(bare: Node, n: Node)
      requires Linked({bare}) && n in nodes && n != bare
      ensures n.count > 0
    {
      assert Snap(nodes)[n].vals != [];
    }

    lemma LinkedFull(n: Node)
      requires Linked({n}) && n in nodes && n.count > 0
      ensures Linked({})
    {
      NodeAt(nodes, n);
    }

    /** Moves values from the right neighbour into `node`. */
    method BorrowRight(node: Node, position: nat, right: Node)
      requires node in nodes && node != root && Linked({node}) && Siblings(Snap(nodes), node, right) && right in nodes && right != root
      requires node.count < MinValues < right.count && position <= node.count
      modifies nodes`slots, nodes`count, nodes`children, nodes`parent, nodes`position
      ensures Linked({}) && node.count > old(node.count) && 0 <= right.count - node.count <= 1
      ensures Follows(old(Snap(nodes)), root, node, position, Snap(nodes), root, node, position)
    {
      hide *;
      LinkedFacts({node});
      ghost var h := Snap(nodes);
      NodeAt(nodes, node);
      NodeAt(nodes, right);
      RoomyAt(nodes, root, node);
      RoomyAt(nodes, root, right);
      SoundAt(nodes, right);
      CapacityOf(right);
      var toMove := (right.count - node.count) / 2;
      toMove := if toMove < right.count - 1 then toMove else right.count - 1;
      ghost var c := node.count + toMove;
      MoveToLeft(node, toMove, right, nodes, root);
      RecutFits(h, root, rightmost, node, right, c);
      RecutPopulated(h, root, node, right, c, {node});
      RecutFollowsLeft(h, root, node, right, c, position);
      RecutSizes(h, root, node, right, c);
      NodeAt(nodes, node);
      NodeAt(nodes, right);
      MakeLinked({});
    }

    /** Moves values from the left neighbour into `node`, which shifts the place by their number. */
    method BorrowLeft(node: Node, position: nat, left: Node) returns (p: nat)
      requires node in nodes && node != root && Linked({node}) && Siblings(Snap(nodes), left, node) && left in nodes && left != root
      requires node.count < MinValues < left.count && position <= node.count
      modifies nodes`slots, nodes`count, nodes`children, nodes`parent, nodes`position
      ensures Linked({}) && p - position == node.count - old(node.count) > 0 && 0 <= left.count - node.count <= 1
      ensures Follows(old(Snap(nodes)), root, node, position, Snap(nodes), root, node, p)
    {
      hide *;
      LinkedFacts({node});
      ghost var h := Snap(nodes);
      NodeAt(nodes, node);
      NodeAt(nodes, left);
      RoomyAt(nodes, root, node);
      RoomyAt(nodes, root, left);
      SoundAt(nodes, left);
      CapacityOf(left);
      var toMove := (left.count - node.count) / 2;
      toMove := if toMove < left.count - 1 then toMove else left.count - 1;
      ghost var c := left.count - toMove;
      MoveToRight(left, toMove, node, nodes, root);
      RecutFits(h, root, rightmost, left, node, c);
      RecutPopulated(h, root, left, node, c, {node});
      RecutFollowsRight(h, root, left, node, c, position);
      RecutSizes(h, root, left, node, c);
      NodeAt(nodes, node);
      NodeAt(nodes, left);
      p := position + toMove;
      MakeLinked({});
    }

    /** Merges an underfull node with a neighbour, or else moves values into it, and follows a place of it. */
    method TryMergeOrRebalance(node: Node, position: nat) returns (merged: bool, n: Node, p: nat)
      requires node in nodes && node != root && Linked({node}) && node.count < MinValues && position <= node.count
      modifies this`rightmost, this`nodes, nodes`slots, nodes`count, nodes`children, nodes`parent, nodes`position
      ensures nodes <= old(nodes) && n in nodes && n != root && Linked(if merged then {n.parent} else {})
      ensures merged <==> Mergeable(old(Snap(nodes)), node)
      ensures Follows(old(Snap(nodes)), root, node, position, Snap(nodes), root, n, p)
      ensures position < old(node.count) ==> p < n.count
    {
      hide *;
      LinkedFacts({node});
      ghost var h := Snap(nodes);
      NodeAt(nodes, node);
      RoomyAt(nodes, root, node);
      ParentOf(nodes, root, node);
      PopulatedOther(node, node.parent);
      MinBelowCapacity();
      if node.position > 0 {
        LeftOf(nodes, root, node);
        var left := node.parent.children[node.position - 1];
        NodeIn({node}, left);
        RoomyAt(nodes, root, left);
        if 1 + left.count + node.count <= K {
          p := position + 1 + left.count;
          MergeableWith(nodes, node, left);
          MergeNodes(left, node, {node});
          JoinFollows(h, root, left, node, node, position);
          JoinSizes(h, root, left, node);
          NodeIn({left.parent}, left);
          n, merged := left, true;
          return;
        }
      }
      if node.position < node.parent.count {
        RightOf(nodes, root, node);
        var right := node.parent.children[node.position + 1];
        NodeIn({node}, right);
        RoomyAt(nodes, root, right);
        if 1 + node.count + right.count <= K {
          MergeableWith(nodes, node, right);
          MergeNodes(node, right, {node});
          JoinFollows(h, root, node, right, node, position);
          JoinSizes(h, root, node, right);
          NodeIn({node.parent}, node);
          n, p, merged := node, position, true;
          return;
        }
        Unmergeable(nodes, root, node);
        if right.count > MinValues && (node.count == 0 || position > 0) {
          BorrowRight(node, position, right);
          n, p, merged := node, position, false;
          return;
        }
      }
      Unmergeable(nodes, root, node);
      if node.position > 0 {
        LeftOf(nodes, root, node);
        var left := node.parent.children[node.position - 1];
        if left.count > MinValues && (node.count == 0 || position < node.count) {
          p := BorrowLeft(node, position, left);
          n, merged := node, false;
          return;
        }
      }
      LinkedFull(node);
      FollowsSelf(h, root, node, position);
      n, p, merged := node, position, false;
    }

    /** Takes one level off a tree whose root has become empty; without that level there is no tree left. */
    method TryShrink()
      requires Linked({root}) && Pristine(sentinel) && sentinel !in nodes
      modifies this`root, this`rightmost, this`nodes, nodes`parent
      ensures old(root.count) > 0 ==> Linked({}) && nodes == old(nodes) && root == old(root) && Snap(nodes) == old(Snap(nodes))
      ensures old(root.count) == 0 && old(root.IsLeaf()) ==> nodes == {sentinel} && root == sentinel && Linked({sentinel}) && old(Contents()) == []
      ensures old(root.count) == 0 && !old(root.IsLeaf()) ==>
                nodes == old(nodes) - {old(root)} && Linked({}) && Topped(Snap(nodes), root, old(Snap(nodes)), old(root))
    {
      hide *;
      LinkedFacts({root});
      NodeAt(nodes, root);
      ghost var h, top := Snap(nodes), root;
      if root.count > 0 {
        LinkedFull(root);
        return;
      }
      if root.IsLeaf() {
        LeafRootAlone(h, root);
        ContentsAre();
        root, rightmost, nodes := sentinel, sentinel, {sentinel};
        MakeEmpty();
      } else {
        var child := ShrinkStep(root, nodes);
        RoomyShrunk(nodes, root, child);
        root, nodes := child, nodes - {top};
        SnapKeys(nodes, child);
        NodeAt(nodes, child);
        ShrinkFits(Snap(nodes), child, h, top, rightmost);
        ShrinkPopulated(Snap(nodes), child, h, top);
        MakeLinked({});
      }
    }

    lemma MakeEmpty()
      requires Pristine(sentinel) && nodes == {sentinel} && root == rightmost == sentinel
      ensures Linked({sentinel}) && Contents() == []
    {
      NodeAt(nodes, sentinel);
      LoneLeaf(Snap(nodes), sentinel);
    }

    /** One repair of an underfull node below the root; `res` is carried along. */
    method RepairNode(node: Node, position: nat, first: bool, res: Iter) returns (merged: bool, n: Node, r: Iter)
      requires node in nodes && node != root && Linked({node}) && node.count < MinValues && position <= node.count
      requires Place(res) && (if first then res == Iter(node, position) else res.node.level < node.level)
      requires res.node.IsLeaf() || res.position < res.node.count
      modifies this`rightmost, this`nodes, nodes`slots, nodes`count, nodes`children, nodes`parent, nodes`position
      ensures nodes <= old(nodes) && n in nodes && n != root && n.level == node.level && Linked(if merged then {n.parent} else {})
      ensures Contents() == old(Contents()) && Place(r) && RankOf(r) == old(RankOf(res)) && r.node.level <= n.level
      ensures r.node.IsLeaf() || r.position < r.node.count
    {
      hide *;
      LinkedFacts({node});
      ghost var h := Snap(nodes);
      ContentsAre();
      RankAt(res);
      NodeAt(nodes, node);
      NodeAt(nodes, res.node);
      var p;
      merged, n, p := TryMergeOrRebalance(node, position);
      LinkedFacts(if merged then {n.parent} else {});
      FollowsFacts(h, root, node, position, Snap(nodes), root, n, p);
      SameFlat(h, root, Snap(nodes), root, h[node].level);
      ContentsAre();
      NodeAt(nodes, n);
      if first {
        r := Iter(n, p);
      } else {
        r := res;
        KeepsFollows(h, root, Snap(nodes), root, h[node].level, res.node, res.position);
        SnapKeys(nodes, r.node);
      }
      NodeAt(nodes, r.node);
      PlaceAt(r);
    }

    /** Repairs the root; `res` is carried along. */
    method RepairRoot(res: Iter)
      requires Linked({root}) && Pristine(sentinel) && sentinel !in nodes && size == |Contents()|
      requires Place(res) && (res.node.IsLeaf() || res.position < res.node.count)
      modifies this`root, this`rightmost, this`nodes, nodes`parent
      ensures size == 0 ==> nodes == {sentinel} && root == sentinel && Linked({sentinel})
      ensures size > 0 ==> nodes <= old(nodes) && Linked({}) && Contents() == old(Contents())
      ensures size > 0 ==> Place(res) && RankOf(res) == old(RankOf(res)) && (res.node.IsLeaf() || res.position < res.node.count)
    {
      hide *;
      LinkedFacts({root});
      ghost var h, top := Snap(nodes), root;
      ContentsAre();
      NodeAt(nodes, root);
      RankAt(res);
      NodeAt(nodes, res.node);
      TryShrink();
      if h[top].vals == [] && h[top].level == 0 {
      } else {
        LinkedFacts({});
        ContentsAre();
        NodeAt(nodes, root);
        PopulatedAt(root);
        NotEmpty(Snap(nodes), root);
        if h[top].vals == [] {
          ShrinkKeeps(Snap(nodes), root, h, top);
          BelowRoot(h, top, res.node);
          KeepsFollows(h, top, Snap(nodes), root, h[top].level, res.node, res.position);
        }
        SnapKeys(nodes, res.node);
        NodeAt(nodes, res.node);
        PlaceAt(res);
      }
    }

    lemma EndPoints()
      requires Sound(nodes) && Fits(Snap(nodes), root, rightmost)
      ensures rightmost in nodes && Points(Iter(rightmost, rightmost.count), |Contents()|)
    {
      NodeAt(nodes, rightmost);
      EndRank(Snap(nodes), root, rightmost);
    }

    lemma MakeValid()
      requires Pristine(sentinel) && Linked({}) && size == |Contents()| && sentinel !in nodes
      ensures Valid() && size > 0
    {
      NodeAt(nodes, root);
      PopulatedAt(root);
      NotEmpty(Snap(nodes), root);
    }

    lemma MakeValidEmpty()
      requires Pristine(sentinel) && nodes == {sentinel} && root == sentinel && Linked({sentinel}) && size == 0
      ensures Valid() && Contents() == []
    {
      NodeAt(nodes, root);
      LeafRootAlone(Snap(nodes), root);
    }

    /** The climb has reached the root: the empty tree has only an end, any other one is whole again. */
    method FinishAtRoot(res: Iter) returns (r: Iter)
      requires Linked({root}) && Pristine(sentinel) && sentinel !in nodes && size == |Contents()|
      requires Place(res) && (res.node.IsLeaf() || res.position < res.node.count)
      modifies this`root, this`rightmost, this`nodes, nodes`parent
      ensures nodes <= old(nodes) + {sentinel} && Valid() && Contents() == old(Contents()) && Points(r, old(RankOf(res)))
    {
      hide *;
      LinkedFacts({root});
      RankLimit(res);
      RepairRoot(res);
      if size == 0 {
        MakeValidEmpty();
        LinkedFacts({sentinel});
        EndPoints();
        r := Iter(rightmost, rightmost.count);
      } else {
        MakeValid();
        r := Settle(res);
      }
    }

    /** Walks up from a node that has lost values, merging and rebalancing, and returns the place as an iterator. */
    method RebalanceAfterDelete(node: Node, position: nat) returns (r: Iter)
      requires node in nodes && Linked({node}) && position <= node.count && (node.IsLeaf() || position < node.count)
      requires Pristine(sentinel) && sentinel !in nodes && size == |Contents()|
      modifies this`root, this`rightmost, this`nodes, nodes`slots, nodes`count, nodes`children, nodes`parent, nodes`position
      ensures nodes <= old(nodes) + {sentinel} && Valid() && Contents() == old(Contents())
      ensures Points(r, old(RankOf(Iter(node, position))))
    {
      hide *;
      LinkedFacts({node});
      r := Iter(node, position);
      PlaceAt(r);
      MinBelowCapacity();
      var at, i: nat, first := node, position, true;
      ghost var k, was := RankOf(r), Contents();
      LevelBound({node}, node);
      while true
        invariant nodes <= old(nodes) && at in nodes && Linked({at}) && i <= at.count && Sound(nodes) && Tree(Snap(nodes), root)
        invariant Contents() == was && Place(r) && RankOf(r) == k && (r.node.IsLeaf() || r.position < r.node.count)
        invariant if first then r == Iter(at, i) else r.node.level < at.level
        invariant at.level <= root.level && root == old(root)
        decreases root.level - at.level
      {
        if at == root {
          r := FinishAtRoot(r);
          return;
        }
        if at.count >= MinValues {
          LinkedFull(at);
          break;
        }
        var merged, n;
        merged, n, r := RepairNode(at, i, first, r);
        first := false;
        if !merged {
          break;
        }
        LinkedFacts({n.parent});
        ParentOf(nodes, root, n);
        i, at := n.position, n.parent;
        LevelBound({at}, at);
      }
      MakeValid();
      r := Settle(r);
    }

    /** A place behind the last value of a leaf, as an iterator to the value that follows. */
    method Settle(it: Iter) returns (r: Iter)
      requires Linked({}) && Place(it) && (it.node.IsLeaf() || it.position < it.node.count)
      ensures Points(r, RankOf(it))
    {
      hide *;
      LinkedFacts({});
      RankAt(it);
      r := it;
      if r.position == r.node.count {
        PopulatedAt(r.node);
        NodeAt(nodes, r.node);
        LeafRank(Snap(nodes), root, r.node, r.node.count);
        LeafRank(Snap(nodes), root, r.node, r.node.count - 1);
        r := Iter(r.node, r.node.count - 1);
        PlaceAt(r);
        r := Increment(r);
      } else {
        PointsAt(r);
      }
    }

    lemma RankLimit(it: Iter)
      requires Sound(nodes) && Tree(Snap(nodes), root) && Place(it)
      ensures RankOf(it) <= |Contents()|
    {
      NodeAt(nodes, it.node);
      RankBound(Snap(nodes), root, it.node, it.position);
    }

    lemma LevelBound(bare: set<Node>, n: Node)
      requires Linked(bare) && n in nodes
      ensures n.level <= root.level
    {
      NodeAt(nodes, n);
      NodeAt(nodes, root);
    }

    // ----- deletion

    /** An iterator of smaller rank than the number of values stands at a value. */
    lemma PointsInside(it: Iter, k: nat)
      requires Linked({}) && Points(it, k) && k < |Contents()|
      ensures it.node in nodes && 0 <= it.position < it.node.count <= |it.node.slots| && RankOf(it) == k
      ensures Contents()[k] == it.node.slots[it.position]
    {
      NodeAt(nodes, it.node);
      EndRank(Snap(nodes), root, rightmost);
      RankValue(Snap(nodes), root, it.node, it.position);
    }

    /** Removes values from a leaf and repairs the tree. */
    method EraseFromLeafNode(node: Node, position: nat, n: nat) returns (r: Iter)
      requires Linked({}) && Pristine(sentinel) && sentinel !in nodes && size == |Contents()|
      requires node in nodes && node.IsLeaf() && position + n <= node.count
      modifies this`root, this`rightmost, this`nodes, this`size, nodes`slots, nodes`count, nodes`children, nodes`parent, nodes`position
      ensures nodes <= old(nodes) + {sentinel} && Valid()
      ensures var k, s := old(RankOf(Iter(node, position))), old(Contents());
              k + n <= |s| && Contents() == s[..k] + s[k + n..] && Points(r, k)
    {
      hide *;
      LinkedFacts({});
      PlaceAt(Iter(node, position));
      NodeAt(nodes, node);
      ContentsAre();
      ghost var h := Snap(nodes);
      PopulatedMore(h, {}, {node});
      RemoveStep(node, position, n, nodes);
      LeafRemove(h, root, rightmost, node, position, n);
      MakeLinked({node});
      LinkedFacts({node});
      ContentsAre();
      size := size - n;
      SetSize(h, node, h[node].vals[..position] + h[node].vals[position + n..]);
      NodeAt(nodes, node);
      PlaceAt(Iter(node, position));
      r := RebalanceAfterDelete(node, position);
    }

    lemma ValidFacts()
      requires Valid() && size > 0
      ensures Linked({}) && Pristine(sentinel) && sentinel !in nodes && size == |Contents()|
      ensures Sound(nodes) && Tree(Snap(nodes), root)
    {
    }

    lemma ValidSize()
      requires Valid()
      ensures Sound(nodes) && Tree(Snap(nodes), root) && Fits(Snap(nodes), root, rightmost) && size == |Contents()| && root in nodes
    {
    }

    /** Moves the value in front of a value of an internal node over it; returns the leaf place it came from. */
    method MoveUp(it: Iter) returns (prev: Iter)
      requires Linked({}) && Place(it) && it.position < it.node.count && !it.node.IsLeaf()
      modifies nodes`slots
      ensures Linked({}) && Place(prev) && prev.node.IsLeaf() && prev.position < prev.node.count
      ensures var k, s := old(RankOf(it)), old(Contents());
              1 <= k < |s| && Contents() == s[k := s[k - 1]] && RankOf(prev) == k - 1
    {
      hide *;
      LinkedFacts({});
      RankAt(it);
      NodeAt(nodes, it.node);
      ContentsAre();
      prev := DecrementDown(it);
      RankIs(prev, RankOf(it) - 1);
      NodeAt(nodes, prev.node);
      ghost var h, k := Snap(nodes), RankOf(it);
      ghost var v := prev.node.slots[prev.position];
      RankLimit(it);
      PointsInside(prev, k - 1);
      WriteStep(it.node, it.position, prev.node.slots[prev.position], nodes);
      PlaceWrite(h, root, rightmost, it.node, it.position, v, prev.node, prev.position);
      MakeLinked({});
      LinkedFacts({});
      ContentsAre();
      NodeAt(nodes, prev.node);
      PlaceAt(prev);
    }

    /** Removes the value at an iterator; returns the iterator to the value that followed it, or the end iterator. */
    method Erase(it: Iter) returns (r: Iter)
      requires Valid() && Place(it) && it.position < it.node.count
      modifies this, nodes - {sentinel}
      ensures nodes <= old(nodes) + {sentinel} && Valid()
      ensures var k, s := old(RankOf(it)), old(Contents());
              k < |s| && Contents() == Without(s, k) && Points(r, k)
    {
      hide *;
      ValidSize();
      RankInside(it);
      RankAt(it);
      ValidFacts();
      ghost var k, s := RankOf(it), Contents();
      if it.node.IsLeaf() {
        r := EraseFromLeafNode(it.node, it.position, 1);
        WithoutIs(s, k);
      } else {
        var prev := MoveUp(it);
        LinkedFacts({});
        RankAt(prev);
        assert prev == Iter(prev.node, prev.position);
        r := EraseFromLeafNode(prev.node, prev.position, 1);
        MovedOver(s, k);
        WithoutIs(s[k := s[k - 1]], k - 1);
        ValidSize();
        ValidFacts();
        PointsInside(r, k - 1);
        r := Increment(r);
      }
    }

    lemma RankInside(it: Iter)
      requires Sound(nodes) && Tree(Snap(nodes), root) && Place(it) && it.position < it.node.count
      ensures it.node in nodes && 0 <= it.position < |it.node.slots|
      ensures RankOf(it) < |Contents()| && Contents()[RankOf(it)] == it.node.slots[it.position]
    {
      NodeAt(nodes, it.node);
      RankValue(Snap(nodes), root, it.node, it.position);
    }

    /** Removes the values `b..e` of one node, with the subtrees between them if it has any. */
    method EraseSameNode(node: Node, b: nat, e: nat)
      requires Linked({}) && node in nodes && b < e <= node.count && (node.IsLeaf() || e < node.count)
      modifies this`nodes, nodes`slots, nodes`count, nodes`children, nodes`position
      ensures nodes <= old(nodes) && node in nodes && Linked({node}) && b <= node.count && (node.IsLeaf() || b < node.count)
      ensures var i, j, s := old(RankOf(Iter(node, b))), old(RankOf(Iter(node, e))), old(Contents());
              i <= j <= |s| && Contents() == s[..i] + s[j..] && RankOf(Iter(node, b)) == i
    {
      hide *;
      LinkedFacts({});
      PlaceAt(Iter(node, b));
      PlaceAt(Iter(node, e));
      ContentsAre();
      NodeAt(nodes, node);
      ghost var h := Snap(nodes);
      if node.IsLeaf() {
        LeafRank(h, root, node, b);
        LeafRank(h, root, node, e);
        PopulatedMore(h, {}, {node});
        RemoveStep(node, b, e - b, nodes);
        LeafRemove(h, root, rightmost, node, b, e - b);
        SetSize(h, node, h[node].vals[..b] + h[node].vals[b + (e - b)..]);
        MakeLinked({node});
      } else {
        ghost var left, dead := ClearBetween(node, b, e, nodes, root);
        ExciseStep(node, b, e, nodes, root, dead);
        RoomyPart(nodes, root, left);
        nodes := left;
        ExciseWhole(h, root, rightmost, node, b, e, dead);
        MakeLinked({});
        LinkedMore({node});
      }
      LinkedFacts({node});
      SnapKeys(nodes, node);
      NodeAt(nodes, node);
      ContentsAre();
      PlaceAt(Iter(node, b));
    }

    /** Removes all values and nodes. */
    method Clear()
      requires Valid()
      modifies this
      ensures Valid() && Contents() == [] && nodes == {sentinel}
    {
      hide *;
      ValidSize();
      if size != 0 {
        ValidFacts();
        LinkedFacts({});
        SnapKeys(nodes, root);
        KeysAre(nodes);
        SubtreeRoot(Snap(nodes), root);
        ghost var left := InternalClear(root, nodes, root, nodes);
        assert left == {};
      }
      ValidPristine();
      root, rightmost, size, nodes := sentinel, sentinel, 0, {sentinel};
      MakeEmpty();
      MakeValidEmpty();
    }

    lemma ValidPristine()
      requires Valid()
      ensures Pristine(sentinel)
    {
    }

    /** Iterators of the same rank are equal, so comparing iterators compares ranks. */
    lemma PointsUnique(a: Iter, b: Iter, k: int)
      requires Sound(nodes) && Fits(Snap(nodes), root, rightmost) && Points(a, k) && Points(b, k)
      ensures a == b
    {
      var h := Snap(nodes);
      NodeAt(nodes, a.node);
      NodeAt(nodes, b.node);
      EndRank(h, root, rightmost);
      if a.position < a.node.count {
        RankValue(h, root, a.node, a.position);
      }
      if b.position < b.node.count {
        RankValue(h, root, b.node, b.position);
      }
      if a.position < a.node.count && b.position < b.node.count {
        RankInjective(h, root, a.node, a.position, b.node, b.position);
      }
    }

    /** `std::distance`: the number of steps from one iterator to another. */
    method Distance(first: Iter, last: Iter) returns (n: nat)
      requires Valid() && Place(first) && Place(last) && Points(first, RankOf(first)) && Points(last, RankOf(last))
      requires RankOf(first) <= RankOf(last)
      ensures n == RankOf(last) - RankOf(first)
    {
      hide *;
      ValidSize();
      RankLimit(last);
      ghost var i, j := RankOf(first), RankOf(last);
      var it := first;
      n := 0;
      while it != last
        invariant Points(it, i + n) && i + n <= j && (it == last ==> i + n == j)
        decreases j - i - n
      {
        if i + n == j {
          PointsUnique(it, last, j);
        }
        ValidFacts();
        PointsInside(it, i + n);
        it := Increment(it);
        n := n + 1;
        if it == last {
          RankIs(it, i + n);
        }
      }
    }

    lemma PlacesInOrder(a: Iter, b: Iter)
      requires Linked({}) && Place(a) && Place(b) && Points(a, RankOf(a)) && Points(b, RankOf(b)) && a.node == b.node && RankOf(a) < RankOf(b)
      ensures a.node in nodes && 0 <= a.position < b.position <= b.node.count && (a.node.IsLeaf() || b.position < b.node.count)
    {
      var h := Snap(nodes);
      NodeAt(nodes, a.node);
      if b.position <= a.position {
        OffsetMonotone(h[a.node].vals, Parts(h, a.node), b.position, a.position);
      }
      if b.position == b.node.count {
        NodeAt(nodes, rightmost);
      }
    }

    /** The values from `first` up to `last` stand in one node. */
    method EraseInNode(first: Iter, last: Iter, n: nat) returns (r: Iter)
      requires Linked({}) && Pristine(sentinel) && sentinel !in nodes && size == |Contents()|
      requires Place(first) && Place(last) && Points(first, RankOf(first)) && Points(last, RankOf(last))
      requires first.node == last.node && n > 0 && RankOf(last) - RankOf(first) == n
      modifies this, nodes
      ensures nodes <= old(nodes) + {sentinel} && Valid()
      ensures var i, s := old(RankOf(first)), old(Contents());
              i + n <= |s| && Contents() == s[..i] + s[i + n..] && Points(r, i)
    {
      hide *;
      PlacesInOrder(first, last);
      var node, b := first.node, first.position;
      assert first == Iter(node, b) && last == Iter(node, last.position);
      EraseSameNode(node, b, last.position);
      LinkedFacts({node});
      size := size - n;
      r := RebalanceAfterDelete(node, b);
    }

    /** Erases between one and `remaining` values from `it` on: as many as its leaf holds, or the one at an internal node. */
    method EraseSome(it: Iter, remaining: nat) returns (r: Iter)
      requires Valid() && 0 < remaining <= size && Place(it) && Points(it, RankOf(it)) && RankOf(it) + remaining <= |Contents()|
      modifies this, nodes - {sentinel}
      ensures nodes <= old(nodes) + {sentinel} && Valid() && old(size) - remaining <= size < old(size)
      ensures var i, s, m := old(RankOf(it)), old(Contents()), old(size) - size;
              i + m <= |s| && Contents() == s[..i] + s[i + m..] && Points(r, i)
    {
      hide *;
      ValidSize();
      ValidFacts();
      ghost var i, s := RankOf(it), Contents();
      PointsInside(it, i);
      if it.node.IsLeaf() {
        var inNode := it.node.count - it.position;
        var m := if remaining < inNode then remaining else inNode;
        assert it == Iter(it.node, it.position);
        r := EraseFromLeafNode(it.node, it.position, m);
      } else {
        r := Erase(it);
        WithoutIs(s, i);
      }
      ValidSize();
    }

    /** Removes `n` values starting at an iterator, leaf by leaf. */
    method EraseAcross(first: Iter, n: nat) returns (r: Iter)
      requires Valid() && Place(first) && Points(first, RankOf(first)) && RankOf(first) + n <= |Contents()| && n < size
      modifies this, nodes - {sentinel}
      ensures nodes <= old(nodes) + {sentinel} && Valid()
      ensures var i, s := old(RankOf(first)), old(Contents());
              i + n <= |s| && Contents() == s[..i] + s[i + n..] && Points(r, i)
    {
      hide *;
      ValidSize();
      ghost var i, s := RankOf(first), Contents();
      var target := size - n;
      r := first;
      assert s == s[..i] + s[i..];
      while size > target
        invariant nodes <= old(nodes) + {sentinel} && Valid() && target <= size <= |s| && Sound(nodes) && Tree(Snap(nodes), root)
        invariant i + (|s| - size) <= |s| && Contents() == s[..i] + s[i + (|s| - size)..] && Points(r, i)
        decreases size
      {
        ghost var gone, was := |s| - size, size;
        RankIs(r, i);
        r := EraseSome(r, size - target);
        SliceAgain(s, i, gone, was - size);
        ValidSize();
      }
    }

    /** Removes the values from `first` up to `last`; returns their number and the iterator to the value formerly at `last`. */
    method EraseRange(first: Iter, last: Iter) returns (n: nat, r: Iter)
      requires Valid() && Place(first) && Place(last) && Points(first, RankOf(first)) && Points(last, RankOf(last))
      requires RankOf(first) <= RankOf(last)
      modifies this, nodes - {sentinel}
      ensures nodes <= old(nodes) + {sentinel} && Valid()
      ensures var i, j, s := old(RankOf(first)), old(RankOf(last)), old(Contents());
              && n == j - i && j <= |s| && Contents() == s[..i] + s[j..] && Points(r, i)
              && Contents() == EraseTimes(s, i, n)
    {
      hide *;
      ValidSize();
      RankLimit(first);
      RankLimit(last);
      ghost var i, j, s := RankOf(first), RankOf(last), Contents();
      EraseTimesIsSlice(s, i, j - i);
      n := Distance(first, last);
      if n == 0 {
        r := first;
        return;
      }
      if n == size {
        Clear();
        ValidSize();
        EndPoints();
        r := Iter(rightmost, rightmost.count);
        return;
      }
      ValidFacts();
      RankAt(first);
      RankAt(last);
      if first.node == last.node {
        r := EraseInNode(first, last, n);
      } else {
        r := EraseAcross(first, n);
      }
    }

    // ----- searching

    /** The descent from the root: the place on a leaf that splits the values by a test. */
    method Locate(key: V, test: Test) returns (it: Iter)
      requires Sound(nodes) && Fits(Snap(nodes), root, rightmost) && Monotone(Contents(), key, test)
      ensures Place(it) && it.node.IsLeaf() && Splits(Contents(), key, test, RankOf(it))
    {
      hide *;
      ghost var h := Snap(nodes);
      FitsFacts(h, root, rightmost);
      ContentsAre();
      ghost var r := Scan(Flat(h, root), key, test);
      ScanParts(Flat(h, root), key, test);
      SplitsBound(Flat(h, root), key, test, r);
      SpansRoot(h, root, r);
      SnapKeys(nodes, root);
      var node := root;
      var position: nat;
      while true
        invariant node in nodes && node in h && Spans(h, root, node, r)
        decreases h[node].level
      {
        NodeAt(nodes, node);
        SoundAt(nodes, node);
        NodeMonotone(h, root, node, key, test);
        ValsAt(nodes, node);
        position := Search(node, key, test);
        SplitsBound(h[node].vals, key, test, position);
        if node.IsLeaf() {
          SplitFound(h, root, node, key, test, r, position);
          break;
        }
        SplitDown(h, root, node, key, test, r, position);
        node := node.children[position];
        SnapKeys(nodes, node);
      }
      it := Iter(node, position);
      PlaceAt(it);
    }

    /** Moves a place at the end of a node up to the value that follows it; there is none behind the last value. */
    method InternalLast(it: Iter) returns (r: Option<Iter>)
      requires Sound(nodes) && Fits(Snap(nodes), root, rightmost) && Place(it)
      ensures r.None? <==> RankOf(it) == |Contents()|
      ensures r.Some? ==> Points(r.value, RankOf(it)) && r.value.position < r.value.node.count
    {
      hide *;
      ghost var h := Snap(nodes);
      FitsFacts(h, root, rightmost);
      ContentsAre();
      RankAt(it);
      ghost var k := RankOf(it);
      var node, position: nat := it.node, it.position;
      NodeAt(nodes, node);
      while position == node.count
        invariant node in nodes && node in h && position <= |h[node].vals| == node.count && Rank(h, root, node, position) == k
        invariant h[node].level <= h[root].level
        decreases h[root].level - h[node].level
      {
        NodeAt(nodes, node);
        RootTest(h, root, rightmost, node);
        SnapKeys(nodes, node.parent);
        NodeAt(nodes, node.parent);
        if node != root {
          RankClimb(h, root, node);
        } else {
          LastRank(h, root, root);
          Zipper(h, root, root);
        }
        position, node := node.position, node.parent;
        if node.IsLeaf() {
          return None;
        }
      }
      RankValue(h, root, node, position);
      r := Some(Iter(node, position));
      PlaceAt(r.value);
      PointsAt(r.value);
    }

    method InternalEnd(it: Option<Iter>) returns (r: Iter)
      ensures r == if it.Some? then it.value else Iter(rightmost, rightmost.count)
    {
      r := if it.Some? then it.value else Iter(rightmost, rightmost.count);
    }

    /** The iterator to the first value that fails a test, or the end iterator. */
    method Bound(key: V, test: Test) returns (r: Iter)
      requires Sound(nodes) && Fits(Snap(nodes), root, rightmost) && Monotone(Contents(), key, test)
      ensures Points(r, Scan(Contents(), key, test)) && Splits(Contents(), key, test, RankOf(r))
    {
      hide *;
      FitsFacts(Snap(nodes), root, rightmost);
      var it := Locate(key, test);
      PartsUnique(Contents(), key, test, RankOf(it));
      var last := InternalLast(it);
      EndPoints();
      r := InternalEnd(last);
      RankIs(r, Scan(Contents(), key, test));
    }

    /** `lower_bound`: the first value that is not less than the key. */
    method LowerBound(key: V) returns (r: Iter)
      requires Valid() && Sorted(Contents())
      ensures Place(r) && Points(r, RankOf(r)) && IsLower(Contents(), key, RankOf(r))
    {
      hide *;
      ValidSize();
      SortedMonotone(Contents(), key);
      r := Bound(key, Less);
      RankIs(r, Scan(Contents(), key, Less));
      BoundsAreParts(Contents(), key, RankOf(r));
    }

    /** `upper_bound`: the first value that is greater than the key. */
    method UpperBound(key: V) returns (r: Iter)
      requires Valid() && Sorted(Contents())
      ensures Place(r) && Points(r, RankOf(r)) && IsUpper(Contents(), key, RankOf(r))
    {
      hide *;
      ValidSize();
      SortedMonotone(Contents(), key);
      r := Bound(key, NotAbove);
      RankIs(r, Scan(Contents(), key, NotAbove));
      BoundsAreParts(Contents(), key, RankOf(r));
    }

    /** The descent with three-way comparison: stops at a match, or else at the place on a leaf where the key belongs. */
    method LocateTo(key: V, multi: bool) returns (it: Iter, eq: bool)
      requires Sound(nodes) && Fits(Snap(nodes), root, rightmost) && Sorted(Contents())
      ensures Place(it)
      ensures if eq then it.position < it.node.count && Same(it.node.slots[it.position], key)
              else it.node.IsLeaf() && IsLower(Contents(), key, RankOf(it)) && !Holds(Contents(), key)
      ensures eq && multi ==> it.node.Ok() && IsLower(it.node.Vals(), key, it.position)
    {
      hide *;
      ghost var h := Snap(nodes);
      FitsFacts(h, root, rightmost);
      ContentsAre();
      ghost var r := Slot(Flat(h, root), key);
      SlotSplits(Flat(h, root), key);
      SplitsBound(Flat(h, root), key, Less, r);
      SpansRoot(h, root, r);
      GreaterRoot(h, root, key);
      SnapKeys(nodes, root);
      var node := root;
      var position: nat;
      while true
        invariant node in nodes && node in h && Spans(h, root, node, r) && Greater(h, root, node, key)
        decreases h[node].level
      {
        NodeAt(nodes, node);
        ValsAt(nodes, node);
        NodeSorted(h, root, node);
        position, eq := SearchTo(node, key, multi);
        if eq {
          it := Iter(node, position);
          PlaceAt(it);
          return;
        }
        MissAt(h[node].vals, key, position);
        if node.IsLeaf() {
          SplitFound(h, root, node, key, Less, r, position);
          GreaterLeaf(h, root, node, key, position);
          break;
        }
        SplitDown(h, root, node, key, Less, r, position);
        GreaterDown(h, root, node, key, position);
        node := node.children[position];
        SnapKeys(nodes, node);
      }
      it := Iter(node, position);
      PlaceAt(it);
      BoundsAreParts(Flat(h, root), key, r);
      HoldsAtSlot(Flat(h, root), key, r);
    }

    /** A place of the key's rank on a leaf, or an iterator to the value that matches the key. */
    method FindPlace(key: V, multi: bool) returns (it: Iter, found: bool)
      requires Sound(nodes) && Fits(Snap(nodes), root, rightmost) && Sorted(Contents())
      ensures found <==> Holds(Contents(), key)
      ensures Place(it) && (!found ==> IsLower(Contents(), key, RankOf(it)))
      ensures !UseCompareTo ==> IsLower(Contents(), key, RankOf(it))
      ensures UseCompareTo && found && multi ==> it.node.Ok() && IsLower(it.node.Vals(), key, it.position)
      ensures found ==> it.position < it.node.count && Points(it, RankOf(it)) && Same(it.node.slots[it.position], key)
    {
      hide *;
      FitsFacts(Snap(nodes), root, rightmost);
      if UseCompareTo {
        it, found := LocateTo(key, multi);
        if found {
          RankInside(it);
          HoldsAt(Contents(), key, RankOf(it));
          PointsAt(it);
        }
      } else {
        SortedMonotone(Contents(), key);
        it := Locate(key, Less);
        ghost var k := RankOf(it);
        BoundsAreParts(Contents(), key, k);
        HoldsAtSlot(Contents(), key, k);
        RankLimit(it);
        var last := InternalLast(it);
        found := false;
        if last.Some? {
          RankIs(last.value, k);
          RankInside(last.value);
          if !Less(key, last.value.node.slots[last.value.position]) {
            it, found := last.value, true;
            SameAtLower(Contents(), key, k);
          }
        }
      }
    }

    /** `find`: an iterator to a value that matches the key, or the end iterator. */
    method Find(key: V, multi: bool) returns (r: Iter)
      requires Valid() && Sorted(Contents())
      ensures Place(r) && Points(r, RankOf(r))
      ensures if Holds(Contents(), key) then RankOf(r) < |Contents()| && Same(Contents()[RankOf(r)], key) else RankOf(r) == |Contents()|
      ensures !UseCompareTo && Holds(Contents(), key) ==> IsLower(Contents(), key, RankOf(r))
      ensures UseCompareTo && multi && Holds(Contents(), key) ==> r.node.Ok() && IsLower(r.node.Vals(), key, r.position)
    {
      hide *;
      ValidSize();
      var it, found := FindPlace(key, multi);
      var hit := None;
      if found {
        RankInside(it);
        hit := Some(it);
      }
      EndPoints();
      r := InternalEnd(hit);
      RankIs(r, if found then RankOf(it) else |Contents()|);
    }

    /** An empty tree gets a leaf root for one value. */
    method EnsureRoot()
      requires Valid()
      modifies this`root, this`rightmost, this`nodes
      ensures Open() && sentinel !in nodes && Pristine(sentinel) && size == |Contents()| && Contents() == old(Contents())
      ensures fresh(nodes - old(nodes)) && (size > 0 ==> Valid() && nodes == old(nodes) && root == old(root) && rightmost == old(rightmost))
    {
      hide *;
      ValidSize();
      ValidPristine();
      if size == 0 {
        var leaf := NewRoot(1);
        root, rightmost, nodes := leaf, leaf, {leaf};
        NodeAt(nodes, root);
        LoneLeaf(Snap(nodes), root);
        MakeLoneLinked({root});
        FitsFacts(Snap(nodes), root, rightmost);
        ContentsAre();
      } else {
        ValidFacts();
      }
      MakeOpen();
    }

    lemma MakeOpen()
      requires Linked({}) || (nodes == {root} && Linked({root}) && root.IsLeaf() && root.count == 0)
      ensures Open()
    {
    }

    /** Inserts a key unless it is present; returns an iterator to the key and whether it was inserted. */
    method InsertUnique(key: V) returns (r: Iter, inserted: bool)
      requires Valid() && Strict(Contents())
      modifies this, nodes - {sentinel}
      ensures fresh(nodes - old(nodes)) && Valid() && Strict(Contents()) && inserted == !Holds(old(Contents()), key)
      ensures Slot(old(Contents()), key) <= |old(Contents())|
      ensures Contents() == if inserted then With(old(Contents()), Slot(old(Contents()), key), key) else old(Contents())
      ensures Points(r, Slot(old(Contents()), key))
    {
      hide *;
      ValidSize();
      EnsureRoot();
      OpenFacts();
      ghost var s := Contents();
      StrictSorted(s);
      var it, found := FindPlace(key, false);
      if found {
        RankInside(it);
        MatchIsSlot(s, key, RankOf(it));
        SlotIs(s, key, RankOf(it));
        r, inserted := it, false;
      } else {
        SlotIs(s, key, RankOf(it));
        InsertStrict(s, key);
        WithLength(s, Slot(s, key), key);
        r := InternalEmplace(it, key);
        LinkedFacts({});
        inserted := true;
        MakeValid();
      }
    }

    /** Puts an absent key in front of an iterator of its rank. */
    method EmplaceUnique(at: Iter, key: V) returns (r: Iter)
      requires Valid() && size > 0 && Strict(Contents()) && Place(at)
      requires var s, k := Contents(), RankOf(at);
               k <= |s| && (k > 0 ==> Less(s[k - 1], key)) && (k < |s| ==> Less(key, s[k]))
      modifies this, nodes - {sentinel}
      ensures fresh(nodes - old(nodes)) && Valid() && Strict(Contents()) && !Holds(old(Contents()), key)
      ensures Slot(old(Contents()), key) <= |old(Contents())| && Contents() == With(old(Contents()), Slot(old(Contents()), key), key)
      ensures Points(r, Slot(old(Contents()), key))
    {
      hide *;
      ValidSize();
      ValidFacts();
      MakeOpen();
      BetweenIsSlot(Contents(), RankOf(at), key);
      WithLength(Contents(), RankOf(at), key);
      r := InternalEmplace(at, key);
      LinkedFacts({});
      MakeValid();
    }

    /** Whether `it` is the end or at a value that `key` precedes; without `strict`, one that does not precede `key`. */
    method FitsBefore(it: Iter, key: V, strict: bool) returns (fits: bool)
      requires Valid() && size > 0 && Place(it) && Points(it, RankOf(it))
      ensures RankOf(it) <= |Contents()|
      ensures RankOf(it) < |Contents()| ==>
                && it.node in nodes && 0 <= it.position < it.node.count <= |it.node.slots|
                && Contents()[RankOf(it)] == it.node.slots[it.position]
      ensures fits == (RankOf(it) == |Contents()| || if strict then Less(key, Contents()[RankOf(it)]) else !Less(Contents()[RankOf(it)], key))
    {
      hide *;
      ValidFacts();
      LinkedFacts({});
      EndPoints();
      if it == Iter(rightmost, rightmost.count) {
        RankIs(it, |Contents()|);
        fits := true;
      } else {
        NotEnd(it);
        RankInside(it);
        PointsInside(it, RankOf(it));
        fits := if strict then Less(key, it.node.slots[it.position]) else !Less(it.node.slots[it.position], key);
      }
    }

    /** Whether `it` is the beginning or behind a value that precedes `key`; without `strict`, one that `key` does not precede. */
    method FitsBehind(it: Iter, key: V, strict: bool) returns (fits: bool)
      requires Valid() && size > 0 && Place(it) && Points(it, RankOf(it)) && RankOf(it) <= |Contents()|
      ensures fits == (RankOf(it) == 0 || if strict then Less(Contents()[RankOf(it) - 1], key) else !Less(key, Contents()[RankOf(it) - 1]))
    {
      hide *;
      ValidFacts();
      LinkedFacts({});
      var begin := Begin();
      if it == begin {
        RankIs(it, 0);
        fits := true;
      } else {
        if RankOf(it) == 0 {
          PointsUnique(it, begin, 0);
        }
        var prev := Decrement(it);
        PointsInside(prev, RankOf(it) - 1);
        fits := if strict then Less(prev.node.slots[prev.position], key) else !Less(key, prev.node.slots[prev.position]);
      }
    }

    /** Inserts a key unless it is present; a hint next to the place of the key saves the search. */
    method InsertHintUnique(hint: Iter, key: V) returns (r: Iter, inserted: bool)
      requires Valid() && Strict(Contents()) && Place(hint) && Points(hint, RankOf(hint))
      modifies this, nodes - {sentinel}
      ensures fresh(nodes - old(nodes)) && Valid() && Strict(Contents()) && inserted == !Holds(old(Contents()), key)
      ensures Slot(old(Contents()), key) <= |old(Contents())|
      ensures Contents() == if inserted then With(old(Contents()), Slot(old(Contents()), key), key) else old(Contents())
      ensures Points(r, Slot(old(Contents()), key))
    {
      hide *;
      ValidSize();
      if size != 0 {
        ValidFacts();
        ghost var s, k := Contents(), RankOf(hint);
        var before := FitsBefore(hint, key, true);
        if before {
          var behind := FitsBehind(hint, key, true);
          if behind {
            r := EmplaceUnique(hint, key);
            inserted := true;
            return;
          }
        } else if Less(hint.node.slots[hint.position], key) {
          var next := Increment(hint);
          RankIs(next, k + 1);
          before := FitsBefore(next, key, true);
          if before {
            r := EmplaceUnique(next, key);
            inserted := true;
            return;
          }
        } else {
          MatchIsSlot(s, key, k);
          SlotIs(s, key, k);
          r, inserted := hint, false;
          return;
        }
      }
      r, inserted := InsertUnique(key);
    }

    /** An iterator other than the end iterator stands at a value. */
    lemma NotEnd(it: Iter)
      requires Linked({}) && Place(it) && Points(it, RankOf(it)) && it != Iter(rightmost, rightmost.count)
      ensures it.position < it.node.count
    {
    }

    /** Puts a value at a place between values that are not greater and values that are not less. */
    method EmplaceMulti(at: Iter, v: V) returns (r: Iter)
      requires Open() && Pristine(sentinel) && sentinel !in nodes && size == |Contents()| && Sorted(Contents()) && Place(at)
      requires var s, k := Contents(), RankOf(at);
               k <= |s| && (k > 0 ==> !Less(v, s[k - 1])) && (k < |s| ==> !Less(s[k], v))
      modifies this, nodes
      ensures fresh(nodes - old(nodes)) && Valid() && Sorted(Contents())
      ensures old(RankOf(at)) <= |old(Contents())| && Contents() == With(old(Contents()), old(RankOf(at)), v)
      ensures Points(r, old(RankOf(at)))
    {
      hide *;
      OpenFacts();
      WithSorted(Contents(), RankOf(at), v);
      WithLength(Contents(), RankOf(at), v);
      r := InternalEmplace(at, v);
      LinkedFacts({});
      MakeValid();
    }

    /** Inserts a value behind those that are not greater. */
    method InsertMulti(v: V) returns (r: Iter)
      requires Valid() && Sorted(Contents())
      modifies this, nodes - {sentinel}
      ensures fresh(nodes - old(nodes)) && Valid() && Sorted(Contents())
      ensures var s, k := old(Contents()), Scan(old(Contents()), v, NotAbove);
              IsUpper(s, v, k) && Contents() == With(s, k, v) && Points(r, k)
    {
      hide *;
      ValidSize();
      EnsureRoot();
      OpenFacts();
      ghost var s := Contents();
      SortedMonotone(s, v);
      FitsFacts(Snap(nodes), root, rightmost);
      var at := Bound(v, NotAbove);
      ghost var k := Scan(s, v, NotAbove);
      RankIs(at, k);
      BoundsAreParts(s, v, k);
      UpperNeighbours(s, v, k);
      r := EmplaceMulti(at, v);
    }

    /** Inserts a value; a hint next to its place saves the search. */
    method InsertHintMulti(hint: Iter, v: V) returns (r: Iter)
      requires Valid() && Sorted(Contents()) && Place(hint) && Points(hint, RankOf(hint))
      modifies this, nodes - {sentinel}
      ensures fresh(nodes - old(nodes)) && Valid() && Sorted(Contents())
      ensures var s, k := old(Contents()), old(RankOf(hint));
              k <= |s| && Contents() == With(s, HintPlace(s, k, v), v) && Points(r, HintPlace(s, k, v))
    {
      hide *;
      ValidSize();
      ghost var s, k := Contents(), RankOf(hint);
      RankLimit(hint);
      HintPlaceIs(s, k, v);
      if size != 0 {
        ValidFacts();
        MakeOpen();
        var before := FitsBefore(hint, v, false);
        if before {
          var behind := FitsBehind(hint, v, false);
          if behind {
            r := EmplaceMulti(hint, v);
            return;
          }
        } else {
          LessNotAbove(hint.node.slots[hint.position], v);
          var next := Increment(hint);
          RankIs(next, k + 1);
          before := FitsBefore(next, v, false);
          if before {
            r := EmplaceMulti(next, v);
            return;
          }
        }
      }
      r := InsertMulti(v);
    }

    /** Removes a value that matches the key; returns how many were removed. */
    method EraseUnique(key: V) returns (n: nat)
      requires Valid() && Strict(Contents())
      modifies this, nodes - {sentinel}
      ensures nodes <= old(nodes) + {sentinel} && Valid() && Strict(Contents())
      ensures n == if Holds(old(Contents()), key) then 1 else 0
      ensures n == 1 ==> Slot(old(Contents()), key) < |old(Contents())| && Contents() == Without(old(Contents()), Slot(old(Contents()), key))
      ensures n == 0 ==> Contents() == old(Contents())
    {
      hide *;
      ValidSize();
      ghost var s := Contents();
      StrictSorted(s);
      var it, found := FindPlace(key, false);
      if !found {
        return 0;
      }
      RankInside(it);
      MatchIsSlot(s, key, RankOf(it));
      SlotIs(s, key, RankOf(it));
      WithoutStrict(s, RankOf(it));
      var next := Erase(it);
      n := 1;
    }

    /** Removes all values that match the key; returns how many were removed. */
    method EraseMulti(key: V) returns (n: nat)
      requires Valid() && Sorted(Contents())
      modifies this, nodes - {sentinel}
      ensures nodes <= old(nodes) + {sentinel} && Valid() && Sorted(Contents())
      ensures var s, i, j := old(Contents()), Scan(old(Contents()), key, Less), Scan(old(Contents()), key, NotAbove);
              i <= j && IsLower(s, key, i) && IsUpper(s, key, j) && n == j - i && Contents() == s[..i] + s[j..]
    {
      hide *;
      ValidSize();
      ghost var s := Contents();
      SortedMonotone(s, key);
      var at := Locate(key, Less);
      ghost var i := RankOf(at);
      RankLimit(at);
      BoundsAreParts(s, key, i);
      var last := UpperBound(key);
      ghost var j := RankOf(last);
      RankLimit(last);
      LowerBelowUpper(s, key, i, j);
      BoundsAre(s, key, i, j);
      SliceSorted(s, i, j);
      var first := InternalLast(at);
      if first.None? {
        assert s == s[..i] + s[j..];
        return 0;
      }
      RankIs(first.value, i);
      var next;
      n, next := EraseRange(first.value, last);
    }

    // ----- iterating over the whole tree

    /** `++` from the first iterator visits the values in order, and reaches the end iterator after `size` steps. */
    method Walk() returns (s: seq<V>)
      requires Valid()
      ensures s == Contents() && |s| == size
    {
      hide *;
      ValidSize();
      EndPoints();
      var it := Begin();
      s := [];
      while it != Iter(rightmost, rightmost.count)
        invariant Points(it, |s|) && |s| <= size && s == Contents()[..|s|]
        decreases size - |s|
      {
        if |s| == size {
          PointsUnique(it, Iter(rightmost, rightmost.count), |s|);
        }
        ValidFacts();
        PointsInside(it, |s|);
        s := s + [it.node.slots[it.position]];
        it := Increment(it);
      }
      RankIs(it, |s|);
      RankIs(it, size);
    }

    /** `--` undoes `++`. */
    method ForthAndBack(it: Iter) returns (r: Iter)
      requires Valid() && size > 0 && it.node in nodes && it.position < it.node.count
      requires it == Iter(root.parent, -1) || (it.position >= 0 && Place(it))
      ensures r == it
    {
      hide *;
      ValidSize();
      ValidFacts();
      var next := Increment(it);
      if it.position >= 0 {
        PointsAt(it);
        RankIs(next, RankOf(it) + 1);
      } else {
        RankIs(next, 0);
      }
      r := Decrement(next);
      if it.position >= 0 {
        PointsUnique(r, it, RankOf(it));
      }
    }

    /** `++` undoes `--`. */
    method BackAndForth(it: Iter) returns (r: Iter)
      requires Valid() && size > 0 && Place(it) && Points(it, RankOf(it))
      ensures r == it
    {
      hide *;
      ValidSize();
      ValidFacts();
      LinkedFacts({});
      var prev := Decrement(it);
      if RankOf(it) > 0 {
        RankLimit(it);
        PointsInside(prev, RankOf(it) - 1);
      } else {
        PopulatedAt(root.parent);
      }
      r := Increment(prev);
      PointsUnique(r, it, RankOf(it));
    }

    /** The iterator of a given rank, by stepping from the first one. */
    method At(k: nat) returns (it: Iter)
      requires Valid() && k <= size
      ensures Points(it, k)
    {
      hide *;
      ValidSize();
      it := Begin();
      for i := 0 to k
        invariant Points(it, i)
      {
        ValidFacts();
        PointsInside(it, i);
        it := Increment(it);
      }
    }

    // ----- the structure check

    /** Checks a node and what hangs under it; `lo` and `hi` are the delimiters next to it, if any.
        On a sorted tree every condition holds, and the values are counted. */
    method InternalVerify(node: Node, lo: seq<V>, hi: seq<V>) returns (ok: bool, n: nat)
      requires Linked({}) && Sorted(Contents()) && node in nodes && node in Snap(nodes) && Framed(Snap(nodes), root, node, lo, hi)
      requires |lo| <= 1 && |hi| <= 1
      ensures ok && n == |Flat(Snap(nodes), node)|
      decreases node.level
    {
      hide *;
      LinkedFacts({});
      ContentsAre();
      ghost var h := Snap(nodes);
      NodeAt(nodes, node);
      SoundAt(nodes, node);
      CapacityOf(node);
      PopulatedAt(node);
      NodeSorted(h, root, node);
      FramedOrder(h, root, node, lo, hi);
      ok := node.count > 0 && node.count <= node.Capacity();
      ok := ok && (lo == [] || !Less(node.slots[0], lo[0])) && (hi == [] || !Less(hi[0], node.slots[node.count - 1]));
      for i := 1 to node.count
        invariant ok
      {
        SortedNeighbours(h[node].vals, i);
        ok := ok && !Less(node.slots[i], node.slots[i - 1]);
      }
      n := node.count;
      LastRank(h, root, node);
      if !node.IsLeaf() {
        for i := 0 to node.count + 1
          invariant ok && i <= node.count + 1
          invariant n == node.count + if i == 0 then 0 else Rank(h, root, node, i - 1) - |Before(h, root, node)| - (i - 1)
        {
          ChildAt(nodes, root, node, i);
          ChildLinks(nodes, root, node, i);
          FramedChild(h, root, node, i, lo, hi);
          ChildSize(h, root, node, i);
          ok := ok && node.children[i].parent == node && node.children[i].position == i;
          var ok', m := InternalVerify(node.children[i], if i == 0 then lo else [node.slots[i - 1]], if i == node.count then hi else [node.slots[i]]);
          ok, n := ok && ok', n + m;
        }
      } else {
        LeafRank(h, root, node, node.count);
      }
    }

    /** The container's own check of its structure succeeds on every sorted tree. */
    method Verify() returns (ok: bool)
      requires Valid() && Sorted(Contents())
      ensures ok
    {
      hide *;
      ValidSize();
      ghost var h := Snap(nodes);
      NodeAt(nodes, root);
      ok := true;
      if size != 0 {
        ValidFacts();
        LinkedFacts({});
        FramedRoot(h, root);
        ContentsAre();
        var n;
        ok, n := InternalVerify(root, [], []);
        ok := ok && size == n;
      }
      var first, last := VerifyEnds();
      ok := ok && root.parent == first && rightmost == last;
      RootTest(h, root, rightmost, root);
      SnapKeys(nodes, root.parent);
      NodeAt(nodes, root.parent);
      FitsFacts(h, root, rightmost);
      SnapKeys(nodes, rightmost);
      NodeAt(nodes, rightmost);
      ok := ok && root.parent.IsLeaf() && rightmost.IsLeaf();
    }

    /** The leaves that `++` reaches from the front of the root and `--` from its back. */
    /** A leaf that is the root is the only node. */
    lemma LoneRoot(n: Node)
      requires Sound(nodes) && Fits(Snap(nodes), root, rightmost) && root in nodes && root.IsLeaf() && n in nodes
      ensures root.parent == root && rightmost == root && n == root
    {
      hide *;
      ghost var h := Snap(nodes);
      NodeAt(nodes, root);
      FitsFacts(h, root, rightmost);
      LeafRootAlone(h, root);
      SnapKeys(nodes, n);
      AloneKeys(h, root, n);
      AloneKeys(h, root, root.parent);
      AloneKeys(h, root, rightmost);
    }

    /** Only the empty tree has an empty leaf for a root. */
    lemma RootValues()
      requires Valid() && !root.IsLeaf()
      ensures size > 0
    {
    }

    method VerifyEnds() returns (first: Node, last: Node)
      requires Valid()
      ensures first == root.parent && last == rightmost
    {
      hide *;
      ValidSize();
      ghost var h := Snap(nodes);
      NodeAt(nodes, root);
      FitsFacts(h, root, rightmost);
      if root.IsLeaf() {
        first, last := root, root;
        if 0 >= root.count {
          var a := IncrementUp(root);
          RankIs(a, RankOf(Iter(root, root.count)));
          SnapKeys(nodes, a.node);
          first := a.node;
        }
        if root.count - 1 < 0 {
          var z := DecrementUp(root);
          last := z.node;
        }
        LoneRoot(first);
      } else {
        RootValues();
        ValidFacts();
        LinkedFacts({});
        NodeAt(nodes, rightmost);
        PopulatedAt(root);
        PopulatedAt(rightmost);
        var a := IncrementDown(Iter(root, -1));
        var begin := Begin();
        PointsUnique(a, begin, 0);
        PlaceAt(Iter(root, root.count));
        LastRank(h, root, root);
        Zipper(h, root, root);
        ContentsAre();
        var z := DecrementDown(Iter(root, root.count));
        EndRank(h, root, rightmost);
        LeafRank(h, root, rightmost, rightmost.count);
        LeafRank(h, root, rightmost, rightmost.count - 1);
        PlaceAt(Iter(rightmost, rightmost.count - 1));
        PointsAt(Iter(rightmost, rightmost.count - 1));
        PointsUnique(z, Iter(rightmost, rightmost.count - 1), size - 1);
        first, last := a.node, z.node;
      }
    }
  }
}
