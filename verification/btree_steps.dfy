/** The operations on nodes, seen on the whole linked structure. */
module BtreeSteps {
  import opened BtreeValues
  import opened Buffers
  import opened BtreeNodes
  import opened BtreeShape
  import opened BtreeJoin
  import opened BtreeRecut
  import opened BtreeStore
  import opened BtreeSetVals
  import opened BtreeTop

  // ----- the steps themselves

  /** The nodes other than `l`, `r` and `p` keep their buffers, and every node its kind. */
  twostate predicate Aside(nodes: set<Node>, new l: Node, new r: Node, new p: Node)
    reads nodes
  {
    && (forall n :: n in nodes ==> n.level == old(n.level) && n.maxCount == old(n.maxCount))
    && (forall n :: n in nodes && n != l && n != r && n != p ==> n.count == old(n.count) && n.children == old(n.children) && n.slots == old(n.slots))
  }

  twostate lemma AsideLift(nodes: set<Node>, new l: Node, new r: Node, new p: Node)
    requires Aside(nodes, l, r, p)
    ensures Elsewhere(old(Fields(nodes)), Fields(nodes), l, r, p) && Fields(nodes).Keys == old(Fields(nodes)).Keys
  {
  }

  twostate lemma MovedLift(nodes: set<Node>, new l: Node, new r: Node, new lc: nat, new rc: nat)
    requires l in nodes && r in nodes && old(l.parent) in nodes && Neighbours(old(Fields(nodes)), l, r)
    requires Aside(nodes, l, r, old(l.parent)) && lc + rc == old(l.count + r.count) && lc <= K && rc <= K
    requires l.count == lc && r.count == rc && |l.slots| == |r.slots| == K
    requires old(l.parent).count == old(l.parent.count) && old(l.parent).children == old(l.parent.children) && |old(l.parent).slots| == K
    requires l.maxCount == 0 ==> |l.children| == |r.children| == K + 1
    ensures Moved(old(Fields(nodes)), Fields(nodes), l, r, lc, rc)
  {
    AsideLift(nodes, l, r, old(l.parent));
    hide Elsewhere, Aside;
  }

  twostate lemma ValsLeftLift(nodes: set<Node>, new l: Node, new r: Node, new k: nat)
    requires l in nodes && r in nodes && old(l.parent) in nodes && Neighbours(old(Fields(nodes)), l, r) && 1 <= k <= old(r.count)
    requires Moved(old(Fields(nodes)), Fields(nodes), l, r, old(l.count) + k, old(r.count) - k)
    requires l.slots[..l.count] == old(l.slots[..l.count] + [l.parent.slots[l.position]] + r.slots[..r.count][..k - 1])
    requires r.slots[..r.count] == old(r.slots[..r.count][k..])
    requires old(l.parent).slots == old(l.parent.slots)[old(l.position) := old(r.slots[k - 1])]
    ensures ValsLeft(old(Fields(nodes)), Fields(nodes), l, r, k)
  {
    hide Moved, Elsewhere;
  }

  twostate lemma KidsLeftLift(nodes: set<Node>, new l: Node, new r: Node, new k: nat)
    requires l in nodes && r in nodes && Neighbours(old(Fields(nodes)), l, r) && k <= old(r.count) && l.maxCount == old(l.maxCount)
    requires Moved(old(Fields(nodes)), Fields(nodes), l, r, old(l.count) + k, old(r.count) - k)
    requires l.maxCount == 0 ==> Copied(l.children, old(l.children), old(l.count) + 1, old(r.children), 0, k)
    requires l.maxCount == 0 ==> Copied(r.children, old(r.children), 0, old(r.children), k, r.count + 1)
    ensures KidsLeft(old(Fields(nodes)), Fields(nodes), l, r, k)
  {
    hide Moved, Elsewhere, Copied;
  }

  twostate lemma LinksLeftLift(nodes: set<Node>, new l: Node, new r: Node, new k: nat)
    requires l in nodes && r in nodes
    requires forall c :: c in nodes ==> c.parent == old(if r.Over(c) && c.position < k then l else c.parent)
    requires forall c :: c in nodes ==> c.position == old(if !r.Over(c) then c.position else
                                                          if c.position < k then l.count + 1 + c.position else c.position - k)
    ensures LinksLeft(old(Fields(nodes)), Fields(nodes), l, r, k)
  {
    ghost var w := old(Fields(nodes));
    forall c | c in nodes
      ensures Over(w, r, c) == old(r.Over(c))
    {
    }
  }

  /** Everything about the fields after `k` values have moved from `r` to `l`. */
  ghost predicate ShiftedLeft(w: Store, w': Store, l: Node, r: Node, k: nat) {
    && Neighbours(w, l, r) && 1 <= k <= w[r].count && Moved(w, w', l, r, w[l].count + k, w[r].count - k)
    && ValsLeft(w, w', l, r, k) && KidsLeft(w, w', l, r, k) && LinksLeft(w, w', l, r, k)
  }

  twostate lemma ShiftedLeftLift(nodes: set<Node>, new l: Node, new r: Node, new k: nat)
    requires l in nodes && r in nodes && old(l.parent) in nodes && Neighbours(old(Fields(nodes)), l, r) && 1 <= k <= old(r.count)
    requires Aside(nodes, l, r, old(l.parent)) && old(l.count) + k <= K
    requires l.count == old(l.count) + k && r.count == old(r.count) - k && |l.slots| == |r.slots| == K
    requires old(l.parent).count == old(l.parent.count) && old(l.parent).children == old(l.parent.children) && |old(l.parent).slots| == K
    requires l.maxCount == 0 ==> |l.children| == |r.children| == K + 1
    requires l.maxCount == old(l.maxCount)
    requires l.slots[..l.count] == old(l.slots[..l.count] + [l.parent.slots[l.position]] + r.slots[..r.count][..k - 1])
    requires r.slots[..r.count] == old(r.slots[..r.count][k..])
    requires old(l.parent).slots == old(l.parent.slots)[old(l.position) := old(r.slots[k - 1])]
    requires l.maxCount == 0 ==> Copied(l.children, old(l.children), old(l.count) + 1, old(r.children), 0, k)
    requires l.maxCount == 0 ==> Copied(r.children, old(r.children), 0, old(r.children), k, r.count + 1)
    requires forall c :: c in nodes ==> c.parent == old(if r.Over(c) && c.position < k then l else c.parent)
    requires forall c :: c in nodes ==> c.position == old(if !r.Over(c) then c.position else
                                                          if c.position < k then l.count + 1 + c.position else c.position - k)
    ensures ShiftedLeft(old(Fields(nodes)), Fields(nodes), l, r, k)
  {
    hide Moved, ValsLeft, KidsLeft, LinksLeft, Aside, Copied;
    LinksLeftLift(nodes, l, r, k);
    MovedLift(nodes, l, r, old(l.count) + k, old(r.count) - k);
    ValsLeftLift(nodes, l, r, k);
    KidsLeftLift(nodes, l, r, k);
  }

  method ShiftLeft(left: Node, toMove: nat, right: Node, ghost nodes: set<Node>)
    requires left in nodes && right in nodes && left.parent in nodes
    requires left.Beside(right) && left.Owns(nodes) && right.Owns(nodes)
    requires 1 <= toMove <= right.count && left.count + toMove <= K
    modifies nodes`slots, nodes`count, nodes`children, nodes`parent, nodes`position
    ensures ShiftedLeft(old(Fields(nodes)), Fields(nodes), left, right, toMove)
  {
    hide ShiftedLeft;
    assert Neighbours(Fields(nodes), left, right);
    left.RebalanceRightToLeft(toMove, right, nodes);
    ShiftedLeftLift(nodes, left, right, toMove);
  }

  twostate lemma ValsRightLift(nodes: set<Node>, new l: Node, new r: Node, new k: nat)
    requires l in nodes && r in nodes && old(l.parent) in nodes && Neighbours(old(Fields(nodes)), l, r) && 1 <= k <= old(l.count)
    requires Moved(old(Fields(nodes)), Fields(nodes), l, r, old(l.count) - k, old(r.count) + k)
    requires l.slots == old(l.slots)
    requires r.slots[..r.count] == old(l.slots[..l.count][l.count - k + 1..] + [l.parent.slots[l.position]] + r.slots[..r.count])
    requires old(l.parent).slots == old(l.parent.slots)[old(l.position) := old(l.slots[l.count - k])]
    ensures ValsRight(old(Fields(nodes)), Fields(nodes), l, r, k)
  {
    hide Moved, Elsewhere;
  }

  twostate lemma KidsRightLift(nodes: set<Node>, new l: Node, new r: Node, new k: nat)
    requires l in nodes && r in nodes && Neighbours(old(Fields(nodes)), l, r) && k <= old(l.count)
    requires l.maxCount == old(l.maxCount) && l.children == old(l.children) && l.count == old(l.count) - k
    requires Moved(old(Fields(nodes)), Fields(nodes), l, r, old(l.count) - k, old(r.count) + k)
    requires l.maxCount == 0 ==> Prepended(r.children, old(r.children), old(r.count) + 1, l.children, l.count + 1, k)
    ensures KidsRight(old(Fields(nodes)), Fields(nodes), l, r, k)
  {
    hide Moved, Elsewhere, Prepended;
  }

  twostate lemma LinksRightLift(nodes: set<Node>, new l: Node, new r: Node, new k: nat)
    requires l in nodes && r in nodes && k <= old(l.count)
    requires forall c :: c in nodes ==> c.parent == old(if l.Over(c) && c.position > l.count - k then r else c.parent)
    requires forall c :: c in nodes ==> c.position == old(if r.Over(c) then c.position + k else
                                                          if l.Over(c) && c.position > l.count - k then c.position - (l.count - k) - 1
                                                          else c.position)
    ensures LinksRight(old(Fields(nodes)), Fields(nodes), l, r, k)
  {
    ghost var w := old(Fields(nodes));
    forall c | c in nodes
      ensures Over(w, r, c) == old(r.Over(c)) && Over(w, l, c) == old(l.Over(c))
    {
    }
  }

  /** Everything about the fields after `k` values have moved from `l` to `r`. */
  ghost predicate ShiftedRight(w: Store, w': Store, l: Node, r: Node, k: nat) {
    && Neighbours(w, l, r) && 1 <= k <= w[l].count && Moved(w, w', l, r, w[l].count - k, w[r].count + k)
    && ValsRight(w, w', l, r, k) && KidsRight(w, w', l, r, k) && LinksRight(w, w', l, r, k)
  }

  twostate lemma ShiftedRightLift(nodes: set<Node>, new l: Node, new r: Node, new k: nat)
    requires l in nodes && r in nodes && old(l.parent) in nodes && Neighbours(old(Fields(nodes)), l, r) && 1 <= k <= old(l.count)
    requires Aside(nodes, l, r, old(l.parent)) && old(r.count) + k <= K
    requires l.count == old(l.count) - k && r.count == old(r.count) + k && |r.slots| == K
    requires l.slots == old(l.slots) && l.children == old(l.children) && l.maxCount == old(l.maxCount)
    requires old(l.parent).count == old(l.parent.count) && old(l.parent).children == old(l.parent.children) && |old(l.parent).slots| == K
    requires r.slots[..r.count] == old(l.slots[..l.count][l.count - k + 1..] + [l.parent.slots[l.position]] + r.slots[..r.count])
    requires old(l.parent).slots == old(l.parent.slots)[old(l.position) := old(l.slots[l.count - k])]
    requires l.maxCount == 0 ==> |l.children| == |r.children| == K + 1
    requires l.maxCount == 0 ==> Prepended(r.children, old(r.children), old(r.count) + 1, l.children, l.count + 1, k)
    requires forall c :: c in nodes ==> c.parent == old(if l.Over(c) && c.position > l.count - k then r else c.parent)
    requires forall c :: c in nodes ==> c.position == old(if r.Over(c) then c.position + k else
                                                          if l.Over(c) && c.position > l.count - k then c.position - (l.count - k) - 1
                                                          else c.position)
    ensures ShiftedRight(old(Fields(nodes)), Fields(nodes), l, r, k)
  {
    hide Moved, ValsRight, KidsRight, LinksRight, Aside, Prepended;
    LinksRightLift(nodes, l, r, k);
    MovedLift(nodes, l, r, old(l.count) - k, old(r.count) + k);
    ValsRightLift(nodes, l, r, k);
    KidsRightLift(nodes, l, r, k);
  }

  method ShiftRight(left: Node, toMove: nat, right: Node, ghost nodes: set<Node>)
    requires left in nodes && right in nodes && left.parent in nodes
    requires left.Beside(right) && left.Owns(nodes) && right.Owns(nodes)
    requires 1 <= toMove <= left.count && right.count + toMove <= K
    modifies nodes`slots, nodes`count, nodes`children, nodes`parent, nodes`position
    ensures ShiftedRight(old(Fields(nodes)), Fields(nodes), left, right, toMove)
  {
    hide ShiftedRight;
    assert Neighbours(Fields(nodes), left, right);
    left.RebalanceLeftToRight(toMove, right, nodes);
    ShiftedRightLift(nodes, left, right, toMove);
  }

  twostate lemma SplitLinksLift(nodes: set<Node>, new node: Node, new dest: Node)
    requires node in nodes && old(node.parent) in nodes && node.DidSplit(dest, nodes, old(node.parent))
    ensures SplitLinks(old(Fields(nodes)), Fields(nodes + {dest}), node, dest, node.count)
  {
    ghost var w := old(Fields(nodes));
    forall x | x in nodes
      ensures Over(w, node, x) == old(node.Over(x)) && Over(w, w[node].parent, x) == old(node.parent.Over(x))
    {
    }
  }

  twostate lemma SplitUpLift(nodes: set<Node>, new node: Node, new dest: Node)
    requires node in nodes && old(node.parent) in nodes && dest !in nodes && Splittable(old(Fields(nodes)), node)
    requires node.DidSplit(dest, nodes, old(node.parent)) && dest.level == node.level && dest.maxCount == node.maxCount
    ensures SplitUp(old(Fields(nodes)), Fields(nodes + {dest}), node, dest, node.count)
  {
    assert Fields(nodes + {dest}).Keys == old(Fields(nodes)).Keys + {dest};
  }

  twostate lemma SplitContentsLift(nodes: set<Node>, new node: Node, new dest: Node)
    requires node in nodes && old(node.parent) in nodes && SplitUp(old(Fields(nodes)), Fields(nodes + {dest}), node, dest, node.count)
    requires node.DidSplit(dest, nodes, old(node.parent))
    ensures SplitContents(old(Fields(nodes)), Fields(nodes + {dest}), node, dest, node.count)
  {
    hide SplitUp, With, Copied;
  }

  method SplitNode(node: Node, insertPosition: nat, dest: Node, ghost nodes: set<Node>)
    requires node in nodes && node.parent in nodes && dest !in nodes && node.Ok() && dest.Ok() && node.parent.Ok()
    requires node.Owns(nodes) && node.parent.Owns(nodes) && node.parent != node && node.parent.level == node.level + 1
    requires node.count == node.Capacity() == K && dest.count == 0 && dest.maxCount == node.maxCount && dest.level == node.level
    requires node.position <= node.parent.count < K && insertPosition <= K
    modifies nodes`slots, nodes`count, nodes`children, nodes`parent, nodes`position
    modifies dest`slots, dest`count, dest`children, dest`parent, dest`position
    ensures node.count == (if insertPosition == 0 then 0 else if insertPosition == K then K - 1 else K - K / 2 - 1)
    ensures var w, w' := old(Fields(nodes)), Fields(nodes + {dest});
            && SplitContents(w, w', node, dest, node.count) && SplitLinks(w, w', node, dest, node.count)
  {
    assert Splittable(Fields(nodes), node);
    node.Split(insertPosition, dest, nodes);
    hide *;
    SplitLinksLift(nodes, node, dest);
    SplitUpLift(nodes, node, dest);
    SplitContentsLift(nodes, node, dest);
  }

  twostate lemma MergedLinksLift(nodes: set<Node>, new left: Node, new right: Node)
    requires left in nodes && right in nodes && old(left.parent) in nodes
    requires forall n :: n in nodes ==> n.level == old(n.level)
    requires forall x :: x in nodes ==> x.parent == old(if right.Over(x) then left else x.parent)
    requires forall x :: x in nodes ==> x.position == old(if right.Over(x) then left.count + 1 + x.position else
                                                          if left.parent.Over(x) && x.position > left.position + 1 then x.position - 1 else x.position)
    ensures MergedLinks(old(Fields(nodes)), Fields(nodes), left, right)
  {
    ghost var w := old(Fields(nodes));
    forall x | x in nodes
      ensures Over(w, right, x) == old(right.Over(x)) && Over(w, w[left].parent, x) == old(left.parent.Over(x))
    {
    }
  }

  twostate lemma MergedUpLift(nodes: set<Node>, new left: Node, new right: Node)
    requires left in nodes && right in nodes && old(left.parent) in nodes && Neighbours(old(Fields(nodes)), left, right)
    requires Aside(nodes, left, right, old(left.parent)) && old(left.count + 1 + right.count) <= K
    requires left.count == old(left.count + 1 + right.count) && |left.slots| == K && right.count == 0 && right.slots == old(right.slots)
    requires left.maxCount == 0 ==> |left.children| == K + 1
    requires old(left.parent).count == old(left.parent.count) - 1 && |old(left.parent).slots| == K && |old(left.parent).children| == K + 1
    ensures MergedUp(old(Fields(nodes)), Fields(nodes), left, right)
  {
    AsideLift(nodes, left, right, old(left.parent));
    hide Elsewhere, Aside;
  }

  twostate lemma MergedContentsLift(nodes: set<Node>, new left: Node, new right: Node)
    requires left in nodes && right in nodes && old(left.parent) in nodes && MergedUp(old(Fields(nodes)), Fields(nodes), left, right)
    requires left.slots[..left.count] == old(left.slots[..left.count] + [left.parent.slots[left.position]] + right.slots[..right.count])
    requires left.maxCount == old(left.maxCount) && right.children == old(right.children)
    requires left.maxCount == 0 ==> Copied(left.children, old(left.children), old(left.count) + 1, right.children, 0, old(right.count) + 1)
    requires old(left.parent).slots[..old(left.parent).count] == Without(old(left.parent.slots[..left.parent.count]), old(left.position))
    requires Copied(old(left.parent).children, old(left.parent.children), old(left.position) + 1,
                    old(left.parent.children), old(left.position) + 2, old(left.parent).count - old(left.position))
    ensures MergedContents(old(Fields(nodes)), Fields(nodes), left, right)
  {
    hide Copied, Elsewhere, Without;
  }

  ghost predicate MergedAll(w: Store, w': Store, l: Node, r: Node) {
    MergedContents(w, w', l, r) && MergedLinks(w, w', l, r)
  }

  lemma MergedAllParts(w: Store, w': Store, l: Node, r: Node)
    requires MergedAll(w, w', l, r)
    ensures MergedContents(w, w', l, r) && l in w && r in w && w[l].parent in w && MergedLinks(w, w', l, r)
  {
  }

  twostate lemma MergedLift(nodes: set<Node>, new left: Node, new right: Node)
    requires left in nodes && right in nodes && old(left.parent) in nodes && Neighbours(old(Fields(nodes)), left, right)
    requires Aside(nodes, left, right, old(left.parent)) && old(left.count + 1 + right.count) <= K
    requires left.count == old(left.count + 1 + right.count) && |left.slots| == K && right.count == 0 && right.slots == old(right.slots)
    requires left.maxCount == 0 ==> |left.children| == K + 1
    requires old(left.parent).count == old(left.parent.count) - 1 && |old(left.parent).slots| == K && |old(left.parent).children| == K + 1
    requires left.slots[..left.count] == old(left.slots[..left.count] + [left.parent.slots[left.position]] + right.slots[..right.count])
    requires left.maxCount == old(left.maxCount) && right.children == old(right.children)
    requires left.maxCount == 0 ==> Copied(left.children, old(left.children), old(left.count) + 1, right.children, 0, old(right.count) + 1)
    requires old(left.parent).slots[..old(left.parent).count] == Without(old(left.parent.slots[..left.parent.count]), old(left.position))
    requires Copied(old(left.parent).children, old(left.parent.children), old(left.position) + 1,
                    old(left.parent.children), old(left.position) + 2, old(left.parent).count - old(left.position))
    requires forall n :: n in nodes ==> n.level == old(n.level)
    requires forall x :: x in nodes ==> x.parent == old(if right.Over(x) then left else x.parent)
    requires forall x :: x in nodes ==> x.position == old(if right.Over(x) then left.count + 1 + x.position else
                                                          if left.parent.Over(x) && x.position > left.position + 1 then x.position - 1 else x.position)
    ensures MergedAll(old(Fields(nodes)), Fields(nodes), left, right)
  {
    hide MergedUp, MergedContents, MergedLinks, Copied, Aside, Without;
    MergedLinksLift(nodes, left, right);
    MergedUpLift(nodes, left, right);
    MergedContentsLift(nodes, left, right);
  }

  method MergeNode(left: Node, right: Node, ghost nodes: set<Node>)
    requires left in nodes && right in nodes && left.parent in nodes
    requires left.Beside(right) && left.Owns(nodes) && right.Owns(nodes) && left.parent.Owns(nodes)
    requires left.count + 1 + right.count <= K
    modifies nodes`slots, nodes`count, nodes`children, nodes`parent, nodes`position
    ensures MergedAll(old(Fields(nodes)), Fields(nodes), left, right)
  {
    hide MergedAll;
    assert Neighbours(Fields(nodes), left, right);
    left.Merge(right, nodes);
    MergedLift(nodes, left, right);
  }

  lemma PairIsBeside(nodes: set<Node>, root: Node, left: Node, right: Node)
    requires Sound(nodes) && Tree(Snap(nodes), root) && Siblings(Snap(nodes), left, right)
    requires left.Capacity() == right.Capacity() == K
    ensures left in nodes && right in nodes && left.parent in nodes && left.Beside(right)
    ensures left.Owns(nodes) && right.Owns(nodes) && left.parent.Owns(nodes)
    ensures var w := Fields(nodes);
            && AtPair(w, root, left, right) && Neighbours(w, left, right) && (w[left].max == 0 <==> w[left].level > 0)
            && left in w && right in w && w[left].count == left.count <= |w[left].slots| && w[right].count == right.count && w[left].parent in w
  {
    SiblingFacts(Snap(nodes), root, left, right);
    TreeOwns(nodes, root, left);
    TreeOwns(nodes, root, right);
    TreeOwns(nodes, root, left.parent);
    SnapIsShape(nodes);
    SoundIsOk(nodes);
  }

  lemma ShiftedLeftParts(w: Store, w': Store, l: Node, r: Node, k: nat)
    requires ShiftedLeft(w, w', l, r, k)
    ensures Neighbours(w, l, r) && 1 <= k <= w[r].count && Moved(w, w', l, r, w[l].count + k, w[r].count - k)
    ensures ValsLeft(w, w', l, r, k) && KidsLeft(w, w', l, r, k) && LinksLeft(w, w', l, r, k)
  {
  }

  lemma ShiftedRightParts(w: Store, w': Store, l: Node, r: Node, k: nat)
    requires ShiftedRight(w, w', l, r, k)
    ensures Neighbours(w, l, r) && 1 <= k <= w[l].count && Moved(w, w', l, r, w[l].count - k, w[r].count + k)
    ensures ValsRight(w, w', l, r, k) && KidsRight(w, w', l, r, k) && LinksRight(w, w', l, r, k)
  {
  }

  /** Moving values to the left sibling recuts the two nodes. */
  method MoveToLeft(left: Node, toMove: nat, right: Node, ghost nodes: set<Node>, ghost root: Node)
    requires Sound(nodes) && Tree(Snap(nodes), root) && Siblings(Snap(nodes), left, right)
    requires left.Capacity() == right.Capacity() == K && 1 <= toMove <= right.count && left.count + toMove <= K
    modifies nodes`slots, nodes`count, nodes`children, nodes`parent, nodes`position
    ensures Recuttable(old(Snap(nodes)), left, right, old(left.count) + toMove)
    ensures Sound(nodes) && Snap(nodes) == Recut(old(Snap(nodes)), left, right, old(left.count) + toMove)
  {
    hide *;
    ghost var w := Fields(nodes);
    PairIsBeside(nodes, root, left, right);
    SnapIsShape(nodes);
    SoundIsOk(nodes);
    ShiftLeft(left, toMove, right, nodes);
    ghost var w' := Fields(nodes);
    ShiftedLeftParts(w, w', left, right, toMove);
    MovedOk(w, w', left, right, w[left].count + toMove, w[right].count - toMove);
    SoundIsOk(nodes);
    LeftRecuts(w, w', root, left, right, toMove);
    SnapIsShape(nodes);
  }

  /** Moving values to the right sibling recuts the two nodes. */
  method MoveToRight(left: Node, toMove: nat, right: Node, ghost nodes: set<Node>, ghost root: Node)
    requires Sound(nodes) && Tree(Snap(nodes), root) && Siblings(Snap(nodes), left, right)
    requires left.Capacity() == right.Capacity() == K && 1 <= toMove <= left.count && right.count + toMove <= K
    modifies nodes`slots, nodes`count, nodes`children, nodes`parent, nodes`position
    ensures Recuttable(old(Snap(nodes)), left, right, old(left.count) - toMove)
    ensures Sound(nodes) && Snap(nodes) == Recut(old(Snap(nodes)), left, right, old(left.count) - toMove)
  {
    hide *;
    ghost var w := Fields(nodes);
    PairIsBeside(nodes, root, left, right);
    SnapIsShape(nodes);
    SoundIsOk(nodes);
    ShiftRight(left, toMove, right, nodes);
    ghost var w' := Fields(nodes);
    ShiftedRightParts(w, w', left, right, toMove);
    MovedOk(w, w', left, right, w[left].count - toMove, w[right].count + toMove);
    SoundIsOk(nodes);
    RightRecuts(w, w', root, left, right, toMove);
    SnapIsShape(nodes);
  }

  lemma NodeIsSplittable(nodes: set<Node>, root: Node, n: Node)
    requires Sound(nodes) && Tree(Snap(nodes), root) && n in nodes && n != root && n.count == n.Capacity() == K
    ensures n.parent in nodes && n.parent != n && n.parent.level == n.level + 1 && n.position <= n.parent.count
    ensures n.Owns(nodes) && n.parent.Owns(nodes) && n.Ok() && n.parent.Ok()
    ensures var w := Fields(nodes);
            n in w && w[n].parent in w
  {
    var h := Snap(nodes);
    assert Up(h, n) && Down(h, h[n].parent);
    TreeOwns(nodes, root, n);
    TreeOwns(nodes, root, n.parent);
  }

  /** Splitting a full node cuts it at the value that goes up. */
  method SplitStep(node: Node, insertPosition: nat, dest: Node, ghost nodes: set<Node>, ghost root: Node)
    requires Sound(nodes) && Tree(Snap(nodes), root) && node in nodes && node != root && node.count == node.Capacity() == K
    requires node.parent in nodes ==> node.parent.count < K
    requires dest !in nodes && dest.Ok() && dest.count == 0 && dest.maxCount == node.maxCount && dest.level == node.level && insertPosition <= K
    modifies nodes`slots, nodes`count, nodes`children, nodes`parent, nodes`position
    modifies dest`slots, dest`count, dest`children, dest`parent, dest`position
    ensures node.count == (if insertPosition == 0 then 0 else if insertPosition == K then K - 1 else K - K / 2 - 1)
    ensures Cuttable(old(Snap(nodes)), node, dest, node.count)
    ensures Sound(nodes + {dest}) && Snap(nodes + {dest}) == Cut(old(Snap(nodes)), node, dest, node.count)
  {
    hide *;
    ghost var w := Fields(nodes);
    NodeIsSplittable(nodes, root, node);
    SnapIsShape(nodes);
    SoundIsOk(nodes);
    SplitNode(node, insertPosition, dest, nodes);
    ghost var w' := Fields(nodes + {dest});
    SplitIsUp(w, w', node, dest, node.count);
    SplitOk(w, w', node, dest, node.count);
    SoundIsOk(nodes + {dest});
    SplitCuts(w, w', root, node, dest, node.count);
    SnapIsShape(nodes + {dest});
  }

  lemma SplitIsUp(w: Store, w': Store, n: Node, dest: Node, c: nat)
    requires SplitContents(w, w', n, dest, c)
    ensures SplitUp(w, w', n, dest, c)
  {
  }

  lemma MergedIsUp(w: Store, w': Store, l: Node, r: Node)
    requires MergedContents(w, w', l, r)
    ensures MergedUp(w, w', l, r)
  {
  }

  lemma FieldsMinus(nodes: set<Node>, r: Node)
    ensures Fields(nodes) - {r} == Fields(nodes - {r})
  {
  }

  /** Merging two siblings joins them, and the right one falls out of the tree. */
  method MergeStep(left: Node, right: Node, ghost nodes: set<Node>, ghost root: Node)
    requires Sound(nodes) && Tree(Snap(nodes), root) && Siblings(Snap(nodes), left, right)
    requires left.Capacity() == right.Capacity() == K && left.count + 1 + right.count <= K
    modifies nodes`slots, nodes`count, nodes`children, nodes`parent, nodes`position
    ensures var h := old(Snap(nodes));
            && Siblings(h, left, right) && h[left].pos < |h[h[left].parent].vals|
            && Sound(nodes - {right}) && Snap(nodes - {right}) == Join(h, left, right)
  {
    hide *;
    ghost var w := Fields(nodes);
    PairIsBeside(nodes, root, left, right);
    SnapIsShape(nodes);
    SoundIsOk(nodes);
    MergeNode(left, right, nodes);
    ghost var w' := Fields(nodes);
    MergedAllParts(w, w', left, right);
    MergedIsUp(w, w', left, right);
    MergedOk(w, w', left, right);
    FieldsMinus(nodes, right);
    SoundIsOk(nodes - {right});
    MergedJoins(w, w', root, left, right);
    SnapIsShape(nodes - {right});
  }

  /** `w'` is `w` with the empty node `top` put above `root`. */
  ghost predicate ToppedUp(w: Store, w': Store, root: Node, top: Node) {
    && root in w && top !in w && w'.Keys == w.Keys + {top}
    && w'[top].level == w[root].level + 1 && w'[top].max == 0 && w'[top].count == 0 && w'[top].parent == w[root].parent
    && |w'[top].slots| == K && |w'[top].children| == K + 1 && w'[top].children[0] == root
    && w'[root] == w[root].(parent := top, pos := 0)
    && (forall n {:trigger w'[n]} :: n in w && n != root ==> w'[n] == w[n])
  }

  lemma ToppedUpOk(w: Store, w': Store, root: Node, top: Node)
    requires AllOk(w) && ToppedUp(w, w', root, top)
    ensures AllOk(w')
  {
    forall n | n in w'
      ensures OkRaw(w'[n])
    {
      assert n in w ==> OkRaw(w[n]);
    }
  }

  lemma ToppedUpShape(w: Store, w': Store, root: Node, top: Node)
    requires AllOk(w) && ToppedUp(w, w', root, top)
    ensures Topped(Shape(w), root, Shape(w'), top) && Shape(w')[top].parent == Shape(w)[root].parent
  {
    assert OkRaw(w[root]);
    hide OkRaw;
    assert w'[top].children[..1] == [root];
  }

  method Raise(root: Node, ghost nodes: set<Node>) returns (top: Node)
    requires root in nodes
    modifies root`parent, root`position
    ensures fresh(top) && top.maxCount == 0 && top.count == 0 && top.parent == old(root.parent)
    ensures ToppedUp(old(Fields(nodes)), Fields(nodes + {top}), root, top)
  {
    ghost var w := Fields(nodes);
    top := new Node.Internal(root.parent, root.level + 1);
    top.InitChild(0, root);
    ghost var w' := Fields(nodes + {top});
    assert w'.Keys == w.Keys + {top};
    assert forall n :: n in w && n != root ==> w'[n] == w[n];
  }

  /** Puts a new node above the root. */
  method TopStep(root: Node, ghost nodes: set<Node>) returns (top: Node)
    requires Sound(nodes) && root in nodes
    modifies root`parent, root`position
    ensures fresh(top) && Sound(nodes + {top}) && top.maxCount == 0 && top.count == 0
    ensures Topped(old(Snap(nodes)), root, Snap(nodes + {top}), top) && top.parent == old(root.parent)
  {
    hide *;
    SoundIsOk(nodes);
    SnapIsShape(nodes);
    top := Raise(root, nodes);
    ToppedUpOk(old(Fields(nodes)), Fields(nodes + {top}), root, top);
    ToppedUpShape(old(Fields(nodes)), Fields(nodes + {top}), root, top);
    SoundIsOk(nodes + {top});
    SnapIsShape(nodes + {top});
  }

  /** A new empty node of the kind of `node`. */
  method NewNode(node: Node, parent: Node) returns (dest: Node)
    requires node.Ok()
    ensures fresh(dest) && dest.Ok() && dest.count == 0 && dest.level == node.level
    ensures dest.maxCount == if node.IsLeaf() then K else 0
  {
    if node.IsLeaf() {
      dest := new Node.Leaf(parent, K);
    } else {
      dest := new Node.Internal(parent, node.level);
    }
  }

  lemma RoomyMore(nodes: set<Node>, root: Node, n: Node)
    requires Roomy(nodes, root) && (n.maxCount == 0 || n.maxCount == K)
    ensures Roomy(nodes + {n}, root)
  {
  }

  lemma RoomyKind(nodes: set<Node>, root: Node, n: Node)
    requires Roomy(nodes, root) && n in nodes && n != root
    ensures if n.IsLeaf() then n.maxCount == K else n.maxCount == 0
  {
  }

  // ----- the values of one node

  /** `w'` is `w` with the values `v` in node `n`. */
  ghost predicate Edited(w: Store, w': Store, n: Node, v: seq<V>) {
    && n in w && w'.Keys == w.Keys && w'[n] == w[n].(slots := w'[n].slots, count := w'[n].count)
    && OkRaw(w'[n]) && w'[n].slots[..w'[n].count] == v && (w[n].max == 0 ==> w'[n].count == w[n].count)
    && (forall x {:trigger w'[x]} :: x in w && x != n ==> w'[x] == w[x])
  }

  lemma EditedShape(w: Store, w': Store, n: Node, v: seq<V>)
    requires AllOk(w) && Edited(w, w', n, v)
    ensures AllOk(w') && Settable(Shape(w), n, v) && Shape(w') == SetVals(Shape(w), n, v)
  {
    assert OkRaw(w[n]);
    forall x | x in w'
      ensures OkRaw(w'[x])
    {
      assert x != n ==> OkRaw(w[x]);
    }
    ViewAt(w, n);
    ViewAt(w', n);
    forall x | x in w
      ensures Shape(w')[x] == SetVals(Shape(w), n, v)[x]
    {
    }
  }

  method InsertStep(node: Node, i: nat, v: V, ghost nodes: set<Node>)
    requires Sound(nodes) && node in nodes && node.IsLeaf() && i <= node.count < node.Capacity()
    modifies nodes`slots, nodes`count, nodes`children, nodes`position
    ensures old(node in Snap(nodes)) && i <= |old(Snap(nodes)[node].vals)|
    ensures Settable(old(Snap(nodes)), node, With(old(Snap(nodes)[node].vals), i, v))
    ensures Sound(nodes) && Snap(nodes) == SetVals(old(Snap(nodes)), node, With(old(Snap(nodes)[node].vals), i, v))
  {
    ghost var w := Fields(nodes);
    SoundIsOk(nodes);
    SnapIsShape(nodes);
    NodeAt(nodes, node);
    node.EmplaceValue(i, v, nodes);
    ghost var after := With(w[node].slots[..w[node].count], i, v);
    assert Edited(w, Fields(nodes), node, after);
    hide *;
    EditedShape(w, Fields(nodes), node, after);
    SoundIsOk(nodes);
    SnapIsShape(nodes);
  }

  method RemoveStep(node: Node, i: nat, n: nat, ghost nodes: set<Node>)
    requires Sound(nodes) && node in nodes && node.IsLeaf() && i + n <= node.count
    modifies node`slots, node`count
    ensures old(node in Snap(nodes)) && i + n <= |old(Snap(nodes)[node].vals)|
    ensures Settable(old(Snap(nodes)), node, old(Snap(nodes)[node].vals)[..i] + old(Snap(nodes)[node].vals)[i + n..])
    ensures Sound(nodes) && Snap(nodes) == SetVals(old(Snap(nodes)), node, old(Snap(nodes)[node].vals)[..i] + old(Snap(nodes)[node].vals)[i + n..])
  {
    ghost var w := Fields(nodes);
    SoundIsOk(nodes);
    SnapIsShape(nodes);
    NodeAt(nodes, node);
    node.RemoveValuesIgnoreChildren(i, n);
    ghost var was := w[node].slots[..w[node].count];
    assert Edited(w, Fields(nodes), node, was[..i] + was[i + n..]);
    hide *;
    EditedShape(w, Fields(nodes), node, was[..i] + was[i + n..]);
    SoundIsOk(nodes);
    SnapIsShape(nodes);
  }

  method WriteStep(node: Node, i: nat, v: V, ghost nodes: set<Node>)
    requires Sound(nodes) && node in nodes && i < node.count
    modifies node`slots
    ensures old(node in Snap(nodes)) && i < |old(Snap(nodes)[node].vals)|
    ensures Sound(nodes) && Snap(nodes) == SetVals(old(Snap(nodes)), node, old(Snap(nodes)[node].vals)[i := v])
  {
    ghost var w := Fields(nodes);
    SoundIsOk(nodes);
    SnapIsShape(nodes);
    NodeAt(nodes, node);
    node.slots := node.slots[i := v];
    ghost var after := w[node].slots[..w[node].count][i := v];
    assert Edited(w, Fields(nodes), node, after);
    hide *;
    EditedShape(w, Fields(nodes), node, after);
    SoundIsOk(nodes);
    SnapIsShape(nodes);
  }

  /** A new leaf root of capacity `max` takes over the values of the leaf `node`. */
  method NewLeafRoot(node: Node, max: nat) returns (r: Node)
    requires node.Ok() && node.IsLeaf() && node.count <= max <= K && 0 < max
    modifies node`slots, node`count
    ensures fresh(r) && r.maxCount == max && r.Ok() && r.count == old(node.count) && Sound({r})
    ensures Snap({r}) == map[r := Rec(0, old(node.Vals()), [], r, 0)]
  {
    r := new Node.LeafRoot(max);
    r.SwapLeaves(node);
  }

  /** A new leaf root without values. */
  method NewRoot(max: nat) returns (r: Node)
    requires 0 < max <= K
    ensures fresh(r) && r.maxCount == max && r.IsLeaf() && r.count == 0 && Sound({r}) && Snap({r}) == map[r := Rec(0, [], [], r, 0)]
  {
    r := new Node.LeafRoot(max);
  }

  lemma CapacityOf(n: Node)
    requires n.Ok()
    ensures n.Capacity() == (if n.maxCount == 0 then K else n.maxCount) && 0 < n.Capacity() <= K && n.count <= n.Capacity()
    ensures n.IsLeaf() <==> n.maxCount != 0
    ensures n.Vals() == n.slots[..n.count]
  {
  }

  /** Drops an empty root and makes its only child the root. */
  method ShrinkStep(root: Node, ghost nodes: set<Node>) returns (child: Node)
    requires Sound(nodes) && Tree(Snap(nodes), root) && !root.IsLeaf() && root.count == 0
    modifies nodes`parent
    ensures child in nodes && child != root && Sound(nodes - {root}) && Topped(Snap(nodes - {root}), child, old(Snap(nodes)), root)
    ensures child.parent == old(root.parent) && child.maxCount == old(child.maxCount)
  {
    ghost var h := Snap(nodes);
    assert Down(h, root) && Child(h, root, 0);
    child := root.children[0];
    assert child == h[root].kids[0];
    child.parent := child.parent.parent;
    ghost var h' := Snap(nodes - {root});
    assert forall x :: x in nodes ==> x.Ok() && (x != child ==> x.View() == h[x]);
    assert child.View() == h[child].(parent := child.parent);
    ShrinkTopped(h', child, h, root);
  }

  lemma RoomyLess(nodes: set<Node>, root: Node, n: Node)
    requires Roomy(nodes, root)
    ensures Roomy(nodes - {n}, root)
  {
  }

  lemma RoomyShrunk(nodes: set<Node>, root: Node, child: Node)
    requires Roomy(nodes, root)
    ensures Roomy(nodes - {root}, child)
  {
  }

  lemma RoomyPart(nodes: set<Node>, root: Node, part: set<Node>)
    requires Roomy(nodes, root) && part <= nodes
    ensures Roomy(part, root)
  {
  }
}
