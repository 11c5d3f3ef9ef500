/** Removing a run of an internal node, seen on the whole linked structure. */
module BtreeExciseStep {
  import opened BtreeValues
  import opened Buffers
  import opened BtreeNodes
  import opened BtreeShape
  import opened BtreeExcise
  import opened BtreeStore

  ghost predicate Runs(w: Store, n: Node, b: nat, e: nat) {
    && n in w && OkRaw(w[n]) && w[n].max == 0 && b < e < w[n].count
  }

  /** `w'` is `w` after the values `b..e` of `n` and the children between them are gone. */
  ghost predicate Excised(w: Store, w': Store, n: Node, b: nat, e: nat) {
    && Runs(w, n, b, e) && w'.Keys == w.Keys
    && w'[n] == w[n].(slots := w'[n].slots, count := w'[n].count, children := w'[n].children)
    && |w'[n].slots| == K && w'[n].count == w[n].count - (e - b)
    && w'[n].slots[..w'[n].count] == w[n].slots[..w[n].count][..b] + w[n].slots[..w[n].count][e..]
    && Copied(w'[n].children, w[n].children, b + 1, w[n].children, e + 1, w[n].count - e)
  }

  ghost predicate ExcisedElse(w: Store, w': Store, n: Node, b: nat, e: nat)
    requires n in w && b <= e
  {
    forall x {:trigger w'[x]} :: x in w && x in w' && x != n ==>
      w'[x] == w[x].(pos := if Over(w, n, x) && w[x].pos > e then w'[x].pos else w[x].pos) &&
      (Over(w, n, x) && w[x].pos > e ==> w'[x].pos == w[x].pos - (e - b))
  }

  lemma ExcisedOk(w: Store, w': Store, n: Node, b: nat, e: nat)
    requires AllOk(w) && Excised(w, w', n, b, e) && ExcisedElse(w, w', n, b, e)
    ensures AllOk(w')
  {
    forall x | x in w'
      ensures OkRaw(w'[x])
    {
      assert OkRaw(w[x]);
    }
  }

  lemma RunKids<T>(s: seq<T>, was: seq<T>, n: nat, b: nat, e: nat)
    requires b < e < n < |was| && Copied(s, was, b + 1, was, e + 1, n - e)
    ensures s[..n - (e - b) + 1] == was[..n + 1][..b + 1] + was[..n + 1][e + 1..]
  {
  }

  lemma ExcisedNode(w: Store, w': Store, n: Node, b: nat, e: nat)
    requires Excised(w, w', n, b, e)
    ensures var h := Shape(w);
            && n in h && |h[n].kids| == |h[n].vals| + 1 && e < |h[n].vals|
            && n in Shape(w') && Shape(w')[n] == ExciseRec(h, n, b, e, n)
  {
    ViewAt(w, n);
    ViewAt(w', n);
    RunKids(w'[n].children, w[n].children, w[n].count, b, e);
  }

  lemma ExcisedOther(w: Store, w': Store, n: Node, b: nat, e: nat, x: Node)
    requires Runs(w, n, b, e) && ExcisedElse(w, w', n, b, e) && x in w && x in w' && x != n
    ensures var h := Shape(w);
            && n in h && x in h && |h[n].kids| == |h[n].vals| + 1 && e < |h[n].vals|
            && x in Shape(w') && Shape(w')[x] == ExciseRec(h, n, b, e, x)
  {
    ViewAt(w, n);
    BelowIsOver(w, n, x);
  }

  lemma ExcisedShape(w: Store, w': Store, n: Node, b: nat, e: nat, dead: set<Node>)
    requires Excised(w, w', n, b, e) && ExcisedElse(w, w', n, b, e)
    ensures var h := Shape(w);
            && n in h && |h[n].kids| == |h[n].vals| + 1 && e < |h[n].vals|
            && Shape(w' - dead) == Excise(h, n, b, e, dead)
  {
    ExcisedNode(w, w', n, b, e);
    var h, m := Shape(w), Shape(w' - dead);
    forall x | x in h && x !in dead
      ensures x in m && m[x] == ExciseRec(h, n, b, e, x)
    {
      if x != n {
        ExcisedOther(w, w', n, b, e, x);
      }
    }
  }

  method DropNodeRun(node: Node, b: nat, e: nat, ghost nodes: set<Node>)
    requires node in nodes && node.Ok() && !node.IsLeaf() && b < e < node.count && node.Owns(nodes)
    modifies nodes`slots, nodes`count, nodes`children, nodes`position
    ensures var w, w' := old(Fields(nodes)), Fields(nodes);
            Excised(w, w', node, b, e) && ExcisedElse(w, w', node, b, e)
  {
    ghost var w := Fields(nodes);
    assert Runs(w, node, b, e);
    node.DropRun(b, e, nodes);
  }

  lemma FieldsWithout(nodes: set<Node>, dead: set<Node>)
    ensures Fields(nodes) - dead == Fields(nodes - dead)
  {
  }

  lemma OkWithout(w: Store, dead: set<Node>)
    requires AllOk(w)
    ensures AllOk(w - dead)
  {
    forall x | x in w - dead
      ensures OkRaw((w - dead)[x])
    {
      assert OkRaw(w[x]);
    }
  }

  /** Takes the values `b..e` and the subtrees between them out of an internal node. */
  method ExciseStep(node: Node, b: nat, e: nat, ghost nodes: set<Node>, ghost root: Node, ghost dead: set<Node>)
    requires Sound(nodes) && Tree(Snap(nodes), root) && node in nodes && !node.IsLeaf() && b < e < node.count
    modifies nodes`slots, nodes`count, nodes`children, nodes`position
    ensures var h := old(Snap(nodes));
            && node in h && |h[node].kids| == |h[node].vals| + 1 && e < |h[node].vals|
            && Sound(nodes - dead) && Snap(nodes - dead) == Excise(h, node, b, e, dead)
  {
    hide *;
    ghost var w := Fields(nodes);
    SoundIsOk(nodes);
    SnapIsShape(nodes);
    TreeOwns(nodes, root, node);
    SoundAt(nodes, node);
    DropNodeRun(node, b, e, nodes);
    ghost var w' := Fields(nodes);
    ExcisedOk(w, w', node, b, e);
    ExcisedShape(w, w', node, b, e, dead);
    FieldsWithout(nodes, dead);
    OkWithout(w', dead);
    SoundIsOk(nodes - dead);
    SnapIsShape(nodes - dead);
  }
}
