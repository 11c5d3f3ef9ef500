/** The linked nodes as values: their fields, their shape, and what the steps on them change. */
module BtreeStore {
  import opened BtreeValues
  import opened Buffers
  import opened BtreeNodes
  import opened BtreeShape
  import opened BtreeJoin
  import opened BtreeRecut

  ghost predicate Sound(nodes: set<Node>)
    reads nodes
  {
    forall n :: n in nodes ==> n.Ok()
  }

  /** The linked nodes as a value. */
  ghost function Snap(nodes: set<Node>): (h: Heap)
    requires Sound(nodes)
    reads nodes
  {
    map n | n in nodes :: n.View()
  }

  // ----- fields and views

  /** The fields of a node. */
  datatype Raw = Raw(level: nat, max: nat, count: nat, slots: seq<V>, children: seq<Node>, parent: Node, pos: nat)

  type Store = map<Node, Raw>

  ghost function Fields(nodes: set<Node>): (w: Store)
    reads nodes
  {
    map n | n in nodes :: Raw(n.level, n.maxCount, n.count, n.slots, n.children, n.parent, n.position)
  }

  /** `c` hangs under `p`; the level test rules out the root, whose parent link is the leftmost leaf. */
  ghost predicate Over(w: Store, p: Node, c: Node)
    requires p in w && c in w
  {
    w[c].parent == p && w[c].level < w[p].level
  }

  /** A step keeps the level and kind of every node and writes to the buffers of `a`, `b` and `p` only. */
  ghost predicate Elsewhere(w: Store, w': Store, a: Node, b: Node, p: Node) {
    && w.Keys <= w'.Keys
    && (forall n {:trigger w'[n]} :: n in w ==> w'[n].level == w[n].level && w'[n].max == w[n].max)
    && (forall n {:trigger w'[n]} :: n in w && n != a && n != b && n != p ==>
          w'[n].count == w[n].count && w'[n].children == w[n].children && w'[n].slots == w[n].slots)
  }

  /** `r` is the next sibling of `l`, under a parent that has a delimiter for them. */
  ghost predicate Neighbours(w: Store, l: Node, r: Node) {
    && l in w && r in w && w[l].parent in w
    && var p := w[l].parent;
    && l != r && p != l && p != r && w[r].parent == p && w[r].pos == w[l].pos + 1
    && w[l].level == w[r].level && w[p].level == w[l].level + 1 && w[l].max == w[r].max
    && w[l].count <= |w[l].slots| == K && w[r].count <= |w[r].slots| == K
    && w[l].pos < w[p].count <= |w[p].slots| == K && |w[p].children| == K + 1 && w[p].max == 0
    && (w[l].max == 0 ==> |w[l].children| == |w[r].children| == K + 1)
  }

  /** `w'` is `w` after a step that moves values between `l` and `r`, leaving `lc` and `rc` of them. */
  ghost predicate Moved(w: Store, w': Store, l: Node, r: Node, lc: nat, rc: nat) {
    && Neighbours(w, l, r) && Elsewhere(w, w', l, r, w[l].parent) && w'.Keys == w.Keys
    && lc + rc == w[l].count + w[r].count && lc <= K && rc <= K
    && w'[l].count == lc && w'[r].count == rc && |w'[l].slots| == |w'[r].slots| == K
    && |w'[w[l].parent].slots| == K && w'[w[l].parent].count == w[w[l].parent].count && w'[w[l].parent].children == w[w[l].parent].children
    && (w[l].max == 0 ==> |w'[l].children| == |w'[r].children| == K + 1)
  }

  /** The values of `l` and `r` and the delimiter once `k` values have moved from `r` to `l`. */
  ghost predicate ValsLeft(w: Store, w': Store, l: Node, r: Node, k: nat)
    requires Neighbours(w, l, r) && 1 <= k <= w[r].count && Moved(w, w', l, r, w[l].count + k, w[r].count - k)
  {
    && var p := w[l].parent;
    && w'[l].slots[..w'[l].count] == w[l].slots[..w[l].count] + [w[p].slots[w[l].pos]] + w[r].slots[..w[r].count][..k - 1]
    && w'[r].slots[..w'[r].count] == w[r].slots[..w[r].count][k..]
    && w'[p].slots == w[p].slots[w[l].pos := w[r].slots[k - 1]]
  }

  ghost predicate KidsLeft(w: Store, w': Store, l: Node, r: Node, k: nat)
    requires Neighbours(w, l, r) && k <= w[r].count && Moved(w, w', l, r, w[l].count + k, w[r].count - k)
  {
    && (w[l].max == 0 ==> Copied(w'[l].children, w[l].children, w[l].count + 1, w[r].children, 0, k))
    && (w[l].max == 0 ==> Copied(w'[r].children, w[r].children, 0, w[r].children, k, w'[r].count + 1))
  }

  ghost predicate LinksLeft(w: Store, w': Store, l: Node, r: Node, k: nat)
    requires l in w && r in w
  {
    && (forall n {:trigger w'[n]} :: n in w && n in w' ==> w'[n].parent == if Over(w, r, n) && w[n].pos < k then l else w[n].parent)
    && (forall n {:trigger w'[n]} :: n in w && n in w' ==> w'[n].pos == if !Over(w, r, n) then w[n].pos else
                                                                         if w[n].pos < k then w[l].count + 1 + w[n].pos else w[n].pos - k)
  }

  ghost predicate ValsRight(w: Store, w': Store, l: Node, r: Node, k: nat)
    requires Neighbours(w, l, r) && 1 <= k <= w[l].count && Moved(w, w', l, r, w[l].count - k, w[r].count + k)
  {
    && var p := w[l].parent;
    && w'[l].slots == w[l].slots
    && w'[r].slots[..w'[r].count] == w[l].slots[..w[l].count][w[l].count - k + 1..] + [w[p].slots[w[l].pos]] + w[r].slots[..w[r].count]
    && w'[p].slots == w[p].slots[w[l].pos := w[l].slots[w[l].count - k]]
  }

  ghost predicate KidsRight(w: Store, w': Store, l: Node, r: Node, k: nat)
    requires Neighbours(w, l, r) && k <= w[l].count && Moved(w, w', l, r, w[l].count - k, w[r].count + k)
  {
    && w'[l].children == w[l].children
    && (w[l].max == 0 ==> Prepended(w'[r].children, w[r].children, w[r].count + 1, w[l].children, w[l].count - k + 1, k))
  }

  ghost predicate LinksRight(w: Store, w': Store, l: Node, r: Node, k: nat)
    requires l in w && r in w && k <= w[l].count
  {
    && (forall n {:trigger w'[n]} :: n in w && n in w' ==> w'[n].parent == if Over(w, l, n) && w[n].pos > w[l].count - k then r else w[n].parent)
    && (forall n {:trigger w'[n]} :: n in w && n in w' ==> w'[n].pos == if Over(w, r, n) then w[n].pos + k else
                                                                         if Over(w, l, n) && w[n].pos > w[l].count - k
                                                                         then w[n].pos - (w[l].count - k) - 1 else w[n].pos)
  }

  /** The full node `n` can be split: its parent has room for one more value. */
  ghost predicate Splittable(w: Store, n: Node) {
    && n in w && w[n].parent in w && w[n].parent != n
    && var p := w[n].parent;
    && |w[n].slots| == w[n].count == K && (w[n].max == 0 ==> |w[n].children| == K + 1)
    && w[n].pos <= w[p].count < |w[p].slots| == K && |w[p].children| == K + 1 && w[p].max == 0 && w[p].level == w[n].level + 1
  }

  /** `w'` is `w` after `dest` has taken everything behind value `c` of the full node `n`. */
  ghost predicate SplitUp(w: Store, w': Store, n: Node, dest: Node, c: nat) {
    && Splittable(w, n) && dest !in w && w'.Keys == w.Keys + {dest} && c < K
    && Elsewhere(w, w', n, dest, w[n].parent)
    && w'[n].count == c && w'[n].slots == w[n].slots && w'[n].children == w[n].children
    && w'[dest].level == w[n].level && w'[dest].max == w[n].max && w'[dest].parent == w[n].parent && w'[dest].pos == w[n].pos + 1
    && w'[dest].count == K - c - 1 && |w'[dest].slots| == K && (w[n].max == 0 ==> |w'[dest].children| == K + 1)
    && w'[w[n].parent].count == w[w[n].parent].count + 1 && |w'[w[n].parent].slots| == K && |w'[w[n].parent].children| == K + 1
  }

  ghost predicate SplitContents(w: Store, w': Store, n: Node, dest: Node, c: nat) {
    && SplitUp(w, w', n, dest, c)
    && var p := w[n].parent;
    && w'[dest].slots[..K - c - 1] == w[n].slots[c + 1..]
    && (w[n].max == 0 ==> forall k {:trigger w'[dest].children[k]} :: 0 <= k < K - c ==> w'[dest].children[k] == w[n].children[k + c + 1])
    && w'[p].slots[..w'[p].count] == With(w[p].slots[..w[p].count], w[n].pos, w[n].slots[c])
    && w'[p].children[..w'[p].count + 1] == With(w[p].children[..w[p].count + 1], w[n].pos + 1, dest)
  }

  ghost predicate SplitLinks(w: Store, w': Store, n: Node, dest: Node, c: nat)
    requires n in w && w[n].parent in w
  {
    && (forall x {:trigger w'[x]} :: x in w && x in w' ==> w'[x].parent == if Over(w, n, x) && w[x].pos > c then dest else w[x].parent)
    && (forall x {:trigger w'[x]} :: x in w && x in w' ==> w'[x].pos == if Over(w, n, x) && w[x].pos > c then w[x].pos - (c + 1) else
                                                                         if Over(w, w[n].parent, x) && w[x].pos > w[n].pos then w[x].pos + 1 else w[x].pos)
  }

  /** `w'` is `w` after `l` has taken the delimiter and everything of `r`. */
  ghost predicate MergedUp(w: Store, w': Store, l: Node, r: Node) {
    && Neighbours(w, l, r) && w[l].count + 1 + w[r].count <= K && w'.Keys == w.Keys
    && Elsewhere(w, w', l, r, w[l].parent)
    && w'[l].count == w[l].count + 1 + w[r].count && |w'[l].slots| == K && (w[l].max == 0 ==> |w'[l].children| == K + 1)
    && w'[w[l].parent].count == w[w[l].parent].count - 1 && |w'[w[l].parent].slots| == K && |w'[w[l].parent].children| == K + 1
  }

  ghost predicate MergedContents(w: Store, w': Store, l: Node, r: Node) {
    && MergedUp(w, w', l, r)
    && var p := w[l].parent;
    && w'[l].slots[..w'[l].count] == w[l].slots[..w[l].count] + [w[p].slots[w[l].pos]] + w[r].slots[..w[r].count]
    && (w[l].max == 0 ==> Copied(w'[l].children, w[l].children, w[l].count + 1, w[r].children, 0, w[r].count + 1))
    && w'[p].slots[..w'[p].count] == Without(w[p].slots[..w[p].count], w[l].pos)
    && Copied(w'[p].children, w[p].children, w[l].pos + 1, w[p].children, w[l].pos + 2, w'[p].count - w[l].pos)
  }

  ghost predicate MergedLinks(w: Store, w': Store, l: Node, r: Node)
    requires l in w && r in w && w[l].parent in w
  {
    && (forall x {:trigger w'[x]} :: x in w && x in w' ==> w'[x].parent == if Over(w, r, x) then l else w[x].parent)
    && (forall x {:trigger w'[x]} :: x in w && x in w' ==> w'[x].pos == if Over(w, r, x) then w[l].count + 1 + w[x].pos else
                                                                         if Over(w, w[l].parent, x) && w[x].pos > w[l].pos + 1 then w[x].pos - 1 else w[x].pos)
  }

  ghost function Take<T>(s: seq<T>, n: nat): (r: seq<T>) {
    if n <= |s| then s[..n] else s
  }

  /** What a node with these fields holds. */
  ghost function ViewOf(x: Raw): (r: Rec) {
    Rec(x.level, Take(x.slots, x.count), if x.max == 0 then Take(x.children, x.count + 1) else [], x.parent, x.pos)
  }

  ghost function Shape(w: Store): (h: Heap) {
    map n | n in w :: ViewOf(w[n])
  }

  ghost predicate OkRaw(x: Raw) {
    && x.max <= K && (x.max == 0 <==> x.level > 0)
    && |x.slots| == (if x.max == 0 then K else x.max) && x.count <= |x.slots|
    && (x.max == 0 ==> |x.children| == K + 1)
  }

  ghost predicate AllOk(w: Store) {
    forall n {:trigger OkRaw(w[n])} :: n in w ==> OkRaw(w[n])
  }

  lemma SoundIsOk(nodes: set<Node>)
    ensures Sound(nodes) <==> AllOk(Fields(nodes))
  {
    var w := Fields(nodes);
    forall n | n in nodes
      ensures n.Ok() <==> OkRaw(w[n])
    {
    }
  }

  lemma SnapIsShape(nodes: set<Node>)
    requires Sound(nodes)
    ensures Snap(nodes) == Shape(Fields(nodes))
  {
    forall n | n in nodes
      ensures n.View() == ViewOf(Fields(nodes)[n])
    {
    }
  }

  lemma SoundAt(nodes: set<Node>, n: Node)
    requires Sound(nodes) && n in nodes
    ensures n.Ok()
  {
  }

  /** The fields of a node, read from the snapshot. */
  lemma NodeAt(nodes: set<Node>, n: Node)
    requires Sound(nodes) && n in nodes
    ensures var h := Snap(nodes);
            && n in h && h[n].level == n.level && h[n].parent == n.parent && h[n].pos == n.position && |h[n].vals| == n.count
            && (n.IsLeaf() <==> n.level == 0) && n.count <= |n.slots| && h[n].vals == n.slots[..n.count]
            && (!n.IsLeaf() ==> n.count < |n.children| && h[n].kids == n.children[..n.count + 1])
  {
  }

  lemma ValsAt(nodes: set<Node>, n: Node)
    requires Sound(nodes) && n in nodes
    ensures n.Ok() && n in Snap(nodes) && Snap(nodes)[n].vals == n.Vals() == n.slots[..n.count]
  {
  }

  lemma SnapKeys(nodes: set<Node>, n: Node)
    requires Sound(nodes)
    ensures n in Snap(nodes) <==> n in nodes
  {
  }

  /** Every node but the root has full capacity. */
  ghost predicate Roomy(nodes: set<Node>, root: Node)
    reads nodes`maxCount
  {
    forall n :: n in nodes && n != root ==> n.maxCount == 0 || n.maxCount == K
  }

  lemma RoomyAt(nodes: set<Node>, root: Node, n: Node)
    requires Roomy(nodes, root) && n in nodes && n != root
    ensures n.Capacity() == K
  {
  }

  lemma RoomyTop(nodes: set<Node>, root: Node, top: Node)
    requires Roomy(nodes, root) && root.Capacity() == K
    ensures Roomy(nodes + {top}, top)
  {
  }

  lemma ParentOf(nodes: set<Node>, root: Node, n: Node)
    requires Sound(nodes) && Tree(Snap(nodes), root) && n in nodes && n != root
    ensures n.parent in nodes && !n.parent.IsLeaf() && n.position <= n.parent.count < |n.parent.children|
    ensures n.parent.level == n.level + 1 && n.parent.children[n.position] == n
    ensures n.parent.Capacity() == K && n.parent.count <= K
  {
    var h := Snap(nodes);
    assert Up(h, n) && Down(h, h[n].parent);
  }

  lemma LeftOf(nodes: set<Node>, root: Node, n: Node)
    requires Sound(nodes) && Tree(Snap(nodes), root) && n in nodes && n != root && n.position > 0
    ensures n.parent in nodes && n.position - 1 < |n.parent.children|
    ensures var l := n.parent.children[n.position - 1];
            l in nodes && l != root && Siblings(Snap(nodes), l, n)
  {
    ParentOf(nodes, root, n);
    var h, p := Snap(nodes), n.parent;
    assert Up(h, n) && Down(h, p) && Child(h, p, n.position - 1);
    assert h[p].kids[n.position - 1] == p.children[n.position - 1];
  }

  lemma RightOf(nodes: set<Node>, root: Node, n: Node)
    requires Sound(nodes) && Tree(Snap(nodes), root) && n in nodes && n != root
    requires n.parent in nodes ==> n.position < n.parent.count
    ensures n.parent in nodes && n.position + 1 < |n.parent.children|
    ensures var r := n.parent.children[n.position + 1];
            r in nodes && r != root && Siblings(Snap(nodes), n, r)
  {
    ParentOf(nodes, root, n);
    var h, p := Snap(nodes), n.parent;
    assert Up(h, n) && Down(h, p) && Child(h, p, n.position + 1);
    assert h[p].kids[n.position + 1] == p.children[n.position + 1];
  }

  /** One of the neighbours of a node, the value between them and the node itself fit into one node. */
  ghost predicate Mergeable(h: Heap, n: Node) {
    n in h && exists s :: s in h && (Siblings(h, s, n) || Siblings(h, n, s)) && |h[s].vals| + 1 + |h[n].vals| <= K
  }

  lemma MergeableWith(nodes: set<Node>, n: Node, s: Node)
    requires Sound(nodes) && n in nodes && s in nodes && 1 + s.count + n.count <= K
    requires Siblings(Snap(nodes), s, n) || Siblings(Snap(nodes), n, s)
    ensures Mergeable(Snap(nodes), n)
  {
    NodeAt(nodes, n);
    NodeAt(nodes, s);
  }

  lemma Unmergeable(nodes: set<Node>, root: Node, n: Node)
    requires Sound(nodes) && Tree(Snap(nodes), root) && n in nodes && n != root
    requires n.parent in nodes && n.position <= n.parent.count < |n.parent.children|
    requires n.position > 0 ==> 1 + n.parent.children[n.position - 1].count + n.count > K
    requires n.position < n.parent.count ==> 1 + n.count + n.parent.children[n.position + 1].count > K
    ensures !Mergeable(Snap(nodes), n)
  {
    var h := Snap(nodes);
    NodeAt(nodes, n);
    ParentOf(nodes, root, n);
    forall s | s in h && (Siblings(h, s, n) || Siblings(h, n, s))
      ensures |h[s].vals| + 1 + |h[n].vals| > K
    {
      NeighbourIs(nodes, root, n, s);
      NodeAt(nodes, s);
    }
  }

  lemma NeighbourIs(nodes: set<Node>, root: Node, n: Node, s: Node)
    requires Sound(nodes) && Tree(Snap(nodes), root) && n in nodes && n != root && s in Snap(nodes)
    ensures n.parent in nodes && n.position <= n.parent.count < |n.parent.children|
    ensures Siblings(Snap(nodes), s, n) ==> n.position > 0 && s == n.parent.children[n.position - 1]
    ensures Siblings(Snap(nodes), n, s) ==> n.position < n.parent.count && s == n.parent.children[n.position + 1]
  {
    var h := Snap(nodes);
    ParentOf(nodes, root, n);
    if s != root {
      ParentOf(nodes, root, s);
    }
  }

  /** In a tree every node owns its children. */
  lemma TreeOwns(nodes: set<Node>, root: Node, n: Node)
    requires Sound(nodes) && Tree(Snap(nodes), root) && n in nodes
    ensures n.Owns(nodes)
  {
    var h := Snap(nodes);
    assert Down(h, n);
    if !n.IsLeaf() {
      forall k | 0 <= k <= n.count
        ensures n.children[k] in nodes && n.children[k].parent == n && n.children[k].position == k && n.children[k].level + 1 == n.level
      {
        assert Child(h, n, k);
        assert h[n].kids[k] == n.children[k];
      }
    }
    forall c | c in nodes && n.Over(c)
      ensures c.position <= n.count && n.maxCount == 0 && n.children[c.position] == c
    {
      assert h[c].level < h[n].level;
      assert Up(h, c);
    }
  }

  // ----- contents and links of the nodes before and after a step

  /** Every node of `h` but `a`, `b` and `p` holds in `m` what it held in `h`. */
  ghost predicate SameElsewhere(h: Heap, m: Heap, a: Node, b: Node, p: Node) {
    forall n {:trigger m[n]} :: n in h && n in m && n != a && n != b && n != p
      ==> m[n].vals == h[n].vals && m[n].kids == h[n].kids
  }

  ghost predicate SameLevels(h: Heap, m: Heap) {
    forall n {:trigger m[n]} :: n in h && n in m ==> m[n].level == h[n].level
  }

  /** The place of a child of `l` or `r`, counted through both nodes. */
  ghost function Index(h: Heap, l: Node, r: Node, n: Node): (j: nat)
    requires l in h && r in h && n in h
  {
    if Below(h, n, r) then |h[l].vals| + 1 + h[n].pos else h[n].pos
  }

  ghost predicate RecutLinks(h: Heap, m: Heap, l: Node, r: Node, c: nat)
    requires l in h && r in h
  {
    && (forall n {:trigger m[n]} :: n in h && n in m ==> m[n].parent == if !Below(h, n, l) && !Below(h, n, r) then h[n].parent else
                                                                         if Index(h, l, r, n) <= c then l else r)
    && (forall n {:trigger m[n]} :: n in h && n in m ==> m[n].pos == if !Below(h, n, l) && !Below(h, n, r) then h[n].pos else
                                                                      if Index(h, l, r, n) <= c then Index(h, l, r, n) else Index(h, l, r, n) - (c + 1))
  }

  ghost predicate RecutVals(h: Heap, m: Heap, l: Node, r: Node, c: nat)
    requires Recuttable(h, l, r, c)
  {
    && l in m && r in m && h[l].parent in m
    && m[l].vals == BothVals(h, l, r)[..c] && m[r].vals == BothVals(h, l, r)[c + 1..]
    && m[h[l].parent].vals == h[h[l].parent].vals[h[l].pos := BothVals(h, l, r)[c]]
  }

  ghost predicate RecutKids(h: Heap, m: Heap, l: Node, r: Node, c: nat)
    requires Recuttable(h, l, r, c)
  {
    && l in m && r in m && h[l].parent in m
    && m[h[l].parent].kids == h[h[l].parent].kids
    && m[l].kids == (if h[l].level == 0 then [] else BothKids(h, l, r)[..c + 1])
    && m[r].kids == (if h[l].level == 0 then [] else BothKids(h, l, r)[c + 1..])
  }

  lemma StepRecuts(h: Heap, m: Heap, root: Node, l: Node, r: Node, c: nat)
    requires Tree(h, root) && Recuttable(h, l, r, c) && m.Keys == h.Keys
    requires SameElsewhere(h, m, l, r, h[l].parent) && SameLevels(h, m)
    requires RecutLinks(h, m, l, r, c) && RecutVals(h, m, l, r, c) && RecutKids(h, m, l, r, c)
    ensures m == Recut(h, l, r, c)
  {
    SiblingFacts(h, root, l, r);
    forall n | n in h
      ensures m[n] == RecutRec(h, l, r, c, n)
    {
      StepRecutsAt(h, m, root, l, r, c, n);
    }
  }

  lemma StepRecutsAt(h: Heap, m: Heap, root: Node, l: Node, r: Node, c: nat, n: Node)
    requires Tree(h, root) && Recuttable(h, l, r, c) && m.Keys == h.Keys
    requires SameElsewhere(h, m, l, r, h[l].parent) && SameLevels(h, m)
    requires RecutLinks(h, m, l, r, c) && RecutVals(h, m, l, r, c) && RecutKids(h, m, l, r, c) && n in h
    ensures m[n] == RecutRec(h, l, r, c, n)
  {
    SiblingFacts(h, root, l, r);
    assert Down(h, l);
  }

  ghost predicate CutLinks(h: Heap, m: Heap, n: Node, right: Node, c: nat)
    requires n in h && h[n].parent in h
  {
    && (forall x {:trigger m[x]} :: x in h && x in m ==> m[x].parent == if Below(h, x, n) && h[x].pos > c then right else h[x].parent)
    && (forall x {:trigger m[x]} :: x in h && x in m ==> m[x].pos == if Below(h, x, n) && h[x].pos > c then h[x].pos - (c + 1) else
                                                                      if Below(h, x, h[n].parent) && h[x].pos > h[n].pos then h[x].pos + 1 else h[x].pos)
  }

  ghost predicate CutContents(h: Heap, m: Heap, n: Node, right: Node, c: nat)
    requires Cuttable(h, n, right, c)
  {
    && n in m && right in m && h[n].parent in m
    && m[right] == CutRec(h, n, right, c, right)
    && m[n].vals == h[n].vals[..c] && m[n].kids == (if h[n].level == 0 then [] else h[n].kids[..c + 1])
    && m[h[n].parent].vals == With(h[h[n].parent].vals, h[n].pos, h[n].vals[c])
    && m[h[n].parent].kids == With(h[h[n].parent].kids, h[n].pos + 1, right)
  }

  lemma StepCuts(h: Heap, m: Heap, root: Node, n: Node, right: Node, c: nat)
    requires Tree(h, root) && n != root && Cuttable(h, n, right, c) && m.Keys == h.Keys + {right}
    requires SameElsewhere(h, m, n, right, h[n].parent) && SameLevels(h, m)
    requires CutLinks(h, m, n, right, c) && CutContents(h, m, n, right, c)
    ensures m == Cut(h, n, right, c)
  {
    forall x | x in m
      ensures m[x] == CutRec(h, n, right, c, x)
    {
      if x == right {
      } else if x == n {
      } else if x == h[n].parent {
      } else {
      }
    }
  }

  ghost predicate JoinLinks(h: Heap, m: Heap, l: Node, r: Node)
    requires l in h && r in h && h[l].parent in h
  {
    && (forall x {:trigger m[x]} :: x in h && x in m ==> m[x].parent == if Below(h, x, r) then l else h[x].parent)
    && (forall x {:trigger m[x]} :: x in h && x in m ==> m[x].pos == if Below(h, x, r) then |h[l].vals| + 1 + h[x].pos else
                                                                      if Below(h, x, h[l].parent) && h[x].pos > h[l].pos + 1 then h[x].pos - 1 else h[x].pos)
  }

  ghost predicate JoinContents(h: Heap, m: Heap, l: Node, r: Node)
    requires Siblings(h, l, r) && h[l].pos < |h[h[l].parent].vals|
  {
    && l in m && h[l].parent in m
    && m[l].vals == BothVals(h, l, r) && m[l].kids == BothKids(h, l, r)
    && m[h[l].parent].vals == Without(h[h[l].parent].vals, h[l].pos)
    && m[h[l].parent].kids == Without(h[h[l].parent].kids, h[l].pos + 1)
  }

  lemma StepJoins(h: Heap, m: Heap, root: Node, l: Node, r: Node)
    requires Tree(h, root) && Siblings(h, l, r) && h[l].pos < |h[h[l].parent].vals| && m.Keys == h.Keys - {r}
    requires SameElsewhere(h, m, l, r, h[l].parent) && SameLevels(h, m) && JoinLinks(h, m, l, r) && JoinContents(h, m, l, r)
    ensures m == Join(h, l, r)
  {
    SiblingFacts(h, root, l, r);
    assert Down(h, l) && Down(h, r);
    forall x | x in m
      ensures m[x] == JoinRec(h, l, r, x)
    {
      if Below(h, x, r) {
        assert h[l].level > 0;
      }
    }
  }

  // ----- the effects of the steps

  /** The facts about fields that a tree provides for two full-size siblings. */
  ghost predicate AtPair(w: Store, root: Node, l: Node, r: Node) {
    && AllOk(w) && Tree(Shape(w), root) && Siblings(Shape(w), l, r)
  }

  lemma ElsewhereLifts(w: Store, w': Store, a: Node, b: Node, p: Node)
    requires Elsewhere(w, w', a, b, p)
    ensures SameElsewhere(Shape(w), Shape(w'), a, b, p) && SameLevels(Shape(w), Shape(w'))
  {
  }

  lemma BelowIsOver(w: Store, p: Node, n: Node)
    requires p in w && n in w
    ensures Below(Shape(w), n, p) == Over(w, p, n)
  {
  }

  lemma OverPos(w: Store, root: Node, p: Node, n: Node)
    requires AllOk(w) && Tree(Shape(w), root) && p in w && n in w && Over(w, p, n)
    ensures w[n].pos <= w[p].count
  {
    var h := Shape(w);
    assert OkRaw(w[p]);
    assert h[n].level < h[p].level;
    assert Up(h, n) && Down(h, p);
  }

  lemma ViewAt(w: Store, n: Node)
    requires n in w && w[n].count <= |w[n].slots| && (w[n].max == 0 ==> w[n].count + 1 <= |w[n].children|)
    ensures n in Shape(w) && Shape(w)[n].level == w[n].level && Shape(w)[n].parent == w[n].parent && Shape(w)[n].pos == w[n].pos
    ensures Shape(w)[n].vals == w[n].slots[..w[n].count]
    ensures Shape(w)[n].kids == if w[n].max == 0 then w[n].children[..w[n].count + 1] else []
  {
  }

  lemma MovedOk(w: Store, w': Store, l: Node, r: Node, lc: nat, rc: nat)
    requires AllOk(w) && Moved(w, w', l, r, lc, rc)
    ensures AllOk(w')
  {
    forall n | n in w'
      ensures OkRaw(w'[n])
    {
      assert OkRaw(w[n]);
    }
  }

  /** What recutting needs to know about the shapes before and after. */
  lemma MovedBasics(w: Store, w': Store, root: Node, l: Node, r: Node, lc: nat, rc: nat)
    requires AtPair(w, root, l, r) && Moved(w, w', l, r, lc, rc)
    ensures Recuttable(Shape(w), l, r, lc) && Tree(Shape(w), root) && Shape(w').Keys == Shape(w).Keys
    ensures SameElsewhere(Shape(w), Shape(w'), l, r, Shape(w)[l].parent) && SameLevels(Shape(w), Shape(w'))
  {
    assert OkRaw(w[l]);
    RecutFacts(Shape(w), root, l, r, lc);
    ElsewhereLifts(w, w', l, r, w[l].parent);
  }

  // moving to the left

  lemma LeftLinks(w: Store, w': Store, root: Node, l: Node, r: Node, k: nat)
    requires AtPair(w, root, l, r) && l in w && r in w && LinksLeft(w, w', l, r, k)
    ensures RecutLinks(Shape(w), Shape(w'), l, r, w[l].count + k)
  {
    var h, m := Shape(w), Shape(w');
    assert OkRaw(w[l]);
    forall n | n in h && n in m
      ensures Below(h, n, l) == Over(w, l, n) && Below(h, n, r) == Over(w, r, n)
      ensures Below(h, n, l) ==> h[n].pos <= |h[l].vals|
      ensures m[n].pos == w'[n].pos && m[n].parent == w'[n].parent
    {
      if Over(w, l, n) {
        OverPos(w, root, l, n);
      }
    }
  }

  lemma CutHigh(l: seq<V>, d: V, r: seq<V>, k: nat)
    requires 1 <= k <= |r|
    ensures var s, c := l + [d] + r, |l| + k;
            s[..c] == l + [d] + r[..k - 1] && s[c + 1..] == r[k..] && s[c] == r[k - 1]
  {
  }

  lemma CutLow(l: seq<V>, d: V, r: seq<V>, c: nat)
    requires c < |l|
    ensures var s := l + [d] + r;
            s[..c] == l[..c] && s[c + 1..] == l[c + 1..] + [d] + r && s[c] == l[c]
  {
  }

  lemma LeftValues(w: Store, w': Store, l: Node, r: Node, k: nat)
    requires Neighbours(w, l, r) && 1 <= k <= w[r].count && Moved(w, w', l, r, w[l].count + k, w[r].count - k)
    requires ValsLeft(w, w', l, r, k) && Recuttable(Shape(w), l, r, w[l].count + k)
    ensures RecutVals(Shape(w), Shape(w'), l, r, w[l].count + k)
  {
    var h, c, p := Shape(w), w[l].count + k, w[l].parent;
    var lv, d, rv := w[l].slots[..w[l].count], w[p].slots[w[l].pos], w[r].slots[..w[r].count];
    assert BothVals(h, l, r) == lv + [d] + rv;
    CutHigh(lv, d, rv, k);
  }

  lemma LeftKids(w: Store, w': Store, l: Node, r: Node, k: nat)
    requires Neighbours(w, l, r) && k <= w[r].count && Moved(w, w', l, r, w[l].count + k, w[r].count - k)
    requires KidsLeft(w, w', l, r, k) && Recuttable(Shape(w), l, r, w[l].count + k) && (w[l].max == 0 <==> w[l].level > 0)
    ensures RecutKids(Shape(w), Shape(w'), l, r, w[l].count + k)
  {
    hide Shape, BothKids, Copied, Recuttable;
    MovedParentKids(w, w', l, r, w[l].count + k, w[r].count - k);
    if w[l].max == 0 {
      BothKidsAre(w, l, r, w[l].count + k);
      MovedReads(w'[l].children, w'[r].children, w[l].children, w[l].count + 1, w[r].children, w[r].count + 1, k);
      MovedKidsAre(w, w', l, r, w[l].count + k, w[r].count - k);
    }
  }

  lemma MovedParentKids(w: Store, w': Store, l: Node, r: Node, lc: nat, rc: nat)
    requires Moved(w, w', l, r, lc, rc)
    ensures l in Shape(w) && Shape(w)[l].parent in Shape(w) && {l, r, Shape(w)[l].parent} <= Shape(w').Keys
    ensures Shape(w)[l].parent == w[l].parent && Shape(w')[w[l].parent].kids == Shape(w)[w[l].parent].kids
    ensures Shape(w)[l].level == w[l].level
    ensures w[l].max != 0 ==> Shape(w')[l].kids == [] && Shape(w')[r].kids == []
  {
    hide Shape;
    ViewAt(w, l);
    ViewAt(w, w[l].parent);
    ViewAt(w', l);
    ViewAt(w', r);
    ViewAt(w', w[l].parent);
  }

  lemma BothKidsAre(w: Store, l: Node, r: Node, c: nat)
    requires Neighbours(w, l, r) && Recuttable(Shape(w), l, r, c) && w[l].max == 0
    ensures BothKids(Shape(w), l, r) == w[l].children[..w[l].count + 1] + w[r].children[..w[r].count + 1]
  {
    ViewAt(w, l);
    ViewAt(w, r);
  }

  lemma MovedKidsAre(w: Store, w': Store, l: Node, r: Node, lc: nat, rc: nat)
    requires Moved(w, w', l, r, lc, rc) && w[l].max == 0
    ensures Shape(w')[l].kids == w'[l].children[..lc + 1] && Shape(w')[r].kids == w'[r].children[..rc + 1]
  {
    ViewAt(w', l);
    ViewAt(w', r);
  }

  /** Moving values to the left sibling recuts the two nodes. */
  lemma LeftRecuts(w: Store, w': Store, root: Node, l: Node, r: Node, k: nat)
    requires AtPair(w, root, l, r) && l in w && r in w && (w[l].max == 0 <==> w[l].level > 0)
    requires Neighbours(w, l, r) && 1 <= k <= w[r].count && Moved(w, w', l, r, w[l].count + k, w[r].count - k)
    requires ValsLeft(w, w', l, r, k) && KidsLeft(w, w', l, r, k) && LinksLeft(w, w', l, r, k)
    ensures Recuttable(Shape(w), l, r, w[l].count + k) && Shape(w') == Recut(Shape(w), l, r, w[l].count + k)
  {
    hide *;
    MovedBasics(w, w', root, l, r, w[l].count + k, w[r].count - k);
    LeftLinks(w, w', root, l, r, k);
    LeftValues(w, w', l, r, k);
    LeftKids(w, w', l, r, k);
    StepRecuts(Shape(w), Shape(w'), root, l, r, w[l].count + k);
  }

  // moving to the right

  lemma RightLinks(w: Store, w': Store, root: Node, l: Node, r: Node, k: nat)
    requires AtPair(w, root, l, r) && l in w && r in w && k <= w[l].count && LinksRight(w, w', l, r, k)
    ensures RecutLinks(Shape(w), Shape(w'), l, r, w[l].count - k)
  {
    var h, m := Shape(w), Shape(w');
    assert OkRaw(w[l]);
    forall n | n in h && n in m
      ensures Below(h, n, l) == Over(w, l, n) && Below(h, n, r) == Over(w, r, n)
      ensures Below(h, n, l) ==> h[n].pos <= |h[l].vals|
      ensures m[n].pos == w'[n].pos && m[n].parent == w'[n].parent
    {
      if Over(w, l, n) {
        OverPos(w, root, l, n);
      }
    }
  }

  lemma RightValues(w: Store, w': Store, l: Node, r: Node, k: nat)
    requires Neighbours(w, l, r) && 1 <= k <= w[l].count && Moved(w, w', l, r, w[l].count - k, w[r].count + k)
    requires ValsRight(w, w', l, r, k) && Recuttable(Shape(w), l, r, w[l].count - k)
    ensures RecutVals(Shape(w), Shape(w'), l, r, w[l].count - k)
  {
    var h, c, p := Shape(w), w[l].count - k, w[l].parent;
    var lv, d, rv := w[l].slots[..w[l].count], w[p].slots[w[l].pos], w[r].slots[..w[r].count];
    assert BothVals(h, l, r) == lv + [d] + rv;
    CutLow(lv, d, rv, c);
  }

  lemma RightKids(w: Store, w': Store, l: Node, r: Node, k: nat)
    requires Neighbours(w, l, r) && k <= w[l].count && Moved(w, w', l, r, w[l].count - k, w[r].count + k)
    requires KidsRight(w, w', l, r, k) && Recuttable(Shape(w), l, r, w[l].count - k) && (w[l].max == 0 <==> w[l].level > 0)
    ensures RecutKids(Shape(w), Shape(w'), l, r, w[l].count - k)
  {
    hide Shape, BothKids, Prepended, Recuttable;
    MovedParentKids(w, w', l, r, w[l].count - k, w[r].count + k);
    if w[l].max == 0 {
      BothKidsAre(w, l, r, w[l].count - k);
      MovedBackReads(w'[r].children, w[l].children, w[l].count + 1, w[r].children, w[r].count + 1, k);
      MovedKidsAre(w, w', l, r, w[l].count - k, w[r].count + k);
    }
  }

  /** Moving values to the right sibling recuts the two nodes. */
  lemma RightRecuts(w: Store, w': Store, root: Node, l: Node, r: Node, k: nat)
    requires AtPair(w, root, l, r) && l in w && r in w && (w[l].max == 0 <==> w[l].level > 0)
    requires Neighbours(w, l, r) && 1 <= k <= w[l].count && Moved(w, w', l, r, w[l].count - k, w[r].count + k)
    requires ValsRight(w, w', l, r, k) && KidsRight(w, w', l, r, k) && LinksRight(w, w', l, r, k)
    ensures Recuttable(Shape(w), l, r, w[l].count - k) && Shape(w') == Recut(Shape(w), l, r, w[l].count - k)
  {
    hide *;
    MovedBasics(w, w', root, l, r, w[l].count - k, w[r].count + k);
    RightLinks(w, w', root, l, r, k);
    RightValues(w, w', l, r, k);
    RightKids(w, w', l, r, k);
    StepRecuts(Shape(w), Shape(w'), root, l, r, w[l].count - k);
  }

  // splitting

  lemma SplitOk(w: Store, w': Store, n: Node, dest: Node, c: nat)
    requires AllOk(w) && SplitUp(w, w', n, dest, c)
    ensures AllOk(w')
  {
    forall x | x in w'
      ensures OkRaw(w'[x])
    {
      assert OkRaw(w[n]);
      if x != dest {
        assert OkRaw(w[x]);
      }
    }
  }

  lemma SplitBasics(w: Store, w': Store, root: Node, n: Node, dest: Node, c: nat)
    requires AllOk(w) && Tree(Shape(w), root) && n != root && SplitUp(w, w', n, dest, c)
    ensures Cuttable(Shape(w), n, dest, c) && Shape(w').Keys == Shape(w).Keys + {dest}
    ensures SameElsewhere(Shape(w), Shape(w'), n, dest, Shape(w)[n].parent) && SameLevels(Shape(w), Shape(w'))
    ensures w[n].max == 0 <==> w[n].level > 0
  {
    var h := Shape(w);
    assert OkRaw(w[n]);
    assert Up(h, n) && Down(h, n) && Down(h, h[n].parent);
    ElsewhereLifts(w, w', n, dest, w[n].parent);
  }

  lemma SplitCutLinks(w: Store, w': Store, n: Node, dest: Node, c: nat)
    requires n in w && w[n].parent in w && SplitLinks(w, w', n, dest, c)
    ensures CutLinks(Shape(w), Shape(w'), n, dest, c)
  {
    var h, m := Shape(w), Shape(w');
    forall x | x in h && x in m
      ensures Below(h, x, n) == Over(w, n, x) && Below(h, x, w[n].parent) == Over(w, w[n].parent, x)
      ensures m[x].pos == w'[x].pos && m[x].parent == w'[x].parent
    {
    }
  }

  lemma SplitDest(w: Store, w': Store, n: Node, dest: Node, c: nat)
    requires SplitContents(w, w', n, dest, c) && Cuttable(Shape(w), n, dest, c) && (w[n].max == 0 <==> w[n].level > 0)
    ensures dest in Shape(w') && Shape(w')[dest] == CutRec(Shape(w), n, dest, c, dest)
  {
    hide Shape, Elsewhere, With;
    ViewAt(w, n);
    ViewAt(w', dest);
    assert w[n].slots[..K] == w[n].slots;
    if w[n].max == 0 {
      TailByIndex(w'[dest].children, w[n].children, c + 1);
      assert w[n].children[..K + 1] == w[n].children;
    }
  }

  lemma SplitKept(w: Store, w': Store, n: Node, dest: Node, c: nat)
    requires SplitContents(w, w', n, dest, c) && Cuttable(Shape(w), n, dest, c) && (w[n].max == 0 <==> w[n].level > 0)
    ensures n in Shape(w') && Shape(w')[n].vals == Shape(w)[n].vals[..c]
    ensures Shape(w')[n].kids == if Shape(w)[n].level == 0 then [] else Shape(w)[n].kids[..c + 1]
  {
    ViewAt(w, n);
    ViewAt(w', n);
    assert w[n].slots[..K][..c] == w[n].slots[..c];
    if w[n].max == 0 {
      assert w[n].children[..K + 1][..c + 1] == w[n].children[..c + 1];
    }
  }

  lemma SplitAbove(w: Store, w': Store, n: Node, dest: Node, c: nat)
    requires SplitContents(w, w', n, dest, c) && Cuttable(Shape(w), n, dest, c)
    ensures var h, m, p := Shape(w), Shape(w'), w[n].parent;
            && p == h[n].parent && p in h && p in m && h[n].pos < |h[p].kids|
            && m[p].vals == With(h[p].vals, h[n].pos, h[n].vals[c]) && m[p].kids == With(h[p].kids, h[n].pos + 1, dest)
  {
    hide Shape, With, Cuttable;
    ViewAt(w, n);
    ViewAt(w, w[n].parent);
    ViewAt(w', w[n].parent);
    assert w[n].slots[..w[n].count] == w[n].slots;
  }

  lemma SplitRest(w: Store, w': Store, n: Node, dest: Node, c: nat)
    requires SplitContents(w, w', n, dest, c) && Cuttable(Shape(w), n, dest, c) && (w[n].max == 0 <==> w[n].level > 0)
    requires dest in Shape(w') && Shape(w')[dest] == CutRec(Shape(w), n, dest, c, dest)
    ensures CutContents(Shape(w), Shape(w'), n, dest, c)
  {
    hide SplitContents, CutRec, With;
    SplitKept(w, w', n, dest, c);
    SplitAbove(w, w', n, dest, c);
  }

  /** Splitting a node cuts it. */
  lemma SplitCuts(w: Store, w': Store, root: Node, n: Node, dest: Node, c: nat)
    requires AllOk(w) && Tree(Shape(w), root) && n != root
    requires SplitUp(w, w', n, dest, c) && SplitContents(w, w', n, dest, c) && n in w && w[n].parent in w && SplitLinks(w, w', n, dest, c)
    ensures Cuttable(Shape(w), n, dest, c) && Shape(w') == Cut(Shape(w), n, dest, c)
  {
    hide *;
    SplitBasics(w, w', root, n, dest, c);
    SplitCutLinks(w, w', n, dest, c);
    SplitDest(w, w', n, dest, c);
    SplitRest(w, w', n, dest, c);
    StepCuts(Shape(w), Shape(w'), root, n, dest, c);
  }

  // merging

  lemma MergedOk(w: Store, w': Store, l: Node, r: Node)
    requires AllOk(w) && MergedUp(w, w', l, r)
    ensures AllOk(w' - {r})
  {
    forall n | n in w' - {r}
      ensures OkRaw((w' - {r})[n])
    {
      assert OkRaw(w[n]);
    }
  }

  lemma MergedBasics(w: Store, w': Store, root: Node, l: Node, r: Node)
    requires AtPair(w, root, l, r) && MergedUp(w, w', l, r)
    ensures var h, m := Shape(w), Shape(w' - {r});
            && Siblings(h, l, r) && h[l].pos < |h[h[l].parent].vals| && m.Keys == h.Keys - {r} && Tree(h, root)
            && SameElsewhere(h, m, l, r, h[l].parent) && SameLevels(h, m) && (w[l].max == 0 <==> w[l].level > 0)
  {
    assert OkRaw(w[l]);
    SiblingFacts(Shape(w), root, l, r);
    SameButOne(w, w', l, r, w[l].parent);
    hide OkRaw, Tree, SameElsewhere, SameLevels, ViewOf, Elsewhere, Neighbours;
  }

  lemma SameButOne(w: Store, w': Store, l: Node, r: Node, p: Node)
    requires Elsewhere(w, w', l, r, p) && w'.Keys == w.Keys
    ensures SameElsewhere(Shape(w), Shape(w' - {r}), l, r, p) && SameLevels(Shape(w), Shape(w' - {r}))
  {
  }

  lemma MergedJoinLinks(w: Store, w': Store, l: Node, r: Node)
    requires l in w && r in w && w[l].parent in w && w[l].count <= |w[l].slots| && MergedLinks(w, w', l, r)
    ensures JoinLinks(Shape(w), Shape(w' - {r}), l, r)
  {
    var h, m := Shape(w), Shape(w' - {r});
    forall x | x in h && x in m
      ensures Below(h, x, r) == Over(w, r, x) && Below(h, x, w[l].parent) == Over(w, w[l].parent, x)
      ensures m[x].pos == w'[x].pos && m[x].parent == w'[x].parent
    {
    }
  }

  lemma MergedJoinVals(w: Store, w': Store, l: Node, r: Node)
    requires MergedContents(w, w', l, r) && Siblings(Shape(w), l, r) && Shape(w)[l].pos < |Shape(w)[Shape(w)[l].parent].vals|
    ensures l in Shape(w' - {r}) && Shape(w' - {r})[l].vals == BothVals(Shape(w), l, r)
  {
    ViewAt(w, l);
    ViewAt(w, r);
    ViewAt(w, w[l].parent);
    ViewAt(w' - {r}, l);
  }

  lemma MergedJoinKids(w: Store, w': Store, l: Node, r: Node)
    requires MergedContents(w, w', l, r) && Siblings(Shape(w), l, r)
    ensures l in Shape(w' - {r}) && Shape(w' - {r})[l].kids == BothKids(Shape(w), l, r)
  {
    hide Shape, Copied, Without;
    ViewAt(w, l);
    ViewAt(w, r);
    ViewAt(w' - {r}, l);
    if w[l].max == 0 {
      AppendedByIndex(w'[l].children, w[l].children, w[l].count + 1, w[r].children, w[r].count + 1);
    }
  }

  lemma MergedJoinParent(w: Store, w': Store, l: Node, r: Node)
    requires MergedContents(w, w', l, r) && l in w
    ensures var h, m, p := Shape(w), Shape(w' - {r}), w[l].parent;
            && l in h && h[l].parent == p && h[l].pos == w[l].pos && p in h && p in m && w[l].pos + 1 < |h[p].kids|
            && m[p].vals == Without(h[p].vals, w[l].pos) && m[p].kids == Without(h[p].kids, w[l].pos + 1)
  {
    var p := w[l].parent;
    ViewAt(w, p);
    ViewAt(w' - {r}, p);
    WithoutByIndex(w'[p].children, w[p].children, w[p].count + 1, w[l].pos + 1);
  }

  lemma MergedJoinContents(w: Store, w': Store, l: Node, r: Node)
    requires MergedContents(w, w', l, r) && l in w && Siblings(Shape(w), l, r) && Shape(w)[l].pos < |Shape(w)[Shape(w)[l].parent].vals|
    ensures JoinContents(Shape(w), Shape(w' - {r}), l, r)
  {
    hide MergedContents, BothVals, BothKids, Siblings;
    MergedJoinVals(w, w', l, r);
    MergedJoinKids(w, w', l, r);
    MergedJoinParent(w, w', l, r);
  }

  /** Merging two siblings joins them. */
  lemma MergedJoins(w: Store, w': Store, root: Node, l: Node, r: Node)
    requires AtPair(w, root, l, r) && l in w && r in w && w[l].parent in w && w[l].count <= |w[l].slots|
    requires MergedUp(w, w', l, r) && MergedContents(w, w', l, r) && MergedLinks(w, w', l, r)
    ensures var h := Shape(w);
            Siblings(h, l, r) && h[l].pos < |h[h[l].parent].vals| && Shape(w' - {r}) == Join(h, l, r)
  {
    hide *;
    MergedBasics(w, w', root, l, r);
    MergedJoinLinks(w, w', l, r);
    MergedJoinContents(w, w', l, r);
    StepJoins(Shape(w), Shape(w' - {r}), root, l, r);
  }
}
