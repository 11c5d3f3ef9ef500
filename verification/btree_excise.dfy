/** Removing a run of values of an internal node together with the subtrees between them. */
module BtreeExcise {
  import opened BtreeValues
  import opened BtreeNodes
  import opened Weaving
  import opened BtreeShape
  import opened BtreeEdit
  import opened BtreeRank
  import opened BtreeJoin

  ghost predicate Run(h: Heap, root: Node, n: Node, b: nat, e: nat) {
    && Tree(h, root) && n in h && h[n].level > 0
    && |h[n].kids| == |h[n].vals| + 1 && b < e < |h[n].vals|
    && forall k {:trigger h[n].kids[k]} :: 0 <= k < |h[n].kids| ==> h[n].kids[k] in h
  }

  /** `x` hangs under one of the children between values `b` and `e`. */
  ghost predicate Doomed(h: Heap, root: Node, n: Node, b: nat, e: nat, x: Node)
    requires Run(h, root, n, b, e) && x in h
  {
    exists k {:trigger h[n].kids[k]} :: b < k <= e && Under(h, root, x, h[n].kids[k])
  }

  ghost function ExciseRec(h: Heap, n: Node, b: nat, e: nat, x: Node): (r: Rec)
    requires n in h && x in h && |h[n].kids| == |h[n].vals| + 1 && b < e < |h[n].vals|
  {
    if x == n then
      h[n].(vals := h[n].vals[..b] + h[n].vals[e..], kids := h[n].kids[..b + 1] + h[n].kids[e + 1..])
    else if Below(h, x, n) && h[x].pos > e then
      h[x].(pos := h[x].pos - (e - b))
    else
      h[x]
  }

  /** The nodes that go away with the run. */
  ghost function DoomedSet(h: Heap, root: Node, n: Node, b: nat, e: nat): (dead: set<Node>)
    requires Run(h, root, n, b, e)
  {
    set x | x in h && Doomed(h, root, n, b, e, x)
  }

  ghost predicate DeadChild(h: Heap, n: Node, b: nat, e: nat, dead: set<Node>, x: Node, i: nat)
    requires x in h && i < |h[x].kids|
  {
    h[x].kids[i] in dead <==> x in dead || (x == n && b < i <= e)
  }

  /** `dead` consists of whole subtrees: those of the run. */
  ghost predicate Closed(h: Heap, root: Node, n: Node, b: nat, e: nat, dead: set<Node>) {
    && Tree(h, root) && n in h && h[n].level > 0
    && |h[n].kids| == |h[n].vals| + 1 && b < e < |h[n].vals|
    && root !in dead && n !in dead
    && (forall x, i {:trigger DeadChild(h, n, b, e, dead, x, i)} :: x in h && 0 <= i < |h[x].kids| ==> DeadChild(h, n, b, e, dead, x, i))
  }

  ghost function Excise(h: Heap, n: Node, b: nat, e: nat, dead: set<Node>): (h': Heap)
    requires n in h && |h[n].kids| == |h[n].vals| + 1 && b < e < |h[n].vals|
  {
    map x | x in h && x !in dead :: ExciseRec(h, n, b, e, x)
  }

  /** The run hangs strictly below `n`. */
  lemma DoomedUnder(h: Heap, root: Node, n: Node, b: nat, e: nat, x: Node)
    requires Run(h, root, n, b, e) && x in h && Doomed(h, root, n, b, e, x)
    ensures Under(h, root, x, n) && x != n
  {
    var k :| b < k <= e && Under(h, root, x, h[n].kids[k]);
    var c := h[n].kids[k];
    assert Down(h, n);
    assert Child(h, n, k);
    UnderAbove(h, root, x, c);
  }

  /** A child is doomed with its parent, or as one of the run. */
  lemma DoomedChild(h: Heap, root: Node, n: Node, b: nat, e: nat, x: Node, i: nat)
    requires Run(h, root, n, b, e) && x in h && i < |h[x].kids|
    ensures Child(h, x, i)
    ensures Doomed(h, root, n, b, e, h[x].kids[i]) <==> Doomed(h, root, n, b, e, x) || (x == n && b < i <= e)
  {
    assert Down(h, x) && Down(h, n);
    assert Child(h, x, i);
    var c := h[x].kids[i];
    if Doomed(h, root, n, b, e, c) {
      var k :| b < k <= e && Under(h, root, c, h[n].kids[k]);
      assert Child(h, n, k);
      UnderChild(h, root, x, i, h[n].kids[k]);
    }
    if Doomed(h, root, n, b, e, x) {
      var k :| b < k <= e && Under(h, root, x, h[n].kids[k]);
      UnderChild(h, root, x, i, h[n].kids[k]);
    }
    if x == n && b < i <= e {
      assert Under(h, root, c, h[n].kids[i]);
    }
  }

  lemma DoomedClosed(h: Heap, root: Node, n: Node, b: nat, e: nat)
    requires Run(h, root, n, b, e)
    ensures Closed(h, root, n, b, e, DoomedSet(h, root, n, b, e))
  {
    var dead := DoomedSet(h, root, n, b, e);
    forall x, i | x in h && 0 <= i < |h[x].kids|
      ensures DeadChild(h, n, b, e, dead, x, i)
    {
      DoomedChild(h, root, n, b, e, x, i);
    }
    AllUnderRoot(h, root, n);
    if root in dead {
      DoomedUnder(h, root, n, b, e, root);
    }
    if n in dead {
      DoomedUnder(h, root, n, b, e, n);
    }
  }

  lemma ExciseDown(h: Heap, root: Node, n: Node, b: nat, e: nat, dead: set<Node>, x: Node)
    requires Closed(h, root, n, b, e, dead) && x in h && x !in dead
    ensures Down(Excise(h, n, b, e, dead), x)
  {
    var h' := Excise(h, n, b, e, dead);
    assert Down(h, x);
    forall j | 0 <= j < |h'[x].kids|
      ensures Child(h', x, j)
    {
      var i := if x == n && j > b then j + (e - b) else j;
      assert Child(h, x, i);
      assert DeadChild(h, n, b, e, dead, x, i);
    }
  }

  lemma ExciseUp(h: Heap, root: Node, n: Node, b: nat, e: nat, dead: set<Node>, x: Node)
    requires Closed(h, root, n, b, e, dead) && x in h && x !in dead && x != root
    ensures Up(Excise(h, n, b, e, dead), x)
  {
    assert Up(h, x);
    assert DeadChild(h, n, b, e, dead, h[x].parent, h[x].pos);
  }

  lemma ExciseTree(h: Heap, root: Node, n: Node, b: nat, e: nat, dead: set<Node>)
    requires Closed(h, root, n, b, e, dead)
    ensures Tree(Excise(h, n, b, e, dead), root)
  {
    var h' := Excise(h, n, b, e, dead);
    assert AllDown(h') by {
      forall x | x in h'
        ensures Down(h', x)
      {
        ExciseDown(h, root, n, b, e, dead, x);
      }
    }
    assert forall x {:trigger Up(h', x)} :: x in h' && x != root ==> Up(h', x) by {
      forall x | x in h' && x != root
        ensures Up(h', x)
      {
        ExciseUp(h, root, n, b, e, dead, x);
      }
    }
  }

  lemma {:induction false} DeadUnder(h: Heap, root: Node, n: Node, b: nat, e: nat, dead: set<Node>, x: Node)
    requires Closed(h, root, n, b, e, dead) && x in h && x in dead
    ensures Under(h, root, x, n)
    decreases h[root].level - h[x].level
  {
    assert Up(h, x);
    var p := h[x].parent;
    assert DeadChild(h, n, b, e, dead, p, h[x].pos);
    if p != n {
      DeadUnder(h, root, n, b, e, dead, p);
    }
    UnderParent(h, root, x, n);
  }

  lemma ExciseSwapped(h: Heap, root: Node, n: Node, b: nat, e: nat, dead: set<Node>)
    requires Closed(h, root, n, b, e, dead)
    ensures Tree(Excise(h, n, b, e, dead), root) && Swapped(h, Excise(h, n, b, e, dead), root, n)
  {
    ExciseTree(h, root, n, b, e, dead);
    forall x | x in h && !Under(h, root, x, n)
      ensures x !in dead && !Below(h, x, n) && x != n
    {
      if x in dead {
        DeadUnder(h, root, n, b, e, dead, x);
      }
      assert Under(h, root, n, n);
      if x != root {
        UnderParent(h, root, x, n);
      }
    }
  }

  lemma {:induction false} ExciseFlatBelow(h: Heap, root: Node, n: Node, b: nat, e: nat, dead: set<Node>, x: Node)
    requires Closed(h, root, n, b, e, dead) && Tree(Excise(h, n, b, e, dead), root)
    requires x in h && x !in dead && h[x].level < h[n].level
    ensures Flat(Excise(h, n, b, e, dead), x) == Flat(h, x)
    decreases h[x].level
  {
    var h' := Excise(h, n, b, e, dead);
    if h[x].level > 0 {
      forall j | 0 <= j <= |h[x].vals|
        ensures Parts(h', x)[j] == Parts(h, x)[j]
      {
        PartAt(h, x, j);
        PartAt(h', x, j);
        ExciseFlatBelow(h, root, n, b, e, dead, h[x].kids[j]);
      }
      assert Parts(h', x) == Parts(h, x);
    }
  }

  lemma ExciseParts(h: Heap, root: Node, n: Node, b: nat, e: nat, dead: set<Node>)
    requires Closed(h, root, n, b, e, dead) && Tree(Excise(h, n, b, e, dead), root)
    ensures Parts(Excise(h, n, b, e, dead), n) == Parts(h, n)[..b + 1] + Parts(h, n)[e + 1..]
  {
    var h' := Excise(h, n, b, e, dead);
    assert Down(h', n);
    forall j | 0 <= j < |h'[n].kids|
      ensures Parts(h', n)[j] == (Parts(h, n)[..b + 1] + Parts(h, n)[e + 1..])[j]
    {
      PartAt(h', n, j);
      PartAt(h, n, if j > b then j + (e - b) else j);
      ExciseFlatBelow(h, root, n, b, e, dead, h'[n].kids[j]);
    }
  }

  /** What is removed from the sequence is exactly what stood between the two positions. */
  lemma ExciseFlat(h: Heap, root: Node, n: Node, b: nat, e: nat, dead: set<Node>)
    requires Closed(h, root, n, b, e, dead)
    ensures Tree(Excise(h, n, b, e, dead), root)
    ensures Rank(h, root, n, b) <= Rank(h, root, n, e) <= |Flat(h, root)|
    ensures Flat(Excise(h, n, b, e, dead), root) == Flat(h, root)[..Rank(h, root, n, b)] + Flat(h, root)[Rank(h, root, n, e)..]
  {
    ExciseSwapped(h, root, n, b, e, dead);
    ExciseFlatNode(h, root, n, b, e, dead);
    SwapShorter(h, Excise(h, n, b, e, dead), root, n, b, e);
  }

  lemma SwapShorter(h: Heap, h': Heap, root: Node, n: Node, b: nat, e: nat)
    requires Tree(h, root) && Tree(h', root) && n in h && Swapped(h, h', root, n) && b <= e <= |h[n].vals|
    requires var f, i, j := Flat(h, n), Offset(h[n].vals, Parts(h, n), b), Offset(h[n].vals, Parts(h, n), e);
             i <= j <= |f| && Flat(h', n) == f[..i] + f[j..]
    ensures Rank(h, root, n, b) <= Rank(h, root, n, e) <= |Flat(h, root)|
    ensures Flat(h', root) == Flat(h, root)[..Rank(h, root, n, b)] + Flat(h, root)[Rank(h, root, n, e)..]
  {
    hide *;
    SwapFacts(h, h', root, n);
    SwapTheorem(h, h', root, n);
    RankIs(h, root, n, b);
    RankIs(h, root, n, e);
    CutInside(Flat(h, root), Flat(h', root), Before(h, root, n), Flat(h, n), Flat(h', n), After(h, root, n),
              Offset(h[n].vals, Parts(h, n), b), Offset(h[n].vals, Parts(h, n), e));
  }

  lemma SwapFacts(h: Heap, h': Heap, root: Node, n: Node)
    requires Tree(h, root) && Tree(h', root) && n in h && Swapped(h, h', root, n)
    ensures AllDown(h) && AllDown(h') && root in h && root in h' && n in h'
  {
  }

  lemma RankIs(h: Heap, root: Node, n: Node, i: nat)
    requires Tree(h, root) && n in h && i <= |h[n].vals|
    ensures Rank(h, root, n, i) == |Before(h, root, n)| + Offset(h[n].vals, Parts(h, n), i)
  {
  }

  lemma ExciseFlatNode(h: Heap, root: Node, n: Node, b: nat, e: nat, dead: set<Node>)
    requires Closed(h, root, n, b, e, dead) && Tree(Excise(h, n, b, e, dead), root)
    ensures var f, i, j := Flat(h, n), Offset(h[n].vals, Parts(h, n), b), Offset(h[n].vals, Parts(h, n), e);
            i <= j <= |f| && Flat(Excise(h, n, b, e, dead), n) == f[..i] + f[j..]
  {
    ExciseParts(h, root, n, b, e, dead);
    WeaveCut(h[n].vals, Parts(h, n), b, e);
  }

  /** The position of the first removed value now denotes what followed the run. */
  lemma ExciseRank(h: Heap, root: Node, n: Node, b: nat, e: nat, dead: set<Node>)
    requires Closed(h, root, n, b, e, dead)
    ensures Tree(Excise(h, n, b, e, dead), root)
    ensures Rank(Excise(h, n, b, e, dead), root, n, b) == Rank(h, root, n, b)
  {
    var h' := Excise(h, n, b, e, dead);
    ExciseSwapped(h, root, n, b, e, dead);
    SwapTheorem(h, h', root, n);
    ExciseParts(h, root, n, b, e, dead);
    PreSame(h'[n].vals, Parts(h', n), h[n].vals, Parts(h, n), b);
  }

  lemma CutInside(w: seq<V>, w': seq<V>, b: seq<V>, f: seq<V>, f': seq<V>, a: seq<V>, i: nat, j: nat)
    requires w == b + f + a && w' == b + f' + a
    requires i <= j <= |f| && f' == f[..i] + f[j..]
    ensures |b| + i <= |b| + j <= |w| && w' == w[..|b| + i] + w[|b| + j..]
  {
  }

  // ----- the two ends survive

  lemma {:induction false} ExciseSpines(h: Heap, root: Node, n: Node, b: nat, e: nat, dead: set<Node>, x: Node)
    requires Closed(h, root, n, b, e, dead) && x in h && Tree(Excise(h, n, b, e, dead), root)
    ensures LeftSpine(h, root, x) ==> x !in dead && LeftSpine(Excise(h, n, b, e, dead), root, x)
    ensures RightSpine(h, root, x) ==> x !in dead && RightSpine(Excise(h, n, b, e, dead), root, x)
    decreases h[root].level - h[x].level
  {
    if x != root {
      assert Up(h, x);
      var p := h[x].parent;
      assert DeadChild(h, n, b, e, dead, p, h[x].pos);
      ExciseSpines(h, root, n, b, e, dead, p);
      if x !in dead {
        assert Up(Excise(h, n, b, e, dead), x);
      }
    }
  }

  lemma ExciseEnds(h: Heap, root: Node, n: Node, b: nat, e: nat, dead: set<Node>, x: Node)
    requires Closed(h, root, n, b, e, dead) && x in h
    ensures Tree(Excise(h, n, b, e, dead), root)
    ensures Before(h, root, x) == [] ==> x !in dead && Before(Excise(h, n, b, e, dead), root, x) == []
    ensures After(h, root, x) == [] ==> x !in dead && After(Excise(h, n, b, e, dead), root, x) == []
  {
    ExciseTree(h, root, n, b, e, dead);
    ExciseSpines(h, root, n, b, e, dead, x);
    LeftSpineBefore(h, root, x);
    RightSpineAfter(h, root, x);
    if x !in dead {
      LeftSpineBefore(Excise(h, n, b, e, dead), root, x);
      RightSpineAfter(Excise(h, n, b, e, dead), root, x);
    }
  }
}
