/** Changing the values of one node. */
module BtreeSetVals {
  import opened BtreeValues
  import opened BtreeNodes
  import opened Weaving
  import opened BtreeShape
  import opened BtreeEdit

  /** A leaf may take any values; an internal node must keep as many as it has. */
  ghost predicate Settable(h: Heap, n: Node, v: seq<V>) {
    n in h && (h[n].level == 0 || |v| == |h[n].vals|)
  }

  ghost function SetVals(h: Heap, n: Node, v: seq<V>): (h': Heap)
    requires Settable(h, n, v)
  {
    h[n := h[n].(vals := v)]
  }

  lemma SetValsTree(h: Heap, root: Node, n: Node, v: seq<V>)
    requires Tree(h, root) && Settable(h, n, v)
    ensures Tree(SetVals(h, n, v), root) && Swapped(h, SetVals(h, n, v), root, n)
  {
    var h' := SetVals(h, n, v);
    forall x | x in h'
      ensures Down(h', x)
    {
      assert Down(h, x);
      forall i | 0 <= i < |h'[x].kids|
        ensures Child(h', x, i)
      {
        assert Child(h, x, i);
      }
    }
    forall x | x in h' && x != root
      ensures Up(h', x)
    {
      assert Up(h, x);
    }
    assert Under(h, root, n, n);
  }

  /** New values in a leaf replace its old ones in the sequence. */
  lemma SetLeaf(h: Heap, root: Node, n: Node, v: seq<V>)
    requires Tree(h, root) && Settable(h, n, v) && h[n].level == 0
    ensures Tree(SetVals(h, n, v), root)
    ensures Flat(h, root) == Before(h, root, n) + h[n].vals + After(h, root, n)
    ensures Flat(SetVals(h, n, v), root) == Before(h, root, n) + v + After(h, root, n)
    ensures forall i :: 0 <= i <= |h[n].vals| ==> Rank(h, root, n, i) == |Before(h, root, n)| + i
    ensures forall i :: 0 <= i <= |v| ==> Rank(SetVals(h, n, v), root, n, i) == |Before(h, root, n)| + i
  {
    SetValsTree(h, root, n, v);
    SwapTheorem(h, SetVals(h, n, v), root, n);
    FlatLeaf(h, n);
    FlatLeaf(SetVals(h, n, v), n);
  }

  /** Which leaves stand at the two ends does not depend on the values. */
  lemma {:induction false} SetValsSpines(h: Heap, root: Node, n: Node, v: seq<V>, x: Node)
    requires Tree(h, root) && Settable(h, n, v) && x in h && Tree(SetVals(h, n, v), root)
    ensures LeftSpine(SetVals(h, n, v), root, x) == LeftSpine(h, root, x)
    ensures RightSpine(SetVals(h, n, v), root, x) == RightSpine(h, root, x)
    decreases h[root].level - h[x].level
  {
    if x != root {
      assert Up(h, x) && Up(SetVals(h, n, v), x);
      SetValsSpines(h, root, n, v, h[x].parent);
    }
  }

  lemma SetValsEnds(h: Heap, root: Node, n: Node, v: seq<V>, x: Node)
    requires Tree(h, root) && Settable(h, n, v) && x in h
    ensures Tree(SetVals(h, n, v), root)
    ensures Before(SetVals(h, n, v), root, x) == [] <==> Before(h, root, x) == []
    ensures After(SetVals(h, n, v), root, x) == [] <==> After(h, root, x) == []
  {
    SetValsTree(h, root, n, v);
    SetValsSpines(h, root, n, v, x);
    LeftSpineBefore(h, root, x);
    LeftSpineBefore(SetVals(h, n, v), root, x);
    RightSpineAfter(h, root, x);
    RightSpineAfter(SetVals(h, n, v), root, x);
  }

  // ----- replacing one value

  lemma {:induction false} PreSizes(vals: seq<V>, parts: seq<seq<V>>, vals': seq<V>, parts': seq<seq<V>>, i: nat)
    requires i <= |vals| == |vals'| && |parts| == |parts'| == |vals| + 1
    requires forall j :: 0 <= j < |parts| ==> |parts[j]| == |parts'[j]|
    ensures |Pre(vals, parts, i)| == |Pre(vals', parts', i)|
  {
    if i > 0 {
      PreSizes(vals, parts, vals', parts', i - 1);
    }
  }

  lemma {:induction false} SetSizes(h: Heap, root: Node, n: Node, v: seq<V>, x: Node)
    requires Tree(h, root) && n in h && |v| == |h[n].vals| && x in h && Tree(SetVals(h, n, v), root)
    ensures forall j :: 0 <= j <= |h[x].vals| ==> |Parts(SetVals(h, n, v), x)[j]| == |Parts(h, x)[j]|
    ensures |Flat(SetVals(h, n, v), x)| == |Flat(h, x)|
    decreases h[x].level
  {
    var h' := SetVals(h, n, v);
    forall j | 0 <= j <= |h[x].vals|
      ensures |Parts(h', x)[j]| == |Parts(h, x)[j]|
    {
      if h[x].level > 0 {
        PartAt(h, x, j);
        PartAt(h', x, j);
        SetSizes(h, root, n, v, h[x].kids[j]);
      }
    }
    PreSizes(h[x].vals, Parts(h, x), h'[x].vals, Parts(h', x), |h[x].vals|);
  }

  lemma {:induction false} SetBeforeSize(h: Heap, root: Node, n: Node, v: seq<V>, x: Node)
    requires Tree(h, root) && n in h && |v| == |h[n].vals| && x in h && Tree(SetVals(h, n, v), root)
    ensures |Before(SetVals(h, n, v), root, x)| == |Before(h, root, x)|
    decreases h[root].level - h[x].level
  {
    var h' := SetVals(h, n, v);
    if x != root {
      assert Up(h, x) && Up(h', x);
      var p := h[x].parent;
      assert Down(h, p);
      SetBeforeSize(h, root, n, v, p);
      SetSizes(h, root, n, v, p);
      PreSizes(h[p].vals, Parts(h, p), h'[p].vals, Parts(h', p), h[x].pos);
    }
  }

  /** Replacing values one for one moves no iterator. */
  lemma SetRank(h: Heap, root: Node, n: Node, v: seq<V>, x: Node, i: nat)
    requires Tree(h, root) && n in h && |v| == |h[n].vals| && x in h && i <= |h[x].vals|
    ensures Tree(SetVals(h, n, v), root)
    ensures Rank(SetVals(h, n, v), root, x, i) == Rank(h, root, x, i)
  {
    SetValsTree(h, root, n, v);
    var h' := SetVals(h, n, v);
    SetBeforeSize(h, root, n, v, x);
    SetSizes(h, root, n, v, x);
    PreSizes(h[x].vals, Parts(h, x), h'[x].vals, Parts(h', x), i);
  }

  lemma PostReplace(vals: seq<V>, parts: seq<seq<V>>, i: nat, x: V)
    requires i < |vals| && |parts| == |vals| + 1
    ensures Post(vals[i := x], parts, i) == [x] + (parts[i + 1] + Post(vals, parts, i + 1))
    ensures Post(vals, parts, i) == [vals[i]] + (parts[i + 1] + Post(vals, parts, i + 1))
  {
    var v := vals[i := x];
    assert v[i + 1..] == vals[i + 1..];
    PostSame(v, parts, i + 1, vals, parts, i + 1);
  }

  lemma WeaveReplace(vals: seq<V>, parts: seq<seq<V>>, i: nat, x: V)
    requires i < |vals| && |parts| == |vals| + 1
    ensures Offset(vals, parts, i) < |Weave(vals, parts)|
    ensures Weave(vals[i := x], parts) == Weave(vals, parts)[Offset(vals, parts, i) := x]
  {
    hide Weave, Post, Pre;
    var v := vals[i := x];
    WeaveAt(vals, parts, i);
    WeaveAt(v, parts, i);
    assert v[..i] == vals[..i];
    PreSame(v, parts, vals, parts, i);
    PostReplace(vals, parts, i, x);
    ReplaceFirst(Pre(vals, parts, i), parts[i], vals[i], parts[i + 1] + Post(vals, parts, i + 1), x);
  }

  lemma ReplaceFirst(a: seq<V>, b: seq<V>, y: V, c: seq<V>, x: V)
    ensures |a| + |b| < |a + b + ([y] + c)| && (a + b + ([y] + c))[|a| + |b| := x] == a + b + ([x] + c)
  {
  }

  lemma {:induction false} SetPartsBelow(h: Heap, root: Node, n: Node, v: seq<V>, x: Node)
    requires Tree(h, root) && Settable(h, n, v) && |v| == |h[n].vals| && Tree(SetVals(h, n, v), root)
    requires x in h && h[x].level <= h[n].level
    ensures Parts(SetVals(h, n, v), x) == Parts(h, x)
    decreases h[x].level
  {
    var h' := SetVals(h, n, v);
    if h[x].level > 0 {
      forall j | 0 <= j <= |h[x].vals|
        ensures Parts(h', x)[j] == Parts(h, x)[j]
      {
        PartAt(h, x, j);
        PartAt(h', x, j);
        SetPartsBelow(h, root, n, v, h[x].kids[j]);
      }
    }
    assert Parts(h', x) == Parts(h, x);
  }

  /** Overwriting one value overwrites one element of the sequence. */
  lemma SetOne(h: Heap, root: Node, n: Node, i: nat, x: V)
    requires Tree(h, root) && n in h && i < |h[n].vals|
    ensures Tree(SetVals(h, n, h[n].vals[i := x]), root)
    ensures Rank(h, root, n, i) < |Flat(h, root)|
    ensures Flat(SetVals(h, n, h[n].vals[i := x]), root) == Flat(h, root)[Rank(h, root, n, i) := x]
  {
    var v := h[n].vals[i := x];
    var h' := SetVals(h, n, v);
    SetValsTree(h, root, n, v);
    SwapTheorem(h, h', root, n);
    SetPartsBelow(h, root, n, v, n);
    WeaveReplace(h[n].vals, Parts(h, n), i, x);
    ReplaceInside(Before(h, root, n), Flat(h, n), After(h, root, n), Offset(h[n].vals, Parts(h, n), i), x);
  }

  lemma ReplaceInside(b: seq<V>, f: seq<V>, a: seq<V>, i: nat, x: V)
    requires i < |f|
    ensures (b + f + a)[|b| + i := x] == b + f[i := x] + a
  {
  }
}
