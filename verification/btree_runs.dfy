/** Whole runs of operations: on trees without equivalent values, and on trees that may have them. */
module BtreeRuns {
  import opened BtreeValues
  import opened BtreeNodes
  import opened BtreeShape
  import opened BtreeStore
  import opened BtreeSearch
  import opened BtreeOrdered
  import opened BtreeWalk
  import opened BtreeClear
  import opened Btrees

  /** One call; iterators are given by their ranks. */
  datatype Op = Insert(key: V) | InsertHint(hint: nat, key: V) | EraseAt(rank: nat) | EraseSlice(from: nat, upto: nat) | EraseKey(key: V) | ClearAll

  /** What a call does to the sorted sequence of values; a call with a rank out of range is not made. */
  ghost function Apply(s: seq<V>, op: Op): (r: seq<V>) {
    match op
    case Insert(key) => if Holds(s, key) then s else With(s, Slot(s, key), key)
    case InsertHint(_, key) => if Holds(s, key) then s else With(s, Slot(s, key), key)
    case EraseAt(rank) => if rank < |s| then Without(s, rank) else s
    case EraseSlice(from, upto) => if from <= upto <= |s| then s[..from] + s[upto..] else s
    case EraseKey(key) => if Holds(s, key) && Slot(s, key) < |s| then Without(s, Slot(s, key)) else s
    case ClearAll => []
  }

  lemma ApplyIs(s: seq<V>, op: Op)
    ensures op.Insert? || op.InsertHint? ==> Apply(s, op) == if Holds(s, op.key) then s else With(s, Slot(s, op.key), op.key)
    ensures op.EraseAt? ==> Apply(s, op) == if op.rank < |s| then Without(s, op.rank) else s
    ensures op.EraseSlice? ==> Apply(s, op) == if op.from <= op.upto <= |s| then s[..op.from] + s[op.upto..] else s
    ensures op.EraseKey? && Holds(s, op.key) && Slot(s, op.key) < |s| ==> Apply(s, op) == Without(s, Slot(s, op.key))
    ensures op.EraseKey? && !Holds(s, op.key) ==> Apply(s, op) == s
    ensures op.ClearAll? ==> Apply(s, op) == []
  {
  }

  ghost function Outcome(ops: seq<Op>): (r: seq<V>) {
    if ops == [] then [] else Apply(Outcome(ops[..|ops| - 1]), ops[|ops| - 1])
  }

  method Perform(t: Btree, op: Op)
    requires t.Valid() && Strict(t.Contents())
    modifies t, t.nodes - {t.sentinel}
    ensures t.Valid() && Strict(t.Contents()) && fresh(t.nodes - old(t.nodes) - {t.sentinel})
    ensures t.Contents() == Apply(old(t.Contents()), op)
  {
    hide *;
    t.ValidSize();
    ghost var s := t.Contents();
    ApplyIs(s, op);
    match op
    case Insert(key) =>
      var _, inserted := t.InsertUnique(key);
    case InsertHint(hint, key) =>
      var it := t.At(if hint < t.size then hint else t.size);
      t.RankIs(it, if hint < |s| then hint else |s|);
      var _, inserted := t.InsertHintUnique(it, key);
    case EraseAt(rank) =>
      if rank < t.size {
        var it := t.At(rank);
        t.ValidFacts();
        t.PointsInside(it, rank);
        t.RankIs(it, rank);
        var _ := t.Erase(it);
        WithoutStrict(s, rank);
      }
    case EraseSlice(from, upto) =>
      if from <= upto <= t.size {
        var first := t.At(from);
        var last := t.At(upto);
        t.RankIs(first, from);
        t.RankIs(last, upto);
        var _, _ := t.EraseRange(first, last);
        SliceStrict(s, from, upto);
      }
    case EraseKey(key) =>
      var n := t.EraseUnique(key);
    case ClearAll =>
      t.Clear();
      EmptyStrict();
  }

  lemma SliceStrict(s: seq<V>, i: nat, j: nat)
    requires Strict(s) && i <= j <= |s|
    ensures Strict(s[..i] + s[j..])
  {
  }

  lemma EmptyStrict()
    ensures Strict([])
  {
  }

  /** Every run from the empty tree leaves a well-formed tree that holds exactly what the same calls leave of a sorted sequence. */
  method Run(ops: seq<Op>, empty: Node) returns (t: Btree)
    requires Btree.Pristine(empty)
    ensures t.Valid() && Strict(t.Contents()) && t.Contents() == Outcome(ops)
  {
    hide Btree.Valid, Btree.Contents, Apply, Strict;
    EmptyStrict();
    t := new Btree(empty);
    ghost var tree := t;
    t.ValidSize();
    for i := 0 to |ops|
      invariant t == tree && t.sentinel == empty && fresh(t.nodes - {empty})
      invariant t.Valid() && Sound(t.nodes) && Tree(Snap(t.nodes), t.root)
      invariant Strict(t.Contents()) && t.Contents() == Outcome(ops[..i])
    {
      assert ops[..i + 1][..i] == ops[..i];
      Perform(t, ops[i]);
      t.ValidSize();
    }
    assert ops[..|ops|] == ops;
  }

  // ----- trees that may hold equivalent values

  /** What a call does to the sorted sequence of values of such a tree. */
  ghost function ApplyMulti(s: seq<V>, op: Op): (r: seq<V>) {
    match op
    case Insert(key) => With(s, Scan(s, key, NotAbove), key)
    case InsertHint(hint, key) => With(s, HintPlace(s, if hint < |s| then hint else |s|, key), key)
    case EraseAt(rank) => if rank < |s| then Without(s, rank) else s
    case EraseSlice(from, upto) => if from <= upto <= |s| then s[..from] + s[upto..] else s
    case EraseKey(key) => s[..Scan(s, key, Less)] + s[Scan(s, key, NotAbove)..]
    case ClearAll => []
  }

  lemma ApplyMultiIs(s: seq<V>, op: Op)
    ensures op.Insert? ==> ApplyMulti(s, op) == With(s, Scan(s, op.key, NotAbove), op.key)
    ensures op.InsertHint? ==> ApplyMulti(s, op) == With(s, HintPlace(s, if op.hint < |s| then op.hint else |s|, op.key), op.key)
    ensures op.EraseAt? ==> ApplyMulti(s, op) == if op.rank < |s| then Without(s, op.rank) else s
    ensures op.EraseSlice? ==> ApplyMulti(s, op) == if op.from <= op.upto <= |s| then s[..op.from] + s[op.upto..] else s
    ensures op.EraseKey? ==> ApplyMulti(s, op) == s[..Scan(s, op.key, Less)] + s[Scan(s, op.key, NotAbove)..]
    ensures op.ClearAll? ==> ApplyMulti(s, op) == []
  {
  }

  ghost function OutcomeMulti(ops: seq<Op>): (r: seq<V>) {
    if ops == [] then [] else ApplyMulti(OutcomeMulti(ops[..|ops| - 1]), ops[|ops| - 1])
  }

  lemma WithoutIsSorted(s: seq<V>, i: nat)
    requires Sorted(s) && i < |s|
    ensures Sorted(Without(s, i))
  {
  }

  lemma EmptySorted()
    ensures Sorted([])
  {
  }

  method PerformMulti(t: Btree, op: Op)
    requires t.Valid() && Sorted(t.Contents())
    modifies t, t.nodes - {t.sentinel}
    ensures t.Valid() && Sorted(t.Contents()) && fresh(t.nodes - old(t.nodes) - {t.sentinel})
    ensures t.Contents() == ApplyMulti(old(t.Contents()), op)
  {
    hide *;
    t.ValidSize();
    ghost var s := t.Contents();
    ApplyMultiIs(s, op);
    match op
    case Insert(key) =>
      var _ := t.InsertMulti(key);
    case InsertHint(hint, key) =>
      var it := t.At(if hint < t.size then hint else t.size);
      t.RankIs(it, if hint < |s| then hint else |s|);
      var _ := t.InsertHintMulti(it, key);
    case EraseAt(rank) =>
      if rank < t.size {
        var it := t.At(rank);
        t.ValidFacts();
        t.PointsInside(it, rank);
        t.RankIs(it, rank);
        var _ := t.Erase(it);
        WithoutIsSorted(s, rank);
      }
    case EraseSlice(from, upto) =>
      if from <= upto <= t.size {
        var first := t.At(from);
        var last := t.At(upto);
        t.RankIs(first, from);
        t.RankIs(last, upto);
        var _, _ := t.EraseRange(first, last);
        SliceSorted(s, from, upto);
      }
    case EraseKey(key) =>
      var n := t.EraseMulti(key);
    case ClearAll =>
      t.Clear();
      EmptySorted();
  }

  /** Every run from the empty tree leaves a well-formed tree that holds exactly what the same calls leave of a sorted sequence. */
  method RunMulti(ops: seq<Op>, empty: Node) returns (t: Btree)
    requires Btree.Pristine(empty)
    ensures t.Valid() && Sorted(t.Contents()) && t.Contents() == OutcomeMulti(ops)
  {
    hide Btree.Valid, Btree.Contents, ApplyMulti, Sorted;
    EmptySorted();
    t := new Btree(empty);
    ghost var tree := t;
    t.ValidSize();
    for i := 0 to |ops|
      invariant t == tree && t.sentinel == empty && fresh(t.nodes - {empty})
      invariant t.Valid() && Sound(t.nodes) && Tree(Snap(t.nodes), t.root)
      invariant Sorted(t.Contents()) && t.Contents() == OutcomeMulti(ops[..i])
    {
      assert ops[..i + 1][..i] == ops[..i];
      PerformMulti(t, ops[i]);
      t.ValidSize();
    }
    assert ops[..|ops|] == ops;
  }

  /** What it means for the nodes of a tree that it is well formed. */
  lemma WellFormed(t: Btree, n: Node)
    requires t.Valid() && t.size > 0 && n in t.nodes
    ensures 1 <= n.count <= n.Capacity() <= K && (n != t.root ==> n.Capacity() == K)
    ensures !n.IsLeaf() ==> forall i :: 0 <= i <= n.count ==>
              n.children[i] in t.nodes && n.children[i].parent == n && n.children[i].position == i
    ensures n.IsLeaf() ==> Depth(Snap(t.nodes), t.root, n) == t.root.level
    ensures t.root.parent in t.nodes && t.root.parent.IsLeaf() && Before(Snap(t.nodes), t.root, t.root.parent) == []
    ensures t.rightmost in t.nodes && t.rightmost.IsLeaf() && After(Snap(t.nodes), t.root, t.rightmost) == []
    ensures t.size == |t.Contents()|
  {
    t.ValidFacts();
    t.LinkedFacts({});
    t.PopulatedAt(n);
    NodeAt(t.nodes, n);
    NodeAt(t.nodes, t.root);
    EqualDepth(Snap(t.nodes), t.root, n);
    if !n.IsLeaf() {
      forall i | 0 <= i <= n.count
        ensures n.children[i] in t.nodes && n.children[i].parent == n && n.children[i].position == i
      {
        ChildAt(t.nodes, t.root, n, i);
        ChildLinks(t.nodes, t.root, n, i);
      }
    }
  }
}
