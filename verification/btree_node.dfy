/** Nodes of the B-tree: storage, and the operations on one node and its neighbours. */
module BtreeNodes {
  import opened BtreeValues
  import opened Buffers

  /** What one node holds, as a value. */
  datatype Rec = Rec(level: nat, vals: seq<V>, kids: seq<Node>, parent: Node, pos: nat)

  class Node {
    var parent: Node
    var position: nat
    var count: nat
    var maxCount: nat          // 0 marks an internal node
    var slots: seq<V>          // the value buffer; the first `count` entries are live
    var children: seq<Node>    // the child buffer of an internal node; the first `count + 1` entries are live
    ghost var level: nat       // height above the leaves

    predicate IsLeaf()
      reads this`maxCount
    {
      maxCount != 0
    }

    function Capacity(): nat
      reads this`maxCount
    {
      if maxCount == 0 then K else maxCount
    }

    /** The buffers have their fixed sizes and the counts fit them. */
    ghost predicate Ok()
      reads this
    {
      && maxCount <= K
      && (maxCount == 0 <==> level > 0)
      && |slots| == Capacity()
      && count <= Capacity()
      && (maxCount == 0 ==> |children| == K + 1)
    }

    ghost function Vals(): (r: seq<V>)
      requires Ok()
      reads this
    {
      slots[..count]
    }

    ghost function Kids(): (r: seq<Node>)
      requires Ok()
      reads this
    {
      if maxCount == 0 then children[..count + 1] else []
    }

    ghost function View(): (r: Rec)
      requires Ok()
      reads this
    {
      Rec(level, Vals(), Kids(), parent, position)
    }

    /** `c` hangs under this node; the level test rules out the root, whose parent link is the leftmost leaf. */
    ghost predicate Over(c: Node)
      reads this`level, c`parent, c`level
    {
      c.parent == this && c.level < level
    }

    /** The live children of this node are exactly the nodes that hang under it. */
    ghost predicate Owns(nodes: set<Node>)
      reads this`children, this`count, this`maxCount, this`level, nodes`parent, nodes`position, nodes`level
    {
      && (maxCount == 0 ==> count < |children| && forall k :: 0 <= k <= count ==>
            children[k] in nodes && children[k].parent == this && children[k].position == k && children[k].level + 1 == level)
      && (forall c :: c in nodes && Over(c) ==> maxCount == 0 && c.position <= count < |children| && children[c.position] == c)
    }

    constructor Leaf(parent: Node, max: nat)
      requires 0 < max <= K
      ensures Ok() && View() == Rec(0, [], [], parent, 0) && maxCount == max
    {
      var filler: V := *;
      this.parent, position, count, maxCount, level := parent, 0, 0, max, 0;
      slots := seq(max, _ => filler);
      children := [];
    }

    /** A leaf that is its own parent, as the root of a one-node tree is. */
    constructor LeafRoot(max: nat)
      requires 0 < max <= K
      ensures Ok() && View() == Rec(0, [], [], this, 0) && maxCount == max
    {
      var filler: V := *;
      parent, position, count, maxCount, level := this, 0, 0, max, 0;
      slots := seq(max, _ => filler);
      children := [];
    }

    /** The child buffer is left uninitialised in the source; here it starts with arbitrary nodes. */
    constructor Internal(parent: Node, ghost level: nat)
      requires level > 0
      ensures Ok() && maxCount == 0 && count == 0 && this.parent == parent && position == 0 && this.level == level
    {
      var filler: V := *;
      this.parent, position, count, maxCount, this.level := parent, 0, 0, 0, level;
      slots := seq(K, _ => filler);
      children := seq(K + 1, _ => parent);
    }

    method SetChild(i: nat, c: Node)
      requires i < |children|
      modifies this`children, c`position
      ensures children == old(children)[i := c] && c.position == i
    {
      children := children[i := c];
      c.position := i;
    }

    method InitChild(i: nat, c: Node)
      requires i < |children|
      modifies this`children, c`position, c`parent
      ensures children == old(children)[i := c] && c.position == i && c.parent == this
    {
      SetChild(i, c);
      c.parent := this;
    }

    // ----- moving values and children between buffers

    /** Moves `n` values starting at value `i` into the values of `x` starting at `j`, front to back. */
    method MoveSlots(n: nat, i: nat, x: Node, j: nat)
      requires i + n <= |slots| && j + n <= |x.slots|
      requires x != this || j <= i || i + n <= j
      modifies x`slots
      ensures Copied(x.slots, old(x.slots), j, old(slots), i, n)
    {
      ghost var was, dst := slots, x.slots;
      for t := 0 to n
        invariant x != this ==> slots == was
        invariant Copied(x.slots, dst, j, was, i, t)
      {
        x.slots := x.slots[j + t := slots[i + t]];
      }
    }

    /** Moves the `n` values starting at `i` up by `k`, back to front. */
    method ShiftSlots(i: nat, n: nat, k: nat)
      requires i + n + k <= |slots|
      modifies this`slots
      ensures Copied(slots, old(slots), i + k, old(slots), i, n)
    {
      ghost var was := slots;
      var t: nat := n;
      while t > 0
        invariant t <= n
        invariant Copied(slots, was, i + k + t, was, i + t, n - t)
      {
        t := t - 1;
        slots := slots[i + k + t := slots[i + t]];
      }
    }

    /** Adopts `n` children of `src`, starting at `i`, as its own from index `j` on, front to back. */
    method TakeChildren(n: nat, src: Node, i: nat, j: nat, ghost nodes: set<Node>)
      requires i + n <= |src.children| && j + n <= |children|
      requires src != this || j <= i
      requires forall k :: i <= k < i + n ==> src.children[k] in nodes && src.Over(src.children[k]) && src.children[k].position == k
      requires forall c :: c in nodes && src.Over(c) && i <= c.position < i + n ==> src.children[c.position] == c
      modifies this`children, nodes`parent, nodes`position
      ensures Copied(children, old(children), j, old(src.children), i, n)
      ensures forall c :: c in nodes ==>
                if old(src.Over(c) && i <= c.position < i + n)
                then c.parent == this && c.position == old(c.position) + j - i
                else c.parent == old(c.parent) && c.position == old(c.position)
    {
      ghost var was, dst := src.children, children;
      for t := 0 to n
        invariant src != this ==> src.children == was
        invariant Copied(children, dst, j, was, i, t)
        invariant forall c :: c in nodes ==>
                    if old(src.Over(c) && i <= c.position < i + t)
                    then c.parent == this && c.position == old(c.position) + j - i
                    else c.parent == old(c.parent) && c.position == old(c.position)
      {
        InitChild(j + t, src.children[i + t]);
      }
    }

    /** Moves the first `n` children up by `k`, back to front. */
    method ShiftChildren(n: nat, k: nat, ghost nodes: set<Node>)
      requires n + k <= |children|
      requires forall t :: 0 <= t < n ==> children[t] in nodes && Over(children[t]) && children[t].position == t
      requires forall c :: c in nodes && Over(c) && c.position < n ==> children[c.position] == c
      modifies this`children, nodes`parent, nodes`position
      ensures Copied(children, old(children), k, old(children), 0, n)
      ensures forall c :: c in nodes ==>
                && c.parent == old(c.parent)
                && c.position == old(if Over(c) && c.position < n then c.position + k else c.position)
    {
      ghost var was := children;
      var t: nat := n;
      while t > 0
        invariant t <= n
        invariant Copied(children, was, k + t, was, t, n - t)
        invariant forall c :: c in nodes ==>
                    && c.parent == old(c.parent)
                    && c.position == old(if Over(c) && t <= c.position < n then c.position + k else c.position)
      {
        t := t - 1;
        InitChild(k + t, children[t]);
      }
    }

    // ----- one node

    /** Puts `v` at position `i`, shifting the values and children behind it to the right by one. */
    method EmplaceValue(i: nat, v: V, ghost nodes: set<Node>)
      requires Ok() && i <= count < Capacity() && Owns(nodes)
      modifies this`slots, this`count, this`children, nodes`position
      ensures Ok() && count == old(count) + 1 && Vals() == With(old(Vals()), i, v)
      ensures IsLeaf() ==> children == old(children)
      ensures !IsLeaf() ==> Copied(children, old(children), i + 2, old(children), i + 1, old(count) - i)
      ensures forall c :: c in nodes ==> c.position == old(if Over(c) && c.position > i then c.position + 1 else c.position)
    {
      EmplaceSlot(i, v);
      if !IsLeaf() && count > i + 1 {
        EmplaceRoom(i, nodes);
      }
    }

    method EmplaceSlot(i: nat, v: V)
      requires Ok() && i <= count < Capacity()
      modifies this`slots, this`count
      ensures Ok() && count == old(count) + 1 && Vals() == With(old(Vals()), i, v)
    {
      ghost var was := slots;
      if i < count {
        slots := slots[count := slots[count - 1]];
        var j := count - 1;
        while j > i
          invariant i <= j < count == old(count)
          invariant Copied(slots, was, j + 1, was, j, count - j)
        {
          slots := slots[j := slots[j - 1]];
          j := j - 1;
        }
      }
      slots := slots[i := v];
      WithAt(slots, was, count, i, v);
      count := count + 1;
    }

    method EmplaceRoom(i: nat, ghost nodes: set<Node>)
      requires Ok() && !IsLeaf() && i + 1 < count
      requires forall k :: 0 <= k < count ==> children[k] in nodes && Over(children[k]) && children[k].position == k
      requires forall c :: c in nodes && Over(c) ==> c.position < count && children[c.position] == c
      modifies this`children, nodes`position
      ensures Copied(children, old(children), i + 2, old(children), i + 1, count - i - 1)
      ensures forall c :: c in nodes ==> c.position == old(if Over(c) && c.position > i then c.position + 1 else c.position)
    {
      ghost var was := children;
      var j := count;
      while j > i + 1
        invariant i + 1 <= j <= count
        invariant Copied(children, was, j + 1, was, j, count - j)
        invariant forall c :: c in nodes ==> c.position == old(if Over(c) && c.position >= j then c.position + 1 else c.position)
      {
        SetChild(j, children[j - 1]);
        j := j - 1;
      }
    }

    /** Removes the `n` values starting at `i`; does not change children at all. */
    method RemoveValuesIgnoreChildren(i: nat, n: nat)
      requires Ok() && i + n <= count
      modifies this`slots, this`count
      ensures Ok() && count == old(count) - n
      ensures Vals() == old(Vals()[..i] + Vals()[i + n..])
    {
      MoveSlots(count - (i + n), i + n, this, i);
      RemovedByIndex(slots, old(slots), count, i, n);
      count := count - n;
    }

    /** Removes the value at position `i` and the child behind it. */
    method RemoveValue(i: nat, ghost nodes: set<Node>)
      requires Ok() && i < count && Owns(nodes)
      modifies this`slots, this`count, this`children, nodes`position
      ensures Ok() && count == old(count) - 1 && Vals() == Without(old(Vals()), i)
      ensures IsLeaf() ==> children == old(children)
      ensures !IsLeaf() ==> Copied(children, old(children), i + 1, old(children), i + 2, count - i)
      ensures forall c :: c in nodes ==> c.position == old(if Over(c) && c.position > i + 1 then c.position - 1 else c.position)
    {
      if !IsLeaf() && count > i + 1 {
        CloseGap(i, nodes);
      }
      RemoveValuesIgnoreChildren(i, 1);
    }

    method CloseGap(i: nat, ghost nodes: set<Node>)
      requires Ok() && !IsLeaf() && i + 1 < count && Owns(nodes)
      modifies this`children, nodes`position
      ensures Copied(children, old(children), i + 1, old(children), i + 2, count - i - 1)
      ensures forall c :: c in nodes ==> c.position == old(if Over(c) && c.position > i + 1 then c.position - 1 else c.position)
    {
      ghost var was := children;
      var j := i + 1;
      while j < count
        invariant i + 1 <= j <= count
        invariant Copied(children, was, i + 1, was, i + 2, j - i - 1)
        invariant forall c :: c in nodes ==> c.position == old(if Over(c) && i + 1 < c.position <= j then c.position - 1 else c.position)
      {
        SetChild(j, children[j + 1]);
        j := j + 1;
      }
    }

    /** Moves the children behind child `e` down to the places behind child `b`, and removes the values `b..e`. */
    method DropRun(b: nat, e: nat, ghost nodes: set<Node>)
      requires Ok() && !IsLeaf() && b < e < count && Owns(nodes)
      modifies this`slots, this`count, this`children, nodes`position
      ensures Ok() && count == old(count) - (e - b) && Vals() == old(Vals()[..b] + Vals()[e..])
      ensures Copied(children, old(children), b + 1, old(children), e + 1, old(count) - e)
      ensures forall c :: c in nodes ==> c.position == old(if Over(c) && c.position > e then c.position - (e - b) else c.position)
    {
      ghost var was := children;
      for i := e + 1 to count + 1
        invariant Copied(children, was, b + 1, was, e + 1, i - e - 1)
        invariant forall c :: c in nodes ==> c.position == old(if Over(c) && e < c.position < i then c.position - (e - b) else c.position)
        modifies this`children, nodes`position
      {
        SetChild(i - (e - b), children[i]);
      }
      RemoveValuesIgnoreChildren(b, e - b);
    }

    // ----- a node and its right sibling

    /** `right` is the next sibling of this node. */
    ghost predicate Beside(right: Node)
      reads this, right, parent
    {
      && Ok() && right.Ok() && parent.Ok()
      && parent == right.parent && position + 1 == right.position && position < parent.count
      && this != right && parent != this && parent != right
      && level == right.level && parent.level == level + 1 && Capacity() == right.Capacity() == K
    }

    ghost function Delimiter(): (v: V)
      requires parent.Ok() && position < parent.count
      reads this, parent
    {
      parent.slots[position]
    }

    /** Moves `toMove` values from the right sibling to this node, through the parent. */
    method RebalanceRightToLeft(toMove: nat, right: Node, ghost nodes: set<Node>)
      requires Beside(right) && 1 <= toMove <= right.count && count + toMove <= K
      requires Owns(nodes) && right.Owns(nodes) && this in nodes && right in nodes && parent in nodes
      modifies this`slots, this`count, this`children, right`slots, right`count, right`children, parent`slots
      modifies nodes`parent, nodes`position
      ensures count == old(count) + toMove && right.count == old(right.count) - toMove && |slots| == |right.slots| == K
      ensures slots[..count] == old(Vals() + [Delimiter()] + right.Vals()[..toMove - 1])
      ensures right.slots[..right.count] == old(right.Vals()[toMove..])
      ensures old(parent).slots == old(parent.slots)[old(position) := old(right.slots[toMove - 1])]
      ensures maxCount != 0 ==> children == old(children) && right.children == old(right.children)
      ensures maxCount == 0 ==> Copied(children, old(children), old(count) + 1, old(right.children), 0, toMove)
      ensures maxCount == 0 ==> Copied(right.children, old(right.children), 0, old(right.children), toMove, right.count + 1)
      ensures forall c :: c in nodes ==> c.parent == old(if right.Over(c) && c.position < toMove then this else c.parent)
      ensures forall c :: c in nodes ==> c.position == old(if !right.Over(c) then c.position else
                                                           if c.position < toMove then count + 1 + c.position else c.position - toMove)
    {
      hide Copied, Owns;
      ValuesToLeft(toMove, right);
      ChildrenToLeft(toMove, right, nodes);
      count := count + toMove;
      right.count := right.count - toMove;
    }

    method ValuesToLeft(toMove: nat, right: Node)
      requires Beside(right) && 1 <= toMove <= right.count && count + toMove <= K
      modifies this`slots, right`slots, parent`slots
      ensures |slots| == K && |right.slots| == K
      ensures slots[..count + toMove] == old(Vals() + [Delimiter()] + right.Vals()[..toMove - 1])
      ensures right.slots[..right.count - toMove] == old(right.Vals()[toMove..])
      ensures parent.slots == old(parent.slots)[position := old(right.slots[toMove - 1])]
    {
      ghost var l, r, d := slots, right.slots, parent.slots[position];
      slots := slots[count := parent.slots[position]];
      right.MoveSlots(toMove - 1, 0, this, count + 1);
      PrefixByIndex(slots, l, count, d, r, right.count, toMove);
      parent.slots := parent.slots[position := right.slots[toMove - 1]];
      right.MoveSlots(right.count - toMove, toMove, right, 0);
      SuffixByIndex(right.slots, r, right.count, toMove);
    }

    /** The first `toMove` children of `right` come over; the others stay where they are. */
    method TakeFirstChildren(toMove: nat, right: Node, ghost nodes: set<Node>)
      requires this != right && level == right.level && right.maxCount == 0 && |children| == |right.children| == K + 1
      requires toMove <= right.count && count + toMove <= K && right.Owns(nodes)
      modifies this`children, nodes`parent, nodes`position
      ensures Copied(children, old(children), count + 1, right.children, 0, toMove)
      ensures forall k :: toMove <= k <= right.count ==>
                right.children[k] in nodes && right.Over(right.children[k]) && right.children[k].position == k
      ensures forall c :: c in nodes && right.Over(c) ==> toMove <= c.position <= right.count && right.children[c.position] == c
      ensures forall c :: c in nodes ==>
                if old(right.Over(c) && c.position < toMove)
                then c.parent == this && c.position == old(c.position) + count + 1
                else c.parent == old(c.parent) && c.position == old(c.position)
    {
      hide Copied;
      TakeChildren(toMove, right, 0, count + 1, nodes);
    }

    method ChildrenToLeft(toMove: nat, right: Node, ghost nodes: set<Node>)
      requires this != right && level == right.level && (maxCount == 0 <==> right.maxCount == 0)
      requires maxCount == 0 ==> |children| == |right.children| == K + 1
      requires 1 <= toMove <= right.count && count + toMove <= K && right.Owns(nodes)
      modifies this`children, right`children, nodes`parent, nodes`position
      ensures maxCount != 0 ==> children == old(children) && right.children == old(right.children)
      ensures maxCount == 0 ==> Copied(children, old(children), count + 1, old(right.children), 0, toMove)
      ensures maxCount == 0 ==> Copied(right.children, old(right.children), 0, old(right.children), toMove, right.count - toMove + 1)
      ensures forall c :: c in nodes ==> c.parent == old(if right.Over(c) && c.position < toMove then this else c.parent)
      ensures forall c :: c in nodes ==> c.position == old(if !right.Over(c) then c.position else
                                                           if c.position < toMove then count + 1 + c.position else c.position - toMove)
    {
      hide Copied;
      if !IsLeaf() {
        TakeFirstChildren(toMove, right, nodes);
        right.TakeChildren(right.count - toMove + 1, right, toMove, 0, nodes);
      }
    }

    /** Moves `toMove` values from this node to the right sibling, through the parent. */
    method RebalanceLeftToRight(toMove: nat, right: Node, ghost nodes: set<Node>)
      requires Beside(right) && 1 <= toMove <= count && right.count + toMove <= K
      requires Owns(nodes) && right.Owns(nodes) && this in nodes && right in nodes && parent in nodes
      modifies this`count, right`slots, right`count, right`children, parent`slots
      modifies nodes`parent, nodes`position
      ensures count == old(count) - toMove && right.count == old(right.count) + toMove && |right.slots| == K
      ensures right.slots[..right.count] == old(Vals()[count - toMove + 1..] + [Delimiter()] + right.Vals())
      ensures old(parent).slots == old(parent.slots)[old(position) := old(slots[count - toMove])]
      ensures maxCount != 0 ==> right.children == old(right.children)
      ensures maxCount == 0 ==> Prepended(right.children, old(right.children), old(right.count) + 1, children, count + 1, toMove)
      ensures forall c :: c in nodes ==> c.parent == old(if Over(c) && c.position > count - toMove then right else c.parent)
      ensures forall c :: c in nodes ==> c.position == old(if right.Over(c) then c.position + toMove else
                                                           if Over(c) && c.position > count - toMove then c.position - (count - toMove) - 1
                                                           else c.position)
    {
      hide Prepended, Owns;
      ValuesToRight(toMove, right);
      ChildrenToRight(toMove, right, nodes);
      count := count - toMove;
      right.count := right.count + toMove;
    }

    method ValuesToRight(toMove: nat, right: Node)
      requires Beside(right) && 1 <= toMove <= count && right.count + toMove <= K
      modifies right`slots, parent`slots
      ensures |right.slots| == K
      ensures right.slots[..right.count + toMove] == old(Vals()[count - toMove + 1..] + [Delimiter()] + right.Vals())
      ensures parent.slots == old(parent.slots)[position := slots[count - toMove]]
    {
      FillSlots(toMove, right);
      parent.slots := parent.slots[position := slots[count - toMove]];
    }

    method FillSlots(toMove: nat, right: Node)
      requires Beside(right) && 1 <= toMove <= count && right.count + toMove <= K
      modifies right`slots
      ensures |right.slots| == K
      ensures right.slots[..right.count + toMove] == old(slots[..count][count - toMove + 1..] + [parent.slots[position]] + right.slots[..right.count])
    {
      hide Filled;
      ghost var r := right.slots;
      if right.count >= toMove {
        FillInitialized(toMove, right);
      } else {
        FillUninitialized(toMove, right);
      }
      FilledByIndex(right.slots, slots, count, toMove, parent.slots[position], r, right.count);
    }

    /** The places of the old values of `right` suffice for all the moved ones. */
    method FillInitialized(toMove: nat, right: Node)
      requires Beside(right) && 1 <= toMove <= count && right.count + toMove <= K && toMove <= right.count
      modifies right`slots
      ensures Filled(right.slots, slots, count, toMove, Delimiter(), old(right.slots), right.count)
    {
      ghost var r := right.slots;
      right.MoveSlots(toMove, right.count - toMove, right, right.count);
      ghost var s1 := right.slots;
      right.ShiftSlots(0, right.count - toMove, toMove);
      ghost var s2 := right.slots;
      right.slots := right.slots[toMove - 1 := parent.slots[position]];
      MoveSlots(toMove - 1, count - (toMove - 1), right, 0);
      FilledInitialized(r, right.count, s1, s2, right.slots, slots, count, toMove, Delimiter());
    }

    /** Part of the moved values go to storage that `right` has not used before. */
    method FillUninitialized(toMove: nat, right: Node)
      requires Beside(right) && 1 <= toMove <= count && right.count + toMove <= K && right.count < toMove
      modifies right`slots
      ensures Filled(right.slots, slots, count, toMove, Delimiter(), old(right.slots), right.count)
    {
      ghost var r := right.slots;
      right.MoveSlots(right.count, 0, right, toMove);
      ghost var s1 := right.slots;
      right.slots := right.slots[toMove - 1 := parent.slots[position]];
      var remaining := toMove - right.count - 1;
      MoveSlots(remaining, count - remaining, right, right.count);
      ghost var s2 := right.slots;
      MoveSlots(right.count, count - (toMove - 1), right, 0);
      FilledUninitialized(r, right.count, s1, s2, right.slots, slots, count, toMove, Delimiter());
    }

    /** The children of `right` move up by `toMove`; those of this node stay where they are. */
    method MakeRoom(toMove: nat, right: Node, ghost nodes: set<Node>)
      requires this != right && level == right.level && right.maxCount == 0 && |right.children| == K + 1
      requires toMove <= count && right.count + toMove <= K && Owns(nodes) && right.Owns(nodes)
      modifies right`children, nodes`parent, nodes`position
      ensures Copied(right.children, old(right.children), toMove, old(right.children), 0, right.count + 1)
      ensures Owns(nodes) && |right.children| == K + 1
      ensures forall c :: c in nodes ==> c.parent == old(c.parent) && c.position == if old(right.Over(c)) then old(c.position) + toMove else old(c.position)
    {
      right.ShiftChildren(right.count + 1, toMove, nodes);
    }

    method ChildrenToRight(toMove: nat, right: Node, ghost nodes: set<Node>)
      requires this != right && level == right.level && (maxCount == 0 <==> right.maxCount == 0)
      requires maxCount == 0 ==> |children| == |right.children| == K + 1
      requires 1 <= toMove <= count && right.count + toMove <= K && Owns(nodes) && right.Owns(nodes)
      modifies right`children, nodes`parent, nodes`position
      ensures maxCount != 0 ==> right.children == old(right.children)
      ensures maxCount == 0 ==> Prepended(right.children, old(right.children), right.count + 1, children, count - toMove + 1, toMove)
      ensures forall c :: c in nodes ==> c.parent == old(if Over(c) && c.position > count - toMove then right else c.parent)
      ensures forall c :: c in nodes ==> c.position == old(if right.Over(c) then c.position + toMove else
                                                           if Over(c) && c.position > count - toMove then c.position - (count - toMove) - 1
                                                           else c.position)
    {
      hide Copied, Prepended;
      if !IsLeaf() {
        ghost var was := right.children;
        MakeRoom(toMove, right, nodes);
        ghost var shifted := right.children;
        right.TakeChildren(toMove, this, count - toMove + 1, 0, nodes);
        PrependedByIndex(right.children, shifted, was, right.count + 1, children, count - toMove + 1, toMove);
      }
    }

    // ----- splitting and merging

    /** The effect of moving everything behind value `count` to `dest`, and that value to the parent. */
    twostate predicate DidSplit(new dest: Node, new nodes: set<Node>, new parent: Node)
      reads this, dest, nodes, parent
    {
      && old(allocated(nodes)) && old(allocated(parent)) && old(parent.Ok())
      && |slots| == K && count < K && old(position) <= old(parent.count) && old(parent.maxCount) == 0
      && dest.count == K - count - 1 && |dest.slots| == K && dest.slots[..dest.count] == slots[count + 1..]
      && parent.count == old(parent.count) + 1 <= K && |parent.slots| == K && |parent.children| == K + 1
      && parent.slots[..parent.count] == With(old(parent.Vals()), old(position), slots[count])
      && parent.children[..parent.count + 1] == With(old(parent.Kids()), old(position) + 1, dest)
      && (maxCount == 0 ==> |dest.children| == |children| == K + 1 &&
                            forall k {:trigger dest.children[k]} :: 0 <= k <= dest.count ==> dest.children[k] == children[k + count + 1])
      && dest.parent == parent && dest.position == old(position) + 1
      && slots == old(slots) && children == old(children)
      && (forall n :: n in nodes ==> n.level == old(n.level) && n.maxCount == old(n.maxCount))
      && (forall n :: n in nodes && n != this && n != parent ==> n.count == old(n.count) && n.children == old(n.children) && n.slots == old(n.slots))
      && (forall c :: c in nodes ==> c.parent == if old(Over(c)) && old(c.position) > count then dest else old(c.parent))
      && (forall c :: c in nodes ==> c.position == if old(Over(c)) && old(c.position) > count then old(c.position) - count - 1 else
                                                   if old(parent.Over(c)) && old(c.position) > old(position) then old(c.position) + 1 else old(c.position))
    }

    /** Moves the values behind a split point to the empty node `dest`, which becomes the next sibling. */
    method Split(insertPosition: nat, dest: Node, ghost nodes: set<Node>)
      requires Ok() && dest.Ok() && parent.Ok() && dest != this && dest != parent && parent != this && dest !in nodes
      requires count == Capacity() == dest.Capacity() == K && dest.count == 0 && dest.level == level
      requires position <= parent.count < K && parent.level == level + 1 && parent.Capacity() == K
      requires Owns(nodes) && parent.Owns(nodes) && this in nodes && parent in nodes && insertPosition <= K
      modifies this`count, dest`slots, dest`count, dest`children, dest`parent, dest`position
      modifies parent`slots, parent`count, parent`children, nodes`parent, nodes`position
      ensures count == (if insertPosition == 0 then 0 else if insertPosition == K then K - 1 else K - K / 2 - 1)
      ensures DidSplit(dest, nodes, old(parent))
    {
      SplitValues(insertPosition, dest);
      SplitLinks(dest, nodes);
    }

    method SplitLinks(dest: Node, ghost nodes: set<Node>)
      requires parent.Ok() && parent != this && parent != dest && dest != this && dest !in nodes
      requires |slots| == K && count < K && dest.count == K - count - 1 && (maxCount == 0 ==> |children| == |dest.children| == K + 1)
      requires position <= parent.count < K && parent.level == level + 1 && parent.Capacity() == K
      requires parent.Owns(nodes) && this in nodes && parent in nodes
      requires maxCount == 0 ==> forall k :: 0 <= k <= K ==> children[k] in nodes && Over(children[k]) && children[k].position == k
      requires forall c :: c in nodes && Over(c) ==> maxCount == 0 && c.position <= K && children[c.position] == c
      modifies dest`children, dest`parent, dest`position, parent`slots, parent`count, parent`children, nodes`parent, nodes`position
      ensures dest.parent == old(parent) && dest.position == old(position) + 1
      ensures old(parent).count == old(parent.count) + 1 && |old(parent).slots| == K && |old(parent).children| == K + 1
      ensures old(parent).slots[..old(parent).count] == With(old(parent.Vals()), old(position), slots[count])
      ensures old(parent).children[..old(parent).count + 1] == With(old(parent.Kids()), old(position) + 1, dest)
      ensures maxCount == 0 ==> |dest.children| == K + 1 &&
                                forall k {:trigger dest.children[k]} :: 0 <= k <= dest.count ==> dest.children[k] == children[k + count + 1]
      ensures forall c :: c in nodes ==> c.parent == old(if Over(c) && c.position > count then dest else c.parent)
      ensures forall c :: c in nodes ==> c.position == old(if Over(c) && c.position > count then c.position - count - 1 else
                                                           if parent.Over(c) && c.position > position then c.position + 1 else c.position)
    {
      SplitParent(dest, nodes);
      SplitChildren(dest, nodes);
    }

    method SplitChildren(dest: Node, ghost nodes: set<Node>)
      requires dest != this && count < K && dest.count == K - count - 1 && (maxCount == 0 ==> |children| == |dest.children| == K + 1)
      requires maxCount == 0 ==> forall k :: 0 <= k <= K ==> children[k] in nodes && Over(children[k]) && children[k].position == k
      requires forall c :: c in nodes && Over(c) ==> maxCount == 0 && c.position <= K && children[c.position] == c
      modifies dest`children, nodes`parent, nodes`position
      ensures maxCount == 0 ==> |dest.children| == K + 1 &&
                                forall k {:trigger dest.children[k]} :: 0 <= k <= dest.count ==> dest.children[k] == children[k + count + 1]
      ensures forall c :: c in nodes ==> c.parent == old(if Over(c) && c.position > count then dest else c.parent)
      ensures forall c :: c in nodes ==> c.position == old(if Over(c) && c.position > count then c.position - count - 1 else c.position)
    {
      if !IsLeaf() {
        dest.TakeChildren(dest.count + 1, this, count + 1, 0, nodes);
      }
    }

    method SplitValues(insertPosition: nat, dest: Node)
      requires Ok() && dest.Ok() && dest != this
      requires count == Capacity() == dest.Capacity() == K && dest.count == 0 && insertPosition <= K
      modifies this`count, dest`slots, dest`count
      ensures count == (if insertPosition == 0 then 0 else if insertPosition == K then K - 1 else K - K / 2 - 1)
      ensures dest.count == K - count - 1 && |dest.slots| == K && dest.slots[..dest.count] == slots[count + 1..]
    {
      if insertPosition == 0 {
        dest.count := count - 1;
      } else if insertPosition == K {
        dest.count := 0;
      } else {
        dest.count := count / 2;
      }
      count := count - dest.count;
      MoveSlots(dest.count, count, dest, 0);
      count := count - 1;
    }

    /** The split value goes up, and `dest` takes the place behind this node. */
    method SplitParent(dest: Node, ghost nodes: set<Node>)
      requires parent.Ok() && parent != this && parent != dest && dest != this && dest !in nodes
      requires count < |slots| && position <= parent.count < K && parent.level == level + 1 && parent.Capacity() == K
      requires parent.Owns(nodes) && this in nodes
      modifies dest`parent, dest`position, parent`slots, parent`count, parent`children, nodes`position
      ensures dest.parent == parent && dest.position == old(position) + 1
      ensures parent.count == old(parent.count) + 1 && |parent.slots| == K && |parent.children| == K + 1
      ensures parent.slots[..parent.count] == With(old(parent.Vals()), old(position), slots[count])
      ensures parent.children[..parent.count + 1] == With(old(parent.Kids()), old(position) + 1, dest)
      ensures forall c :: c in nodes ==> c.position == old(if parent.Over(c) && c.position > position then c.position + 1 else c.position)
    {
      ghost var was := parent.children;
      parent.EmplaceValue(position, slots[count], nodes);
      parent.InitChild(position + 1, dest);
      WithAt(parent.children, was, parent.count, position + 1, dest);
    }

    /** Takes over the delimiter and everything of the next sibling `src`, which is left empty. */
    method Merge(src: Node, ghost nodes: set<Node>)
      requires Beside(src) && count + 1 + src.count <= K && parent.level == level + 1
      requires Owns(nodes) && src.Owns(nodes) && parent.Owns(nodes) && this in nodes && src in nodes && parent in nodes
      modifies this`slots, this`count, this`children, src`count
      modifies parent`slots, parent`count, parent`children, nodes`parent, nodes`position
      ensures count == old(count) + 1 + old(src.count) && |slots| == K && src.count == 0
      ensures slots[..count] == old(Vals() + [Delimiter()] + src.Vals())
      ensures maxCount == 0 ==> Copied(children, old(children), old(count) + 1, src.children, 0, old(src.count) + 1)
      ensures old(parent).count == old(parent.count) - 1 && |old(parent).slots| == K
      ensures old(parent).slots[..old(parent).count] == Without(old(parent.Vals()), old(position))
      ensures Copied(old(parent).children, old(parent.children), old(position) + 1, old(parent.children), old(position) + 2, old(parent).count - old(position))
      ensures forall c :: c in nodes ==> c.parent == old(if src.Over(c) then this else c.parent)
      ensures forall c :: c in nodes ==> c.position == old(if src.Over(c) then count + 1 + c.position else
                                                           if parent.Over(c) && c.position > position + 1 then c.position - 1 else c.position)
    {
      MergeInto(src, nodes);
      parent.RemoveValue(position, nodes);
    }

    method MergeInto(src: Node, ghost nodes: set<Node>)
      requires Beside(src) && count + 1 + src.count <= K && parent.level == level + 1
      requires Owns(nodes) && src.Owns(nodes)
      modifies this`slots, this`count, this`children, src`count, nodes`parent, nodes`position
      ensures count == old(count) + 1 + old(src.count) && |slots| == K && src.count == 0
      ensures slots[..count] == old(Vals() + [Delimiter()] + src.Vals())
      ensures maxCount == 0 ==> Copied(children, old(children), old(count) + 1, src.children, 0, old(src.count) + 1)
      ensures forall c :: c in nodes ==> c.parent == old(if src.Over(c) then this else c.parent)
      ensures forall c :: c in nodes ==> c.position == old(if src.Over(c) then count + 1 + c.position else c.position)
    {
      MergeValues(src);
      if !IsLeaf() {
        TakeChildren(src.count + 1, src, 0, count + 1, nodes);
      }
      count := 1 + count + src.count;
      src.count := 0;
    }

    method MergeValues(src: Node)
      requires Beside(src) && count + 1 + src.count <= K
      modifies this`slots
      ensures |slots| == K && slots[..count + 1 + src.count] == old(Vals() + [Delimiter()] + src.Vals())
    {
      ghost var l, d := slots, parent.slots[position];
      slots := slots[count := parent.slots[position]];
      src.MoveSlots(src.count, 0, this, count + 1);
      MergedByIndex(slots, l, count, d, src.slots, src.count);
    }

    /** Exchanges the values of this leaf with those of a longer one; the values that have no partner move over. */
    method SwapSlots(larger: Node)
      requires this != larger && count <= larger.count && larger.count <= |slots| && larger.count <= |larger.slots|
      modifies this`slots, larger`slots
      ensures |slots| == old(|slots|) && |larger.slots| == old(|larger.slots|)
      ensures slots[..larger.count] == old(larger.slots[..larger.count]) && larger.slots[..count] == old(slots[..count])
    {
      ghost var s, l := slots, larger.slots;
      for i := 0 to count
        invariant |slots| == |s| && |larger.slots| == |l|
        invariant forall k :: 0 <= k < |s| ==> slots[k] == if k < i then l[k] else s[k]
        invariant forall k :: 0 <= k < |l| ==> larger.slots[k] == if k < i then s[k] else l[k]
        modifies this`slots, larger`slots
      {
        var v := slots[i];
        slots := slots[i := larger.slots[i]];
        larger.slots := larger.slots[i := v];
      }
      larger.MoveSlots(larger.count - count, count, this, count);
      SameFront(slots, l, larger.count);
      SameFront(larger.slots, s, count);
    }

    /** Exchanges the values of two leaves, the shorter of which has storage for the values of the longer. */
    method SwapLeaves(x: Node)
      requires Ok() && x.Ok() && IsLeaf() && x.IsLeaf() && this != x && x.count <= Capacity() && count <= x.Capacity()
      modifies this`slots, this`count, x`slots, x`count
      ensures Ok() && x.Ok() && Vals() == old(x.Vals()) && x.Vals() == old(Vals())
    {
      if count > x.count {
        x.SwapSlots(this);
      } else {
        SwapSlots(x);
      }
      count, x.count := x.count, count;
    }

    /** The first `n` children, which hang under `x`, come over, and those of `x`, which hang under this node, go there. */
    method ExchangeParents(n: nat, x: Node, ghost nodes: set<Node>)
      requires this != x && level == x.level && n <= |children| && n <= |x.children|
      requires forall k :: 0 <= k < n ==> children[k] in nodes && x.Over(children[k]) && children[k].position == k
      requires forall k :: 0 <= k < n ==> x.children[k] in nodes && Over(x.children[k]) && x.children[k].position == k
      requires forall c :: c in nodes && Over(c) && c.position < n ==> x.children[c.position] == c
      requires forall c :: c in nodes && x.Over(c) && c.position < n ==> children[c.position] == c
      modifies nodes`parent
      ensures forall c :: c in nodes ==>
                c.parent == old(if Over(c) && c.position < n then x else if x.Over(c) && c.position < n then this else c.parent)
    {
      for i := 0 to n
        invariant forall c :: c in nodes ==>
                    c.parent == old(if Over(c) && c.position < i then x else if x.Over(c) && c.position < i then this else c.parent)
      {
        children[i].parent := this;
        x.children[i].parent := x;
      }
    }

    /** Exchanges the children of this node with those of a node that has at least as many. */
    method SwapChildren(larger: Node, ghost nodes: set<Node>)
      requires this != larger && count <= larger.count <= K && |children| == |larger.children| == K + 1 && maxCount == larger.maxCount == 0
      requires Owns(nodes) && larger.Owns(nodes) && level == larger.level
      modifies this`children, larger`children, nodes`parent, nodes`position
      ensures |children| == |larger.children| == K + 1
      ensures children[..larger.count + 1] == old(larger.children[..larger.count + 1]) && larger.children[..count + 1] == old(children[..count + 1])
      ensures forall c :: c in nodes ==> c.position == old(c.position)
      ensures forall c :: c in nodes ==> c.parent == old(if Over(c) then larger else if larger.Over(c) then this else c.parent)
    {
      ghost var mine, theirs := children, larger.children;
      SwapFirst(larger, nodes);
      ghost var swapped := children;
      TakeChildren(larger.count - count, larger, count + 1, count + 1, nodes);
      TakenReads(children, swapped, theirs, mine, count + 1, larger.count + 1);
    }

    /** The children that have a partner are exchanged; those behind them stay for now. */
    method SwapFirst(larger: Node, ghost nodes: set<Node>)
      requires this != larger && count <= larger.count <= K && |children| == |larger.children| == K + 1 && maxCount == larger.maxCount == 0
      requires Owns(nodes) && larger.Owns(nodes) && level == larger.level
      modifies this`children, larger`children, nodes`parent
      ensures children == old(larger.children[..count + 1] + children[count + 1..])
      ensures larger.children == old(children[..count + 1] + larger.children[count + 1..])
      ensures forall k :: count < k <= larger.count ==>
                larger.children[k] in nodes && larger.Over(larger.children[k]) && larger.children[k].position == k
      ensures forall c :: c in nodes && larger.Over(c) && count < c.position <= larger.count ==> larger.children[c.position] == c
      ensures forall c :: c in nodes ==>
                c.parent == old(if Over(c) then larger else if larger.Over(c) && c.position <= count then this else c.parent)
    {
      OwnedBy(nodes);
      larger.OwnedBy(nodes);
      hide Owns;
      SwapRanges(larger);
      AdoptSwapped(larger, nodes);
    }

    /** The children that have changed places get their new parents. */
    method AdoptSwapped(larger: Node, ghost nodes: set<Node>)
      requires this != larger && level == larger.level && count <= larger.count && count < |children| && larger.count < |larger.children|
      requires forall k :: 0 <= k <= count ==> children[k] in nodes && larger.Over(children[k]) && children[k].position == k
      requires forall k :: 0 <= k <= count ==> larger.children[k] in nodes && Over(larger.children[k]) && larger.children[k].position == k
      requires forall k :: count < k <= larger.count ==>
                 larger.children[k] in nodes && larger.Over(larger.children[k]) && larger.children[k].position == k
      requires forall c :: c in nodes && Over(c) ==> c.position <= count && larger.children[c.position] == c
      requires forall c :: c in nodes && larger.Over(c) && c.position <= count ==> children[c.position] == c
      requires forall c :: c in nodes && larger.Over(c) && count < c.position ==> c.position <= larger.count && larger.children[c.position] == c
      modifies nodes`parent
      ensures forall k :: count < k <= larger.count ==>
                larger.children[k] in nodes && larger.Over(larger.children[k]) && larger.children[k].position == k
      ensures forall c :: c in nodes && larger.Over(c) && count < c.position <= larger.count ==> larger.children[c.position] == c
      ensures forall c :: c in nodes ==>
                c.parent == old(if Over(c) then larger else if larger.Over(c) && c.position <= count then this else c.parent)
    {
      ExchangeParents(count + 1, larger, nodes);
    }

    lemma OwnedBy(nodes: set<Node>)
      requires Owns(nodes) && maxCount == 0
      ensures count < |children|
      ensures forall k :: 0 <= k <= count ==> children[k] in nodes && Over(children[k]) && children[k].position == k
      ensures forall c :: c in nodes && Over(c) ==> c.position <= count && children[c.position] == c
    {
    }

    /** `swap_ranges` on the front of the two child buffers. */
    method SwapRanges(larger: Node)
      requires this != larger && count < |children| == |larger.children|
      modifies this`children, larger`children
      ensures children == old(larger.children[..count + 1] + children[count + 1..])
      ensures larger.children == old(children[..count + 1] + larger.children[count + 1..])
      ensures |children| == |larger.children| == old(|children|)
      ensures forall k :: 0 <= k <= count ==> children[k] == old(larger.children[k]) && larger.children[k] == old(children[k])
      ensures forall k :: count < k < |children| ==> larger.children[k] == old(larger.children[k])
    {
      children, larger.children := larger.children[..count + 1] + children[count + 1..], children[..count + 1] + larger.children[count + 1..];
    }

    /** Exchanges the values and the children of two nodes of one kind. */
    method Swap(x: Node, ghost nodes: set<Node>)
      requires Ok() && x.Ok() && this != x && IsLeaf() == x.IsLeaf() && x.count <= Capacity() && count <= x.Capacity()
      requires Owns(nodes) && x.Owns(nodes) && level == x.level && this in nodes && x in nodes
      modifies this`slots, this`count, this`children, x`slots, x`count, x`children, nodes`parent, nodes`position
      ensures Ok() && x.Ok() && Vals() == old(x.Vals()) && x.Vals() == old(Vals()) && Kids() == old(x.Kids()) && x.Kids() == old(Kids())
      ensures forall c :: c in nodes ==> c.position == old(c.position)
      ensures forall c :: c in nodes ==> c.parent == old(if Over(c) then x else if x.Over(c) then this else c.parent)
    {
      if IsLeaf() {
        SwapLeaves(x);
      } else if count > x.count {
        x.SwapInternal(this, nodes);
      } else {
        SwapInternal(x, nodes);
      }
    }

    method SwapInternal(larger: Node, ghost nodes: set<Node>)
      requires Ok() && larger.Ok() && this != larger && !IsLeaf() && !larger.IsLeaf() && count <= larger.count
      requires Owns(nodes) && larger.Owns(nodes) && level == larger.level
      modifies this`slots, this`count, this`children, larger`slots, larger`count, larger`children, nodes`parent, nodes`position
      ensures Ok() && larger.Ok() && Vals() == old(larger.Vals()) && larger.Vals() == old(Vals())
      ensures Kids() == old(larger.Kids()) && larger.Kids() == old(Kids())
      ensures forall c :: c in nodes ==> c.position == old(c.position)
      ensures forall c :: c in nodes ==> c.parent == old(if Over(c) then larger else if larger.Over(c) then this else c.parent)
    {
      hide Owns;
      SwapSlots(larger);
      SwapChildren(larger, nodes);
      count, larger.count := larger.count, count;
    }
  }
}
