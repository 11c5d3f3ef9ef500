/** In-order interleaving of a node's values with the contents of its subtrees. */
module Weaving {
  import opened BtreeValues

  /** Everything in front of part `i`. */
  ghost function Pre(vals: seq<V>, parts: seq<seq<V>>, i: nat): (r: seq<V>)
    requires i <= |vals| && i <= |parts|
  {
    if i == 0 then [] else Pre(vals, parts, i - 1) + parts[i - 1] + [vals[i - 1]]
  }

  /** Everything behind part `i`. */
  ghost function Post(vals: seq<V>, parts: seq<seq<V>>, i: nat): (r: seq<V>)
    requires i <= |vals| && |parts| == |vals| + 1
    decreases |vals| - i
  {
    if i == |vals| then [] else [vals[i]] + parts[i + 1] + Post(vals, parts, i + 1)
  }

  ghost function Weave(vals: seq<V>, parts: seq<seq<V>>): (r: seq<V>)
    requires |parts| == |vals| + 1
  {
    Pre(vals, parts, |vals|) + parts[|vals|]
  }

  /** Where value `i` stands in the weave; for `i == |vals|`, the length of the weave. */
  ghost function Offset(vals: seq<V>, parts: seq<seq<V>>, i: nat): (r: nat)
    requires i <= |vals| && |parts| == |vals| + 1
  {
    |Pre(vals, parts, i)| + |parts[i]|
  }

  /** A weave read from any of its parts. */
  lemma {:induction false} WeaveAt(vals: seq<V>, parts: seq<seq<V>>, i: nat)
    requires i <= |vals| && |parts| == |vals| + 1
    ensures Weave(vals, parts) == Pre(vals, parts, i) + parts[i] + Post(vals, parts, i)
    decreases |vals| - i
  {
    if i < |vals| {
      WeaveAt(vals, parts, i + 1);
      var a, b, c, d := Pre(vals, parts, i), parts[i], parts[i + 1], Post(vals, parts, i + 1);
      assert (a + b + [vals[i]]) + c + d == a + b + ([vals[i]] + c + d);
    }
  }

  /** The value in front of part `i + 1`, found by its offset. */
  lemma OffsetValue(vals: seq<V>, parts: seq<seq<V>>, i: nat)
    requires i < |vals| && |parts| == |vals| + 1
    ensures Offset(vals, parts, i) < |Weave(vals, parts)|
    ensures Weave(vals, parts)[Offset(vals, parts, i)] == vals[i]
  {
    WeaveAt(vals, parts, i);
    assert Post(vals, parts, i)[0] == vals[i];
  }

  lemma {:induction false} PreSame(vals: seq<V>, parts: seq<seq<V>>, vals': seq<V>, parts': seq<seq<V>>, i: nat)
    requires i <= |vals| && i <= |parts| && i <= |vals'| && i <= |parts'|
    requires vals[..i] == vals'[..i] && parts[..i] == parts'[..i]
    ensures Pre(vals, parts, i) == Pre(vals', parts', i)
  {
    if i > 0 {
      assert vals[..i - 1] == vals[..i][..i - 1] && vals'[..i - 1] == vals'[..i][..i - 1];
      assert parts[..i - 1] == parts[..i][..i - 1] && parts'[..i - 1] == parts'[..i][..i - 1];
      assert vals[i - 1] == vals[..i][i - 1] && parts[i - 1] == parts[..i][i - 1];
      PreSame(vals, parts, vals', parts', i - 1);
    }
  }

  lemma {:induction false} PostSame(vals: seq<V>, parts: seq<seq<V>>, i: nat,
                                    vals': seq<V>, parts': seq<seq<V>>, i': nat)
    requires i <= |vals| && |parts| == |vals| + 1
    requires i' <= |vals'| && |parts'| == |vals'| + 1
    requires vals[i..] == vals'[i'..] && parts[i + 1..] == parts'[i' + 1..]
    ensures Post(vals, parts, i) == Post(vals', parts', i')
    decreases |vals| - i
  {
    assert |vals[i..]| == |vals'[i'..]|;
    if i < |vals| {
      assert vals[i..][0] == vals'[i'..][0] && parts[i + 1..][0] == parts'[i' + 1..][0];
      assert vals[i + 1..] == vals[i..][1..] && vals'[i' + 1..] == vals'[i'..][1..];
      assert parts[i + 2..] == parts[i + 1..][1..] && parts'[i' + 2..] == parts'[i' + 1..][1..];
      PostSame(vals, parts, i + 1, vals', parts', i' + 1);
    }
  }

  /** The prefix of a concatenation of two nodes, read inside the second one. */
  lemma {:induction false} PreConcat(va: seq<V>, pa: seq<seq<V>>, d: V, vb: seq<V>, pb: seq<seq<V>>, j: nat)
    requires |pa| == |va| + 1 && j <= |vb| && j <= |pb|
    ensures Pre(va + [d] + vb, pa + pb, |va| + 1 + j) == Weave(va, pa) + [d] + Pre(vb, pb, j)
  {
    var v, p := va + [d] + vb, pa + pb;
    if j == 0 {
      PreSame(v, p, va, pa, |va|);
      assert v[|va|] == d && p[|va|] == pa[|va|];
    } else {
      PreConcat(va, pa, d, vb, pb, j - 1);
      assert v[|va| + j] == vb[j - 1] && p[|va| + j] == pb[j - 1];
      var w, q := Weave(va, pa), Pre(vb, pb, j - 1);
      assert (w + [d] + q) + pb[j - 1] + [vb[j - 1]] == w + [d] + (q + pb[j - 1] + [vb[j - 1]]);
    }
  }

  /** What precedes a part of two nodes put together, seen from the node it comes from. */
  lemma PreSide(va: seq<V>, pa: seq<seq<V>>, d: V, vb: seq<V>, pb: seq<seq<V>>, left: bool, j: nat)
    requires |pa| == |va| + 1 && |pb| == |vb| + 1 && j <= if left then |va| else |vb|
    ensures Pre(va + [d] + vb, pa + pb, if left then j else |va| + 1 + j)
            == (if left then [] else Weave(va, pa) + [d]) + if left then Pre(va, pa, j) else Pre(vb, pb, j)
  {
    if left {
      PreSame(va + [d] + vb, pa + pb, va, pa, j);
    } else {
      PreConcat(va, pa, d, vb, pb, j);
    }
  }

  /** Weaving two nodes with the value that separates them. */
  lemma WeaveConcat(va: seq<V>, pa: seq<seq<V>>, d: V, vb: seq<V>, pb: seq<seq<V>>)
    requires |pa| == |va| + 1 && |pb| == |vb| + 1
    ensures Weave(va + [d] + vb, pa + pb) == Weave(va, pa) + [d] + Weave(vb, pb)
  {
    PreConcat(va, pa, d, vb, pb, |vb|);
    assert (pa + pb)[|va| + 1 + |vb|] == pb[|vb|];
    assert (Weave(va, pa) + [d] + Pre(vb, pb, |vb|)) + pb[|vb|] == Weave(va, pa) + [d] + (Pre(vb, pb, |vb|) + pb[|vb|]);
  }

  lemma OffsetConcat(va: seq<V>, pa: seq<seq<V>>, d: V, vb: seq<V>, pb: seq<seq<V>>, j: nat)
    requires |pa| == |va| + 1 && |pb| == |vb| + 1 && j <= |vb|
    ensures Offset(va + [d] + vb, pa + pb, |va| + 1 + j) == |Weave(va, pa)| + 1 + Offset(vb, pb, j)
  {
    PreConcat(va, pa, d, vb, pb, j);
    assert (pa + pb)[|va| + 1 + j] == pb[j];
  }

  /** A node whose parts `i` and `i + 1` are fused around the value between them. */
  ghost function Fuse(vals: seq<V>, parts: seq<seq<V>>, i: nat): (r: seq<seq<V>>)
    requires i < |vals| && |parts| == |vals| + 1
  {
    parts[..i] + [parts[i] + [vals[i]] + parts[i + 1]] + parts[i + 2..]
  }

  lemma PreFuseLow(vals: seq<V>, parts: seq<seq<V>>, i: nat, j: nat)
    requires i < |vals| && |parts| == |vals| + 1 && j <= i
    ensures Pre(Without(vals, i), Fuse(vals, parts, i), j) == Pre(vals, parts, j)
  {
    var v, p := Without(vals, i), Fuse(vals, parts, i);
    assert v[..j] == vals[..j] && p[..j] == parts[..j];
    PreSame(v, p, vals, parts, j);
  }

  lemma {:induction false} PreFuseHigh(vals: seq<V>, parts: seq<seq<V>>, i: nat, j: nat)
    requires i < |vals| && |parts| == |vals| + 1 && i < j < |vals|
    ensures Pre(Without(vals, i), Fuse(vals, parts, i), j) == Pre(vals, parts, j + 1)
  {
    var v, p := Without(vals, i), Fuse(vals, parts, i);
    assert v[j - 1] == vals[j];
    if j == i + 1 {
      PreFuseLow(vals, parts, i, i);
      var q := Pre(vals, parts, i);
      calc {
        Pre(v, p, j);
        q + p[i] + [vals[j]];
        { assert p[i] == parts[i] + [vals[i]] + parts[i + 1]; }
        q + (parts[i] + [vals[i]] + parts[i + 1]) + [vals[j]];
        (q + parts[i] + [vals[i]]) + parts[j] + [vals[j]];
        Pre(vals, parts, j) + parts[j] + [vals[j]];
      }
    } else {
      PreFuseHigh(vals, parts, i, j - 1);
      assert p[j - 1] == parts[j];
    }
  }

  /** The parts in front of and behind the fused one keep their prefixes. */
  lemma PreFuse(vals: seq<V>, parts: seq<seq<V>>, i: nat, j: nat)
    requires i < |vals| && |parts| == |vals| + 1 && j < |vals|
    ensures Pre(Without(vals, i), Fuse(vals, parts, i), j) == Pre(vals, parts, if j <= i then j else j + 1)
  {
    if j <= i {
      PreFuseLow(vals, parts, i, j);
    } else {
      PreFuseHigh(vals, parts, i, j);
    }
  }

  /** Fusing two neighbouring parts leaves the weave as it was. */
  lemma WeaveFuse(vals: seq<V>, parts: seq<seq<V>>, i: nat)
    requires i < |vals| && |parts| == |vals| + 1
    ensures Weave(Without(vals, i), Fuse(vals, parts, i)) == Weave(vals, parts)
  {
    var v, p := Without(vals, i), Fuse(vals, parts, i);
    PreFuse(vals, parts, i, |v|);
    if i == |v| {
      assert p[i] == parts[i] + [vals[i]] + parts[i + 1];
      var q := Pre(vals, parts, i);
      assert q + (parts[i] + [vals[i]] + parts[i + 1]) == (q + parts[i] + [vals[i]]) + parts[i + 1];
    } else {
      assert p[|v|] == parts[|vals|];
    }
  }

  /** Cutting values `b..e` together with the parts between them cuts one stretch of the weave. */
  lemma WeaveCut(vals: seq<V>, parts: seq<seq<V>>, b: nat, e: nat)
    requires b <= e <= |vals| && |parts| == |vals| + 1
    ensures var w := Weave(vals, parts);
            Offset(vals, parts, b) <= Offset(vals, parts, e) <= |w| &&
            Weave(vals[..b] + vals[e..], parts[..b + 1] + parts[e + 1..])
            == w[..Offset(vals, parts, b)] + w[Offset(vals, parts, e)..]
  {
    var v, p := vals[..b] + vals[e..], parts[..b + 1] + parts[e + 1..];
    OffsetMonotone(vals, parts, b, e);
    WeaveAt(vals, parts, b);
    WeaveAt(vals, parts, e);
    WeaveAt(v, p, b);
    assert v[..b] == vals[..b] && p[..b] == parts[..b] && p[b] == parts[b];
    PreSame(v, p, vals, parts, b);
    assert v[b..] == vals[e..] && p[b + 1..] == parts[e + 1..];
    PostSame(v, p, b, vals, parts, e);
  }

  lemma {:induction false} OffsetMonotone(vals: seq<V>, parts: seq<seq<V>>, b: nat, e: nat)
    requires b <= e <= |vals| && |parts| == |vals| + 1
    ensures Offset(vals, parts, b) + (e - b) <= Offset(vals, parts, e) <= |Weave(vals, parts)|
  {
    WeaveAt(vals, parts, e);
    if b < e {
      OffsetMonotone(vals, parts, b, e - 1);
    }
  }

  /** With empty parts the weave is the values alone. */
  lemma {:induction false} PreBare(vals: seq<V>, parts: seq<seq<V>>, i: nat)
    requires i <= |vals| && |parts| == |vals| + 1
    requires forall j :: 0 <= j < |parts| ==> parts[j] == []
    ensures Pre(vals, parts, i) == vals[..i]
  {
    if i > 0 {
      PreBare(vals, parts, i - 1);
      assert vals[..i] == vals[..i - 1] + [] + [vals[i - 1]];
    }
  }

  lemma Regroup(b: seq<V>, x: seq<V>, f: seq<V>, y: seq<V>, a: seq<V>)
    ensures b + (x + f + y) + a == (b + x) + f + (y + a)
  {
  }

  lemma Regroup3(b: seq<V>, f: seq<V>, d: seq<V>, x: seq<V>)
    ensures b + (f + d + x) == (b + f + d) + x
  {
  }
}
