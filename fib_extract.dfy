/** The steps of `extractMin` in FibonacciHeap.h before `consolidate`: the
    minimum's children join the root ring, and the minimum leaves it. */
module FibExtract {
  import opened Vertex
  import opened FibRings
  import opened FibForest
  import opened FibSteps

  /** The child loop of `extractMin` (lines 116-124) after `i` turns, `z`
      being the minimum and `kids[z]` its child ring in `ns0`: the first `i`
      children are parentless roots at the end of the root ring, and the
      others still have their links of `ns0`. */
  ghost predicate Promoting(ns0: Arena, ns: Arena, roots: seq<NodeRef>, kids: map<NodeRef, seq<NodeRef>>, rank: map<NodeRef, nat>, bound: nat,
                            z: NodeRef, i: int)
  {
    && |roots| > 0 && roots[0] == z && z in kids && 0 <= i <= |kids[z]|
    && Forest(ns, roots + kids[z][..i], kids[z := kids[z][i..]], {z})
    && Covered(ns, roots + kids[z][..i]) && Ranked(ns, rank, bound) && Ordered(ns, null)
    && Ring(ns, roots + kids[z][..i])
    && Ring(ns0, kids[z]) && SameLinks(ns0, ns, kids[z][i..])
    && Keys(ns) == Keys(ns0)
  }

  /** Before the first turn. */
  lemma PromoteStart(ns: Arena, roots: seq<NodeRef>, kids: map<NodeRef, seq<NodeRef>>, rank: map<NodeRef, nat>, bound: nat, z: NodeRef)
    requires Heap(ns, roots, kids, rank, bound, z)
    ensures Promoting(ns, ns, roots, kids, rank, bound, z, 0)
    ensures z in ns && ns[z].child == if kids[z] == [] then null else kids[z][0]
  {
    assert Live(ns, z);
    var K := kids[z];
    assert roots + K[..0] == roots;
    assert kids[z := K[0..]] == kids;
  }

  /** One turn: the next child `x` is still linked as in `ns0`, so
      `x.right` is the child after it, and promoting `x` keeps the loop's
      invariant. */
  lemma PromoteTurn(ns0: Arena, ns: Arena, roots: seq<NodeRef>, kids: map<NodeRef, seq<NodeRef>>, rank: map<NodeRef, nat>, bound: nat,
                    z: NodeRef, i: int)
    requires Promoting(ns0, ns, roots, kids, rank, bound, z, i) && i < |kids[z]|
    ensures kids[z][i] in ns && z in ns && ns[z].left in ns
    ensures ns[kids[z][i]].right == kids[z][Next(i, |kids[z]|)]
    ensures (kids[z][Next(i, |kids[z]|)] == kids[z][0]) == (i + 1 == |kids[z]|)
    ensures Attached(ns[kids[z][i] := ns[kids[z][i]].(parent := null)], z, kids[z][i]) == PromotedFirst(ns, z, kids[z][i])
    ensures Promoting(ns0, PromotedFirst(ns, z, kids[z][i]), roots, kids, rank, bound, z, i + 1)
  {
    var K := kids[z];
    var R := roots + K[..i];
    var kd := kids[z := K[i..]];
    var x := K[i];
    assert R[0] == z;
    assert Distinct(K[i..]);
    PromoteStep(ns, R, kd, rank, bound, z);
    var ns' := PromotedFirst(ns, z, x);
    assert R + [x] == roots + K[..i + 1];
    assert kd[z := kd[z][1..]] == kids[z := K[i + 1..]];
    assert K[i..][1..] == K[i + 1..];
    LinksCarried(ns0, ns, ns', K[i..]);
    assert K[i..][0] == x;
    RightOf(ns0, K, i);
    KeysCarried(ns0, ns, ns');
  }

  /** Links kept from `ns0` to `ns` along `s`, and from `ns` to `ns'` along
      all of `s` but its head, are kept from `ns0` to `ns'` there. */
  lemma LinksCarried(ns0: Arena, ns: Arena, ns': Arena, s: seq<NodeRef>)
    requires |s| > 0 && SameLinks(ns0, ns, s) && SameLinks(ns, ns', s[1..])
    ensures SameLinks(ns0, ns', s[1..])
  {
    var t := s[1..];
    forall j | 0 <= j < |t| ensures t[j] in ns0 && t[j] in ns' && ns'[t[j]].left == ns0[t[j]].left && ns'[t[j]].right == ns0[t[j]].right {
      assert t[j] == s[j + 1];
    }
  }

  lemma KeysCarried(ns0: Arena, ns: Arena, ns': Arena)
    requires Keys(ns) == Keys(ns0) && ns'.Keys == ns.Keys && forall n :: n in ns ==> ns'[n].key == ns[n].key
    ensures Keys(ns') == Keys(ns0)
  {
    forall n | n in ns' ensures Keys(ns')[n] == Keys(ns0)[n] {
      assert Keys(ns)[n] == Keys(ns0)[n];
    }
  }

  /** Promoting a child and clearing `z.child` change no mark: a marked
      child becomes a marked root. */
  lemma PromotedMarks(ns: Arena, z: NodeRef, x: NodeRef)
    requires x in ns && z in ns && ns[z].left in ns
    ensures Marks(PromotedFirst(ns, z, x)) == Marks(ns)
    ensures Marks(ns[z := ns[z].(child := null)]) == Marks(ns)
  {
  }

  /** Everything `removeFromRootList(z)` needs: `z` heads the root ring,
      has no children and no parent. */
  ghost predicate Promoted(ns: Arena, roots: seq<NodeRef>, kids: map<NodeRef, seq<NodeRef>>, rank: map<NodeRef, nat>, bound: nat, z: NodeRef)
  {
    && Forest(ns, roots, kids, {z}) && Covered(ns, roots) && Ranked(ns, rank, bound) && Ordered(ns, null)
    && Ring(ns, roots) && |roots| > 0 && roots[0] == z && z in kids && kids[z] == [] && ns[z].child == null
  }

  /** After the last turn and line 125, which clears `z.child`. */
  lemma PromoteEnd(ns0: Arena, ns: Arena, roots: seq<NodeRef>, kids: map<NodeRef, seq<NodeRef>>, rank: map<NodeRef, nat>, bound: nat, z: NodeRef)
    requires z in kids && Promoting(ns0, ns, roots, kids, rank, bound, z, |kids[z]|)
    ensures z in ns
    ensures Promoted(ns[z := ns[z].(child := null)], roots + kids[z], kids[z := []], rank, bound, z)
    ensures Keys(ns[z := ns[z].(child := null)]) == Keys(ns0)
  {
    var K := kids[z];
    assert K[..|K|] == K && K[|K|..] == [];
    var R := roots + K;
    assert R[0] == z;
    assert Live(ns, z);
    ChildCleared(ns, R, kids[z := []], rank, bound, z);
    KeysCarried(ns0, ns, ns[z := ns[z].(child := null)]);
  }

  /** Clearing the child pointer of a node whose child ring is not
      required changes no other fact of the forest. */
  lemma ChildCleared(ns: Arena, roots: seq<NodeRef>, kids: map<NodeRef, seq<NodeRef>>, rank: map<NodeRef, nat>, bound: nat, z: NodeRef)
    requires Forest(ns, roots, kids, {z}) && Covered(ns, roots) && Ranked(ns, rank, bound) && Ordered(ns, null) && Ring(ns, roots) && z in ns
    ensures Forest(ns[z := ns[z].(child := null)], roots, kids, {z}) && Covered(ns[z := ns[z].(child := null)], roots)
    ensures Ranked(ns[z := ns[z].(child := null)], rank, bound) && Ordered(ns[z := ns[z].(child := null)], null)
    ensures Ring(ns[z := ns[z].(child := null)], roots)
  {
    var ns' := ns[z := ns[z].(child := null)];
    forall n | n in ns ensures ns'[n].parent == ns[n].parent && ns'[n].key == ns[n].key && ns'[n].left == ns[n].left && ns'[n].right == ns[n].right && (n != z ==> ns'[n] == ns[n]) {
      assert Live(ns, n);
    }
    forall i | 0 <= i < |roots| ensures roots[i] in ns' && ns'[roots[i]].parent == null {
      assert Live(ns, roots[i]);
    }
    forall n: NodeRef | n in ns' && Live(ns', n) ensures Adopted(ns', kids, n) && (n != z ==> ChildRing(ns', kids, n)) {
      assert Live(ns, n);
      var C := kids[n];
      forall i | 0 <= i < |C| ensures C[i] in ns && ns'[C[i]].parent == n {
        assert Live(ns, C[i]);
      }
      if n != z {
        RingFrame(ns, ns', C);
      }
      if ns[n].parent != null {
        assert Live(ns, ns[n].parent);
      }
    }
    ParentsKept(ns, ns', roots, rank, bound);
    RingFrame(ns, ns', roots);
  }

  /** Covering, ranks and heap order depend only on parents and keys. */
  lemma ParentsKept(ns: Arena, ns': Arena, roots: seq<NodeRef>, rank: map<NodeRef, nat>, bound: nat)
    requires ns'.Keys == ns.Keys && forall n :: n in ns ==> ns'[n].parent == ns[n].parent && ns'[n].key == ns[n].key
    requires Covered(ns, roots) && Ranked(ns, rank, bound) && Ordered(ns, null)
    ensures Covered(ns', roots) && Ranked(ns', rank, bound) && Ordered(ns', null)
  {
    forall n: NodeRef | n in ns' && Live(ns', n) && ns'[n].parent == null ensures n in roots {
      assert Live(ns, n);
    }
    forall n: NodeRef | n in ns' && Live(ns', n)
      ensures rank[n] < bound && (ns'[n].parent != null ==> ns'[n].parent in rank && rank[n] < rank[ns'[n].parent])
    {
      assert Live(ns, n);
    }
    forall n: NodeRef | n in ns' && Live(ns', n) && ns'[n].parent != null
      ensures ns'[n].parent in ns' && ns'[ns'[n].parent].key.distance <= ns'[n].key.distance
    {
      assert Live(ns, n);
      assert Live(ns, ns[n].parent);
    }
  }

  /** `removeFromRootList(z)` (line 128) and `delete z` (line 135): the
      rest of the root ring is a well-formed forest without `z`, and
      `minNode` moves to the next root, or to null when `z` was alone. */
  lemma ExtractStep(ns: Arena, roots: seq<NodeRef>, kids: map<NodeRef, seq<NodeRef>>, rank: map<NodeRef, nat>, bound: nat, z: NodeRef)
    requires Promoted(ns, roots, kids, rank, bound, z)
    ensures z in ns && ns[z].left in ns && ns[z].right in ns
    ensures (ns[z].right == z) == (|roots| == 1) && (|roots| > 1 ==> ns[z].right == roots[1])
    ensures Forest(Unlinked(ns, z) - {z}, roots[1..], kids - {z}, {}) && Covered(Unlinked(ns, z) - {z}, roots[1..])
    ensures Ranked(Unlinked(ns, z) - {z}, rank - {z}, bound) && Ordered(Unlinked(ns, z) - {z}, null)
    ensures Ring(Unlinked(ns, z) - {z}, roots[1..])
    ensures Keys(Unlinked(ns, z) - {z}) == Keys(ns) - {z} && |Unlinked(ns, z) - {z}| == |ns| - 1
  {
    ExtractUnlink(ns, roots, kids, rank, bound, z);
    var ns1 := Unlinked(ns, z);
    DropRoot(ns1, roots[1..], kids, rank, bound, z);
    var ns' := ns1 - {z};
    forall n | n in ns' ensures Keys(ns')[n] == (Keys(ns) - {z})[n] {
    }
    assert ns'.Keys == ns.Keys - {z};
  }

  /** `removeFromRootList(z)` alone. */
  lemma ExtractUnlink(ns: Arena, roots: seq<NodeRef>, kids: map<NodeRef, seq<NodeRef>>, rank: map<NodeRef, nat>, bound: nat, z: NodeRef)
    requires Promoted(ns, roots, kids, rank, bound, z)
    ensures z in ns && ns[z].left in ns && ns[z].right in ns
    ensures (ns[z].right == z) == (|roots| == 1) && (|roots| > 1 ==> ns[z].right == roots[1])
    ensures Forest(Unlinked(ns, z), roots[1..], kids, {z}) && Covered(Unlinked(ns, z), roots[1..] + [z])
    ensures Ranked(Unlinked(ns, z), rank, bound) && Ordered(Unlinked(ns, z), null) && Ring(Unlinked(ns, z), roots[1..])
    ensures Unlinked(ns, z)[z].parent == null && z !in roots[1..]
    ensures forall n :: n in ns ==> Unlinked(ns, z)[n].key == ns[n].key
  {
    UnlinkedRing(ns, roots, 0);
    RightOf(ns, roots, 0);
    LeftOf(ns, roots, 0);
    var ns1 := Unlinked(ns, z);
    var S := {ns[z].left, ns[z].right};
    assert roots[..0] + roots[1..] == roots[1..];
    ForestRelink(ns, ns1, roots, roots[1..], kids, {z}, S);
    TreeRelink(ns, ns1, S, rank, bound, null);
    assert roots == [z] + roots[1..];
    CoveredRelink(ns, ns1, S, roots, roots[1..] + [z]);
    assert z !in roots[1..];
  }
}
