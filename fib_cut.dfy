/** The steps of `decreaseKey`, `cut` and `cascadingCut` in FibonacciHeap.h
    on the forest they rearrange. */
module FibCuts {
  import opened Vertex
  import opened FibRings
  import opened FibForest
  import opened FibSteps

  /** The heap invariant less the minimum: a non-empty heap-ordered forest
      whose root ring is `roots`. It holds between the steps of
      `decreaseKey`, while the new key may be below `minNode`'s. */
  ghost predicate Trees(ns: Arena, roots: seq<NodeRef>, kids: map<NodeRef, seq<NodeRef>>, rank: map<NodeRef, nat>, bound: nat)
  {
    && Forest(ns, roots, kids, {}) && Covered(ns, roots) && Ranked(ns, rank, bound) && Ordered(ns, null)
    && Ring(ns, roots) && |roots| > 0
  }

  /** `ns'` differs from `ns` only in the key or the mark of `x`. */
  ghost predicate Relabelled(ns: Arena, ns': Arena, x: NodeRef)
  {
    && OnlyAt(ns, ns', x) && x in ns
    && ns'[x] == ns[x].(key := ns'[x].key, isMarked := ns'[x].isMarked)
  }

  /** A new key or mark changes no ring, child list, parent or rank. */
  lemma RelabelledShape(ns: Arena, ns': Arena, roots: seq<NodeRef>, kids: map<NodeRef, seq<NodeRef>>, rank: map<NodeRef, nat>, bound: nat, x: NodeRef)
    requires Forest(ns, roots, kids, {}) && Covered(ns, roots) && Ranked(ns, rank, bound) && Ring(ns, roots)
    requires Relabelled(ns, ns', x)
    ensures Forest(ns', roots, kids, {}) && Covered(ns', roots) && Ranked(ns', rank, bound) && Ring(ns', roots)
    ensures forall n :: n in ns ==> ns'[n].parent == ns[n].parent && (n != x ==> ns'[n] == ns[n])
  {
    forall n | n in ns ensures ns'[n].parent == ns[n].parent && ns'[n].left == ns[n].left && ns'[n].right == ns[n].right && (n != x ==> ns'[n] == ns[n]) {
      assert Live(ns, n);
    }
    forall i | 0 <= i < |roots| ensures roots[i] in ns' && ns'[roots[i]].parent == null {
      assert Live(ns, roots[i]);
    }
    forall n: NodeRef | n in ns' && Live(ns', n) ensures Adopted(ns', kids, n) && ChildRing(ns', kids, n) {
      assert Live(ns, n);
      var C := kids[n];
      forall i | 0 <= i < |C| ensures C[i] in ns && ns'[C[i]].parent == n {
        assert Live(ns, C[i]);
      }
      RingFrame(ns, ns', C);
      if ns[n].parent != null {
        assert Live(ns, ns[n].parent);
      }
    }
    forall n: NodeRef | n in ns' && Live(ns', n) && ns'[n].parent == null ensures n in roots {
      assert Live(ns, n);
    }
    forall n: NodeRef | n in ns' && Live(ns', n)
      ensures rank[n] < bound && (ns'[n].parent != null ==> ns'[n].parent in rank && rank[n] < rank[ns'[n].parent])
    {
      assert Live(ns, n);
    }
    RingFrame(ns, ns', roots);
  }

  /** Line 144 of `decreaseKey`: the node gets a key no larger than its
      old one. Its stored key is the only one to change, and heap order can
      fail only between the node and its parent. */
  lemma Rekeyed(ns: Arena, roots: seq<NodeRef>, kids: map<NodeRef, seq<NodeRef>>, rank: map<NodeRef, nat>, bound: nat, node: NodeRef, key: VertexInfo)
    requires Forest(ns, roots, kids, {}) && Covered(ns, roots) && Ranked(ns, rank, bound) && Ordered(ns, null) && Ring(ns, roots)
    requires node in ns && key.distance <= ns[node].key.distance
    ensures Forest(ns[node := ns[node].(key := key)], roots, kids, {}) && Covered(ns[node := ns[node].(key := key)], roots)
    ensures Ranked(ns[node := ns[node].(key := key)], rank, bound) && Ring(ns[node := ns[node].(key := key)], roots)
    ensures Ordered(ns[node := ns[node].(key := key)], node)
    ensures ns[node].parent != null ==> ns[node].parent in ns && ns[node].parent != node
    ensures Keys(ns[node := ns[node].(key := key)]) == Keys(ns)[node := key]
  {
    var ns' := ns[node := ns[node].(key := key)];
    RelabelledShape(ns, ns', roots, kids, rank, bound, node);
    assert Live(ns, node);
    forall n: NodeRef | n in ns' && Live(ns', n) && n != node && ns'[n].parent != null
      ensures ns'[n].parent in ns' && ns'[ns'[n].parent].key.distance <= ns'[n].key.distance
    {
      assert Live(ns, n);
    }
    forall n | n in ns' ensures Keys(ns')[n] == (Keys(ns)[node := key])[n] {
    }
  }

  /** Heap order that may fail only at `node` holds once `node`'s key is
      not below its parent's, or `node` has no parent. */
  lemma OrderedAt(ns: Arena, node: NodeRef)
    requires Ordered(ns, node) && node in ns
    requires ns[node].parent != null ==> ns[node].parent in ns && ns[ns[node].parent].key.distance <= ns[node].key.distance
    ensures Ordered(ns, null)
  {
  }

  /** Line 265 of `cascadingCut`: marking a node changes no tree and no key. */
  lemma Marked(ns: Arena, roots: seq<NodeRef>, kids: map<NodeRef, seq<NodeRef>>, rank: map<NodeRef, nat>, bound: nat, node: NodeRef)
    requires Trees(ns, roots, kids, rank, bound) && node in ns
    ensures Trees(ns[node := ns[node].(isMarked := true)], roots, kids, rank, bound)
    ensures Keys(ns[node := ns[node].(isMarked := true)]) == Keys(ns)
  {
    var ns' := ns[node := ns[node].(isMarked := true)];
    RelabelledShape(ns, ns', roots, kids, rank, bound, node);
    forall n: NodeRef | n in ns' && Live(ns', n) && ns'[n].parent != null
      ensures ns'[n].parent in ns' && ns'[ns'[n].parent].key.distance <= ns'[n].key.distance
    {
      assert Live(ns, n);
    }
    forall n | n in ns' ensures Keys(ns')[n] == Keys(ns)[n] {
    }
  }

  /** `cut(node, parent)` with `roots[0]` as `minNode`: `node` becomes an
      unmarked root at the end of the root ring, leaves its parent's child
      ring, and the parent's degree drops by one; no key changes. */
  lemma CutStep(ns: Arena, roots: seq<NodeRef>, kids: map<NodeRef, seq<NodeRef>>, rank: map<NodeRef, nat>, bound: nat, node: NodeRef, p: NodeRef)
    requires Forest(ns, roots, kids, {}) && Covered(ns, roots) && Ranked(ns, rank, bound) && Ordered(ns, node)
    requires Ring(ns, roots) && |roots| > 0 && node in ns && ns[node].parent == p
    ensures p in ns && p in kids && node in kids[p] && p != node
    ensures ns[node].left in ns && ns[node].right in ns && roots[0] in ns && Detached(ns, node, p)[roots[0]].left in ns
    ensures Trees(CutOut(ns, node, p, roots[0]), roots + [node], kids[p := Remove(kids[p], node)], rank, bound)
    ensures Keys(CutOut(ns, node, p, roots[0])) == Keys(ns)
    ensures CutOut(ns, node, p, roots[0])[node].parent == null && !CutOut(ns, node, p, roots[0])[node].isMarked
    ensures CutOut(ns, node, p, roots[0])[p].degree == ns[p].degree - 1
    ensures CutOut(ns, node, p, roots[0])[p].child == (if ns[node].right == node then null else if ns[p].child == node then ns[node].right else ns[p].child)
    ensures forall n :: n in ns && n != node ==> CutOut(ns, node, p, roots[0])[n].parent == ns[n].parent && CutOut(ns, node, p, roots[0])[n].isMarked == ns[n].isMarked
  {
    assert Live(ns, node);
    CutRings(ns, roots, kids, rank, bound, node);
    var ns' := CutOut(ns, node, p, roots[0]);
    var S := {ns[node].left, ns[node].right, roots[0], roots[|roots| - 1]};
    CutNeighbours(ns, roots, kids, node, p);
    CutForest(ns, ns', roots, kids, rank, bound, node, S);
    CutRest(ns, ns', roots, rank, bound, node, S);
    CutFields(ns, ns', node, p, S);
    CutChild(ns, kids, node, p);
  }

  /** What `cascadingCut` does to parents and marks along `path`, the walk
      from the node it is called on up through its ancestors: every node
      but the last was a marked child and becomes an unmarked root; the
      last is left as it was when it is a root, and otherwise it was
      unmarked and becomes marked, keeping its parent. */
  ghost predicate Cascade(ns: Arena, ns': Arena, path: seq<NodeRef>)
  {
    && |path| > 0 && ns'.Keys == ns.Keys
    && (forall i :: 0 <= i < |path| ==> path[i] in ns)
    && (forall i :: 0 <= i < |path| - 1 ==>
          && ns[path[i]].parent == path[i + 1] && ns[path[i]].isMarked
          && ns'[path[i]].parent == null && !ns'[path[i]].isMarked)
    && (ns[path[|path| - 1]].parent == null ==>
          ns'[path[|path| - 1]].parent == null && ns'[path[|path| - 1]].isMarked == ns[path[|path| - 1]].isMarked)
    && (ns[path[|path| - 1]].parent != null ==>
          && !ns[path[|path| - 1]].isMarked
          && ns'[path[|path| - 1]].parent == ns[path[|path| - 1]].parent && ns'[path[|path| - 1]].isMarked)
  }

  /** Lines 268-269 of `cascadingCut`: cutting the marked child `node` and
      then cascading from its parent along `path` is the cascade from
      `node` along `[node] + path`, and every node off that walk keeps its
      parent and mark. */
  lemma CascadeExtended(ns: Arena, ns1: Arena, ns': Arena, node: NodeRef, path: seq<NodeRef>)
    requires node in ns && ns[node].parent != null && ns[node].isMarked
    requires Cascade(ns1, ns', path) && path[0] == ns[node].parent && node !in path
    requires ns1.Keys == ns.Keys && ns1[node].parent == null && !ns1[node].isMarked
    requires forall n :: n in ns && n != node ==> ns1[n].parent == ns[n].parent && ns1[n].isMarked == ns[n].isMarked
    requires forall n :: n in ns1 && n !in path ==> ns'[n].parent == ns1[n].parent && ns'[n].isMarked == ns1[n].isMarked
    ensures Cascade(ns, ns', [node] + path) && ns'[node].parent == null && !ns'[node].isMarked
    ensures forall n :: n in ns && n !in [node] + path ==> ns'[n].parent == ns[n].parent && ns'[n].isMarked == ns[n].isMarked
  {
    var P := [node] + path;
    forall i | 0 <= i < |P| - 1
      ensures ns[P[i]].parent == P[i + 1] && ns[P[i]].isMarked && ns'[P[i]].parent == null && !ns'[P[i]].isMarked
    {
      if i > 0 {
        assert P[i] == path[i - 1] && P[i + 1] == path[i];
      }
    }
    assert P[|P| - 1] == path[|path| - 1];
  }

  /** What a cascade means for roots and marks: a root keeps its (lack
      of a) parent and its mark, and a node that was unmarked and is
      marked afterwards still has a parent. */
  lemma CascadeMarks(ns: Arena, ns': Arena, path: seq<NodeRef>)
    requires Cascade(ns, ns', path)
    requires forall n :: n in ns && n !in path ==> ns'[n].parent == ns[n].parent && ns'[n].isMarked == ns[n].isMarked
    ensures forall n :: n in ns && ns[n].parent == null ==> ns'[n].parent == null && ns'[n].isMarked == ns[n].isMarked
    ensures forall n :: n in ns && ns'[n].isMarked && !ns[n].isMarked ==> ns'[n].parent != null
  {
    forall n | n in ns && n in path
      ensures ns[n].parent == null ==> ns'[n].parent == null && ns'[n].isMarked == ns[n].isMarked
      ensures ns'[n].isMarked && !ns[n].isMarked ==> ns'[n].parent != null
    {
      var i :| 0 <= i < |path| && path[i] == n;
      if i < |path| - 1 {
        assert ns[n].parent == path[i + 1];
      }
    }
  }

  /** A child ranks below its parent. */
  lemma RankBelow(ns: Arena, rank: map<NodeRef, nat>, bound: nat, node: NodeRef)
    requires Ranked(ns, rank, bound) && node in ns && ns[node].parent != null && ns[node].parent in ns
    ensures node in rank && ns[node].parent in rank && rank[node] < rank[ns[node].parent] < bound
  {
    assert Live(ns, node) && Live(ns, ns[node].parent);
  }

  /** A walk whose nodes all rank at least as high as `node`'s parent does
      not meet `node`, and prefixed with `node` it ranks at least as high
      as `node` throughout. */
  lemma Climbing(rank: map<NodeRef, nat>, node: NodeRef, path: seq<NodeRef>)
    requires |path| > 0 && node in rank && path[0] in rank && rank[node] < rank[path[0]]
    requires forall i :: 0 <= i < |path| ==> path[i] in rank && rank[path[0]] <= rank[path[i]]
    ensures node !in path
    ensures forall i :: 0 <= i < |[node] + path| ==> ([node] + path)[i] in rank && rank[node] <= rank[([node] + path)[i]]
  {
    forall i | 0 <= i < |path| ensures path[i] != node {
    }
  }

  /** The test of line 146 of `decreaseKey`: `node` has a parent with a
      larger key. */
  ghost predicate BelowParent(ns: Arena, node: NodeRef)
  {
    node in ns && ns[node].parent != null && ns[node].parent in ns && ns[node].key.distance < ns[ns[node].parent].key.distance
  }

  /** Lines 148-149 of `decreaseKey`: after `cut(node, parent)` the cascade
      from the parent along `path` never reaches `node`, so on the arena
      before the cut it is the same cascade, and every node other than
      `node` and off `path` keeps its parent and mark. */
  lemma CascadeCut(ns: Arena, ns1: Arena, ns': Arena, node: NodeRef, path: seq<NodeRef>)
    requires node in ns && Cascade(ns1, ns', path) && node !in path
    requires ns1.Keys == ns.Keys && ns1[node].parent == null && !ns1[node].isMarked
    requires forall n :: n in ns && n != node ==> ns1[n].parent == ns[n].parent && ns1[n].isMarked == ns[n].isMarked
    requires forall n :: n in ns1 && n !in path ==> ns'[n].parent == ns1[n].parent && ns'[n].isMarked == ns1[n].isMarked
    ensures Cascade(ns, ns', path) && ns'[node].parent == null && !ns'[node].isMarked
    ensures forall n :: n in ns && n != node && n !in path ==> ns'[n].parent == ns[n].parent && ns'[n].isMarked == ns[n].isMarked
  {
    assert forall i :: 0 <= i < |path| ==> path[i] != node;
  }

  /** The nodes `cut` relinks are siblings of `node` or roots. */
  lemma CutNeighbours(ns: Arena, roots: seq<NodeRef>, kids: map<NodeRef, seq<NodeRef>>, node: NodeRef, p: NodeRef)
    requires Forest(ns, roots, kids, {}) && |roots| > 0 && node in ns && ns[node].parent == p
    requires p in ns && p in kids && node in kids[p] && ns[node].left in ns && ns[node].right in ns
    ensures forall y :: y in {ns[node].left, ns[node].right, roots[0], roots[|roots| - 1]} ==> y in ns && (ns[y].parent == null || ns[y].parent == p)
  {
    assert Live(ns, p);
    var K := kids[p];
    var j := IndexOf(K, node);
    LeftOf(ns, K, j);
    RightOf(ns, K, j);
    var l := if j == 0 then |K| - 1 else j - 1;
    assert ns[node].left == K[l] && ns[node].right == K[Next(j, |K|)];
  }

  /** What `cut` leaves of the fields other than links. */
  lemma CutFields(ns: Arena, ns': Arena, node: NodeRef, p: NodeRef, S: set<NodeRef>)
    requires node in ns && p in ns && node != p && CutShaped(ns, ns', node, p, S)
    ensures ns'[node].parent == null && !ns'[node].isMarked && ns'[p].degree == ns[p].degree - 1
    ensures forall n :: n in ns && n != node ==> ns'[n].parent == ns[n].parent && ns'[n].isMarked == ns[n].isMarked
  {
    forall n | n in ns && n != node ensures ns'[n].parent == ns[n].parent && ns'[n].isMarked == ns[n].isMarked {
      if n != p {
        assert Live(ns, n);
      }
    }
  }

  /** Where `cut` leaves `parent.child`. */
  lemma CutChild(ns: Arena, kids: map<NodeRef, seq<NodeRef>>, node: NodeRef, p: NodeRef)
    requires Forest(ns, [], kids, {}) && node in ns && p in ns && p in kids && node in kids[p] && p != node
    requires ns[node].left in ns && ns[node].right in ns
    ensures Detached(ns, node, p)[p].child == (if ns[node].right == node then null else if ns[p].child == node then ns[node].right else ns[p].child)
    ensures ns[node].left == node <==> ns[node].right == node
  {
    assert Live(ns, p);
    var K := kids[p];
    var j := IndexOf(K, node);
    LeftOf(ns, K, j);
    RightOf(ns, K, j);
    if |K| > 1 {
      assert K[Next(j, |K|)] != node;
      var l := if j == 0 then |K| - 1 else j - 1;
      assert K[l] != node;
    }
    DetachedFacts(ns, node, p);
  }

  /** After `decreaseKey` and its cuts, the node is the least key when its
      new key is below the old minimum's, and the old minimum stays least
      otherwise. */
  lemma NewLeast(ns0: Arena, ns: Arena, roots: seq<NodeRef>, m: NodeRef, node: NodeRef, key: VertexInfo)
    requires m in ns0 && node in ns0 && key.distance <= ns0[node].key.distance
    requires forall n :: n in ns0 ==> ns0[m].key.distance <= ns0[n].key.distance
    requires Keys(ns) == Keys(ns0)[node := key]
    requires forall i :: 0 <= i < |roots| ==> roots[i] in ns
    requires |roots| > 0 && roots[0] == (if key.distance < ns0[m].key.distance then node else m)
    ensures MinIsLeast(ns, roots)
  {
    forall i | 0 <= i < |roots| ensures ns[roots[0]].key.distance <= ns[roots[i]].key.distance {
      assert Keys(ns)[roots[i]] == (Keys(ns0)[node := key])[roots[i]];
      assert Keys(ns)[roots[0]] == (Keys(ns0)[node := key])[roots[0]];
    }
  }

  /** A parentless node is a root, and the root ring read from it is the
      same ring rotated. */
  lemma RootFirst(ns: Arena, roots: seq<NodeRef>, kids: map<NodeRef, seq<NodeRef>>, rank: map<NodeRef, nat>, bound: nat, node: NodeRef)
      returns (roots': seq<NodeRef>)
    requires Trees(ns, roots, kids, rank, bound) && node in ns && ns[node].parent == null
    ensures Trees(ns, roots', kids, rank, bound) && roots'[0] == node
  {
    assert Live(ns, node);
    var k := IndexOf(roots, node);
    roots' := roots[k..] + roots[..k];
    RingRotate(ns, roots, k);
    Rotated(roots, k);
    RootsReordered(ns, roots, roots', kids, {});
  }

  /** Once `decreaseKey` has cut and moved `minNode`, the result is a heap
      again, of the same size: its first root is the node when the new key
      is below the old minimum, and the old minimum otherwise. */
  lemma DecreasedHeap(ns0: Arena, roots0: seq<NodeRef>, rank0: map<NodeRef, nat>, bound0: nat,
                      ns: Arena, roots: seq<NodeRef>, kids: map<NodeRef, seq<NodeRef>>, rank: map<NodeRef, nat>, bound: nat,
                      m: NodeRef, node: NodeRef, key: VertexInfo)
    requires Covered(ns0, roots0) && Ranked(ns0, rank0, bound0) && Ordered(ns0, null) && MinIsLeast(ns0, roots0)
    requires |roots0| > 0 && roots0[0] == m && node in ns0 && key.distance <= ns0[node].key.distance
    requires Trees(ns, roots, kids, rank, bound) && Keys(ns) == Keys(ns0)[node := key]
    requires roots[0] == (if key.distance < ns0[m].key.distance then node else m)
    ensures Heap(ns, roots, kids, rank, bound, roots[0]) && |ns| == |ns0|
  {
    MinBelowAll(ns0, roots0, rank0, bound0, m);
    forall i | 0 <= i < |roots| ensures roots[i] in ns {
      assert Live(ns, roots[i]);
    }
    NewLeast(ns0, ns, roots, m, node, key);
    SameSize(ns0, ns);
  }

  /** Lines 151-152 of `decreaseKey`, on the forest after the cuts: a node
      whose new key is below the minimum is a root, since its old parent's
      key was no smaller than the minimum, and reading the root ring from
      it gives a heap again. `m` is the old `minNode`. */
  lemma Reminimized(ns0: Arena, roots0: seq<NodeRef>, kids0: map<NodeRef, seq<NodeRef>>, rank: map<NodeRef, nat>, bound: nat,
                    ns: Arena, roots: seq<NodeRef>, kids: map<NodeRef, seq<NodeRef>>, m: NodeRef, node: NodeRef, key: VertexInfo)
      returns (roots': seq<NodeRef>)
    requires Heap(ns0, roots0, kids0, rank, bound, m) && node in ns0 && key.distance <= ns0[node].key.distance
    requires Trees(ns, roots, kids, rank, bound) && roots[0] == m && Keys(ns) == Keys(ns0)[node := key]
    requires ns[node].parent == null || (ns[node].parent in ns0 && ns0[ns[node].parent].key.distance <= key.distance)
    ensures m in ns && node in ns
    ensures (ns[node].key.distance < ns[m].key.distance) == (node != m && key.distance < ns0[m].key.distance)
    ensures |roots'| > 0 && roots'[0] == if key.distance < ns0[m].key.distance then node else m
    ensures Heap(ns, roots', kids, rank, bound, roots'[0]) && |ns| == |ns0|
  {
    assert Keys(ns)[node] == key;
    assert Keys(ns)[m] == (Keys(ns0)[node := key])[m];
    roots' := roots;
    if key.distance < ns0[m].key.distance {
      MinBelowAll(ns0, roots0, rank, bound, m);
      roots' := RootFirst(ns, roots, kids, rank, bound, node);
    }
    DecreasedHeap(ns0, roots0, rank, bound, ns, roots', kids, rank, bound, m, node, key);
  }
}
