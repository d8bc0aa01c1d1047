/** The whole-heap invariant of FibonacciHeap.h and the facts each of its
    pointer-rewriting steps needs to keep it. */
module FibSteps {
  import opened Vertex
  import opened FibRings
  import opened FibForest

  /** The first listed root holds a least key among the roots. */
  ghost predicate MinIsLeast(ns: Arena, roots: seq<NodeRef>)
  {
    |roots| > 0 ==>
      && roots[0] in ns
      && (forall i :: 0 <= i < |roots| ==> roots[i] in ns && ns[roots[0]].key.distance <= ns[roots[i]].key.distance)
  }

  /** A heap-ordered forest whose root ring is `roots`, read from `m`. */
  ghost predicate Heap(ns: Arena, roots: seq<NodeRef>, kids: map<NodeRef, seq<NodeRef>>, rank: map<NodeRef, nat>, bound: nat, m: NodeRef?)
  {
    && Forest(ns, roots, kids, {}) && Covered(ns, roots) && Ranked(ns, rank, bound) && Ordered(ns, null)
    && Ring(ns, roots)
    && (m == null <==> roots == [])
    && (m != null ==> roots[0] == m)
    && MinIsLeast(ns, roots)
  }

  /** The key stored at each node. */
  ghost function Keys(ns: Arena): (k: map<NodeRef, VertexInfo>)
    ensures k.Keys == ns.Keys
  {
    map n | n in ns :: ns[n].key
  }

  /** The mark of each node. */
  ghost function Marks(ns: Arena): (m: map<NodeRef, bool>)
    ensures m.Keys == ns.Keys
  {
    map n | n in ns :: ns[n].isMarked
  }

  /** Relinking only parentless nodes keeps the forest, its order and its keys. */
  lemma RootsRelinked(ns: Arena, ns': Arena, roots': seq<NodeRef>, kids: map<NodeRef, seq<NodeRef>>, open: set<NodeRef>,
                      rank: map<NodeRef, nat>, bound: nat, S: set<NodeRef>)
    requires Forest(ns, [], kids, open) && Ranked(ns, rank, bound) && Ordered(ns, null) && LinksOnly(ns, ns', S)
    requires forall y :: y in S ==> y in ns && ns[y].parent == null
    requires forall i :: 0 <= i < |roots'| ==> roots'[i] in ns && ns[roots'[i]].parent == null
    ensures Forest(ns', roots', kids, open) && Ranked(ns', rank, bound) && Ordered(ns', null)
    ensures Keys(ns') == Keys(ns)
    ensures forall n :: n in ns ==> ns'[n].parent == ns[n].parent && ns'[n].degree == ns[n].degree
  {
    ForestRelink(ns, ns', [], roots', kids, open, S);
    TreeRelink(ns, ns', S, rank, bound, null);
    forall n | n in ns ensures ns'[n].degree == ns[n].degree {
      assert Live(ns, n);
    }
  }

  /** The same roots listed in another order are still the roots. */
  lemma RootsReordered(ns: Arena, roots: seq<NodeRef>, roots': seq<NodeRef>, kids: map<NodeRef, seq<NodeRef>>, open: set<NodeRef>)
    requires Forest(ns, roots, kids, open) && Covered(ns, roots)
    requires forall y :: y in roots <==> y in roots'
    ensures Forest(ns, roots', kids, open) && Covered(ns, roots')
  {
    forall i | 0 <= i < |roots'| ensures roots'[i] in ns && ns[roots'[i]].parent == null {
      assert roots'[i] in roots;
    }
  }

  /** Rotating a ring to start at `x` lists the same nodes. */
  lemma Rotated(s: seq<NodeRef>, k: int)
    requires 0 <= k <= |s|
    ensures forall y :: y in s <==> y in s[k..] + s[..k]
  {
    assert s == s[..k] + s[k..];
  }

  /** The elements of `Remove(s, x)` are those of `s` other than `x`. */
  lemma RemoveMembers(s: seq<NodeRef>, x: NodeRef)
    requires x in s && Distinct(s)
    ensures forall y :: y in Remove(s, x) <==> y in s && y != x
    ensures Distinct(Remove(s, x))
  {
    var j := IndexOf(s, x);
    var r := Remove(s, x);
    assert r == s[..j] + s[j + 1..];
    assert forall i :: 0 <= i < |r| ==> r[i] == s[if i < j then i else i + 1];
    forall y | y in s && y != x ensures y in r {
      var i :| 0 <= i < |s| && s[i] == y;
      assert i != j;
      assert r[if i < j then i else i - 1] == y;
    }
    forall y | y in r ensures y in s && y != x {
      var i :| 0 <= i < |r| && r[i] == y;
      assert s[if i < j then i else i + 1] == y;
    }
    forall a, b | 0 <= a < b < |r| ensures r[a] != r[b] {
      assert r[a] == s[if a < j then a else a + 1] && r[b] == s[if b < j then b else b + 1];
    }
  }

  /** A forest with no roots has no nodes. */
  lemma EmptyForest(ns: Arena, roots: seq<NodeRef>, rank: map<NodeRef, nat>, bound: nat)
    requires Covered(ns, roots) && Ranked(ns, rank, bound) && Ordered(ns, null) && roots == []
    ensures ns == map[] && Keys(ns) == map[]
  {
    if n :| n in ns {
      RootAbove(ns, roots, rank, bound, n);
      assert false;
    }
  }

  /** `attachToRootList(x)` on a heap-ordered forest: `x` joins the end of
      the root ring, or its front when it holds the new least key, and no
      tree, key or cover changes. */
  lemma AttachRoot(ns: Arena, roots: seq<NodeRef>, kids: map<NodeRef, seq<NodeRef>>, rank: map<NodeRef, nat>, bound: nat,
                   x: NodeRef, R: seq<NodeRef>)
    requires Forest(ns, roots, kids, {}) && Ranked(ns, rank, bound) && Ordered(ns, null) && Ring(ns, roots)
    requires |roots| > 0 && x in ns && x !in roots && ns[x].parent == null
    ensures roots[0] in ns && ns[roots[0]].left in ns
    ensures Forest(Attached(ns, roots[0], x), roots + [x], kids, {}) && Forest(Attached(ns, roots[0], x), [x] + roots, kids, {})
    ensures Ranked(Attached(ns, roots[0], x), rank, bound) && Ordered(Attached(ns, roots[0], x), null)
    ensures Ring(Attached(ns, roots[0], x), roots + [x]) && Ring(Attached(ns, roots[0], x), [x] + roots)
    ensures Keys(Attached(ns, roots[0], x)) == Keys(ns)
    ensures forall n :: n in ns ==> Attached(ns, roots[0], x)[n].parent == ns[n].parent && Attached(ns, roots[0], x)[n].degree == ns[n].degree
    ensures Covered(ns, R) ==> Covered(Attached(ns, roots[0], x), R)
    ensures Covered(ns, roots + [x]) ==> Covered(Attached(ns, roots[0], x), [x] + roots)
    ensures MinIsLeast(ns, roots) && ns[roots[0]].key.distance <= ns[x].key.distance ==> MinIsLeast(Attached(ns, roots[0], x), roots + [x])
    ensures MinIsLeast(ns, roots) && ns[x].key.distance < ns[roots[0]].key.distance ==> MinIsLeast(Attached(ns, roots[0], x), [x] + roots)
  {
    AttachedRing(ns, roots, x);
    var ns' := Attached(ns, roots[0], x);
    var S := {roots[0], roots[|roots| - 1], x};
    RootsRelinked(ns, ns', roots + [x], kids, {}, rank, bound, S);
    ForestRelink(ns, ns', [], [x] + roots, kids, {}, S);
    var s := roots + [x];
    RingRotate(ns', s, |roots|);
    assert s[|roots|..] + s[..|roots|] == [x] + roots;
    if Covered(ns, R) {
      CoveredRelink(ns, ns', S, R, R);
    }
    if Covered(ns, roots + [x]) {
      CoveredRelink(ns, ns', S, roots + [x], [x] + roots);
    }
  }

  /** Keeping every key keeps which root is least. */
  lemma LeastKept(ns: Arena, ns': Arena, roots: seq<NodeRef>, x: NodeRef)
    requires Keys(ns') == Keys(ns) && MinIsLeast(ns, roots) && x in ns && |roots| > 0
    ensures ns'[roots[0]].key.distance <= ns'[x].key.distance <==> ns[roots[0]].key.distance <= ns[x].key.distance
    ensures MinIsLeast(ns', roots)
  {
    forall n | n in ns ensures n in ns' && ns'[n].key == ns[n].key {
      assert Keys(ns')[n] == Keys(ns)[n];
    }
  }

  /** Adding a node outside the roots adds its key and keeps the least root. */
  lemma FreshNode(ns: Arena, roots: seq<NodeRef>, x: NodeRef, key: VertexInfo)
    requires x !in ns && MinIsLeast(ns, roots)
    ensures Keys(ns[x := Singleton(key, x)]) == Keys(ns)[x := key]
    ensures MinIsLeast(ns[x := Singleton(key, x)], roots)
  {
  }

  /** The arena after `insert(key)` allocates `x`: a singleton, then
      attached to the root ring unless the heap was empty. */
  ghost function Inserted(ns: Arena, m: NodeRef?, x: NodeRef, key: VertexInfo): Arena
    requires m != null ==> m in ns && ns[m].left in ns
  {
    if m == null then ns[x := Singleton(key, x)] else Attached(ns[x := Singleton(key, x)], m, x)
  }

  /** Where `x` joins the root ring: alone, in front as the new least key,
      or at the end. */
  ghost function InsertedRoots(ns: Arena, roots: seq<NodeRef>, m: NodeRef?, x: NodeRef, key: VertexInfo): seq<NodeRef>
    requires m != null ==> m in ns
  {
    if m == null then [x] else if key.distance < ns[m].key.distance then [x] + roots else roots + [x]
  }

  /** `insert` keeps the heap, adds exactly `x`'s key and builds `x` as a
      fresh singleton. */
  lemma InsertStep(ns: Arena, roots: seq<NodeRef>, kids: map<NodeRef, seq<NodeRef>>, rank: map<NodeRef, nat>, bound: nat,
                   m: NodeRef?, x: NodeRef, key: VertexInfo)
    requires Heap(ns, roots, kids, rank, bound, m) && x !in ns
    ensures m != null ==> m in ns && ns[m].left in ns
    ensures Heap(Inserted(ns, m, x, key), InsertedRoots(ns, roots, m, x, key), kids[x := []], rank[x := 0], bound + 1,
                 if m == null || key.distance < ns[m].key.distance then x else m)
    ensures Keys(Inserted(ns, m, x, key)) == Keys(ns)[x := key] && |Inserted(ns, m, x, key)| == |ns| + 1
    ensures x in Inserted(ns, m, x, key)
    ensures Inserted(ns, m, x, key)[x] == Singleton(key, x).(left := Inserted(ns, m, x, key)[x].left, right := Inserted(ns, m, x, key)[x].right)
  {
    if m != null {
      LeftOf(ns, roots, 0);
    }
    InsertedHeap(ns, roots, kids, rank, bound, m, x, key);
    InsertedKeys(ns, m, x, key);
    InsertedNode(ns, m, x, key);
  }

  lemma InsertedHeap(ns: Arena, roots: seq<NodeRef>, kids: map<NodeRef, seq<NodeRef>>, rank: map<NodeRef, nat>, bound: nat,
                     m: NodeRef?, x: NodeRef, key: VertexInfo)
    requires Heap(ns, roots, kids, rank, bound, m) && x !in ns
    requires m != null ==> m in ns && ns[m].left in ns
    ensures Heap(Inserted(ns, m, x, key), InsertedRoots(ns, roots, m, x, key), kids[x := []], rank[x := 0], bound + 1,
                 if m == null || key.distance < ns[m].key.distance then x else m)
  {
    FreshNode(ns, roots, x, key);
    AddRoot(ns, roots, kids, rank, bound, x, key);
    var ns1 := ns[x := Singleton(key, x)];
    if m == null {
      RingSingle(ns1, x);
    } else {
      AttachRoot(ns1, roots, kids[x := []], rank[x := 0], bound + 1, x, roots + [x]);
    }
  }

  lemma InsertedKeys(ns: Arena, m: NodeRef?, x: NodeRef, key: VertexInfo)
    requires x !in ns && (m != null ==> m in ns && ns[m].left in ns)
    ensures Keys(Inserted(ns, m, x, key)) == Keys(ns)[x := key] && |Inserted(ns, m, x, key)| == |ns| + 1
  {
    AddedKeys(ns, x, key);
    if m != null {
      AttachedKeys(ns[x := Singleton(key, x)], m, x);
    }
  }

  /** A new node adds its key and nothing else. */
  lemma AddedKeys(ns: Arena, x: NodeRef, key: VertexInfo)
    requires x !in ns
    ensures Keys(ns[x := Singleton(key, x)]) == Keys(ns)[x := key] && |ns[x := Singleton(key, x)]| == |ns| + 1
  {
  }

  /** `attachToRootList` changes links only, never a key. */
  lemma AttachedKeys(ns: Arena, m: NodeRef, x: NodeRef)
    requires m in ns && x in ns && ns[m].left in ns
    ensures Keys(Attached(ns, m, x)) == Keys(ns)
  {
    var r := Attached(ns, m, x);
    forall n | n in ns ensures Keys(r)[n] == Keys(ns)[n] {
      assert r[n].key == ns[n].key;
    }
  }

  /** Attaching the new node changes only its links. */
  lemma InsertedNode(ns: Arena, m: NodeRef?, x: NodeRef, key: VertexInfo)
    requires x !in ns && (m != null ==> m in ns && ns[m].left in ns)
    ensures x in Inserted(ns, m, x, key)
    ensures Inserted(ns, m, x, key)[x] == Singleton(key, x).(left := Inserted(ns, m, x, key)[x].left, right := Inserted(ns, m, x, key)[x].right)
  {
    if m != null {
      assert ns[m].left != x && m != x;
    }
  }
  /** Where the root ring of `union_` starts: at the other heap's minimum
      when its key is the smaller, otherwise at this heap's. */
  ghost function UnionRoots(na: Arena, ra: seq<NodeRef>, nb: Arena, rb: seq<NodeRef>, ma: NodeRef, mb: NodeRef): seq<NodeRef>
    requires ma in na && mb in nb
  {
    if nb[mb].key.distance < na[ma].key.distance then rb + ra else ra + rb
  }

  /** Splicing the two root rings of a forest keeps it, read from either
      ring's first node. */
  lemma SplicedForest(ns: Arena, ra: seq<NodeRef>, rb: seq<NodeRef>, kids: map<NodeRef, seq<NodeRef>>, rank: map<NodeRef, nat>, bound: nat)
    requires Forest(ns, ra + rb, kids, {}) && Covered(ns, ra + rb) && Ranked(ns, rank, bound) && Ordered(ns, null)
    requires Ring(ns, ra) && Ring(ns, rb) && |ra| > 0 && |rb| > 0
    requires forall i, j :: 0 <= i < |ra| && 0 <= j < |rb| ==> ra[i] != rb[j]
    ensures ra[0] in ns && rb[0] in ns && ns[ra[0]].left in ns && ns[rb[0]].left in ns
    ensures Forest(Spliced(ns, ra[0], rb[0]), ra + rb, kids, {}) && Forest(Spliced(ns, ra[0], rb[0]), rb + ra, kids, {})
    ensures Covered(Spliced(ns, ra[0], rb[0]), ra + rb) && Covered(Spliced(ns, ra[0], rb[0]), rb + ra)
    ensures Ranked(Spliced(ns, ra[0], rb[0]), rank, bound) && Ordered(Spliced(ns, ra[0], rb[0]), null)
    ensures Ring(Spliced(ns, ra[0], rb[0]), ra + rb) && Ring(Spliced(ns, ra[0], rb[0]), rb + ra)
    ensures Keys(Spliced(ns, ra[0], rb[0])) == Keys(ns)
  {
    SplicedRing(ns, ra, rb);
    var ns' := Spliced(ns, ra[0], rb[0]);
    var S := {ra[0], ra[|ra| - 1], rb[0], rb[|rb| - 1]};
    RingRotate(ns', ra + rb, |ra|);
    assert (ra + rb)[|ra|..] + (ra + rb)[..|ra|] == rb + ra;
    forall i | 0 <= i < |rb + ra| ensures (rb + ra)[i] in ns && ns[(rb + ra)[i]].parent == null {
      assert (rb + ra)[i] in ra + rb;
    }
    RootsRelinked(ns, ns', ra + rb, kids, {}, rank, bound, S);
    ForestRelink(ns, ns', [], rb + ra, kids, {}, S);
    CoveredRelink(ns, ns', S, ra + rb, ra + rb);
    CoveredRelink(ns, ns', S, ra + rb, rb + ra);
  }

  /** Lines 93-99 of `union_` on two disjoint non-empty heaps: one heap
      holding both forests, whose root ring is both rings spliced. */
  lemma UnionStep(na: Arena, ra: seq<NodeRef>, ka: map<NodeRef, seq<NodeRef>>, rka: map<NodeRef, nat>, ba: nat, ma: NodeRef,
                  nb: Arena, rb: seq<NodeRef>, kb: map<NodeRef, seq<NodeRef>>, rkb: map<NodeRef, nat>, bb: nat, mb: NodeRef)
    requires Heap(na, ra, ka, rka, ba, ma) && Heap(nb, rb, kb, rkb, bb, mb) && na.Keys !! nb.Keys
    ensures ma in na && mb in nb && (na + nb)[ma].left in na + nb && (na + nb)[mb].left in na + nb
    ensures Heap(Spliced(na + nb, ma, mb), UnionRoots(na, ra, nb, rb, ma, mb), ka + kb, rka + rkb, ba + bb,
                 if nb[mb].key.distance < na[ma].key.distance then mb else ma)
    ensures Keys(Spliced(na + nb, ma, mb)) == Keys(na) + Keys(nb)
    ensures |Spliced(na + nb, ma, mb)| == |na| + |nb|
  {
    var ns := na + nb;
    KeysMerged(na, nb);
    SizeMerged(na, nb);
    MergeForests(na, ra, ka, rka, ba, nb, rb, kb, rkb, bb);
    SplicedForest(ns, ra, rb, ka + kb, rka + rkb, ba + bb);
    MergedLeast(na, ra, nb, rb, Spliced(ns, ma, mb));
    SameSize(ns, Spliced(ns, ma, mb));
  }

  /** Disjoint arenas side by side hold the keys of both. */
  lemma KeysMerged(na: Arena, nb: Arena)
    requires na.Keys !! nb.Keys
    ensures Keys(na + nb) == Keys(na) + Keys(nb)
  {
    var k := Keys(na + nb);
    forall n | n in k ensures k[n] == (Keys(na) + Keys(nb))[n] {
      if n in nb {
        assert k[n] == nb[n].key == Keys(nb)[n];
      } else {
        assert k[n] == na[n].key == Keys(na)[n];
      }
    }
  }

  /** Disjoint arenas side by side hold as many nodes as both. */
  lemma SizeMerged(na: Arena, nb: Arena)
    requires na.Keys !! nb.Keys
    ensures |na + nb| == |na| + |nb|
  {
    assert (na + nb).Keys == na.Keys + nb.Keys;
  }

  /** Arenas over the same handles have the same size. */
  lemma SameSize(ns: Arena, ns': Arena)
    requires ns'.Keys == ns.Keys
    ensures |ns'| == |ns|
  {
    assert |ns'.Keys| == |ns.Keys|;
  }

  /** The smaller of two least roots is least among both root lists. */
  lemma MergedLeast(na: Arena, ra: seq<NodeRef>, nb: Arena, rb: seq<NodeRef>, ns: Arena)
    requires MinIsLeast(na, ra) && MinIsLeast(nb, rb) && |ra| > 0 && |rb| > 0
    requires na.Keys !! nb.Keys && Keys(ns) == Keys(na) + Keys(nb)
    ensures MinIsLeast(ns, UnionRoots(na, ra, nb, rb, ra[0], rb[0]))
  {
    var roots' := UnionRoots(na, ra, nb, rb, ra[0], rb[0]);
    forall i | 0 <= i < |roots'| ensures roots'[i] in ns && ns[roots'[0]].key.distance <= ns[roots'[i]].key.distance {
      assert Keys(ns)[roots'[0]] == (Keys(na) + Keys(nb))[roots'[0]];
      assert Keys(ns)[roots'[i]] == (Keys(na) + Keys(nb))[roots'[i]];
      assert roots'[i] in ra + rb;
    }
  }
}
