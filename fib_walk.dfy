/** The first loop of `consolidate` in FibonacciHeap.h as it is written: it
    follows `x = x->right` from the root that just settled, on the ring
    that `link` has been rewiring. On some heaps that walk reaches a root
    already waiting in the degree table and links it with itself. */
module FibWalk {
  import opened Vertex
  import opened FibRings
  import opened FibForest
  import opened FibSteps
  import opened FibCuts

  /** How the walk ends: back at `minNode`, at a call `link(n, n)`, or
      neither within the fuel (or on an arena that breaks a link's
      preconditions). */
  datatype Walk = Finished | SelfLink(node: NodeRef) | Stuck

  /** Everything `link(high, low)` reads is present. */
  ghost predicate LinkFits(ns: Arena, high: NodeRef, low: NodeRef)
  {
    && high in ns && low in ns && high != low && ns[high].left in ns && ns[high].right in ns
    && var ns1 := Unlinked(ns, high);
       ns1[low].child != null ==> ns1[low].child in ns1 && ns1[ns1[low].child].left in ns1
  }

  /** `minNode` after `removeFromRootList(high)`. */
  function MinAfterRemove(ns: Arena, minNode: NodeRef?, high: NodeRef): NodeRef?
    requires high in ns
  {
    if minNode != high then minNode else if ns[high].right == high then null else ns[high].right
  }

  /** Lines 178-192 as written, with `x` of degree-so-far `d` and table
      `A`: while `A[d]` is set, `x` and `A[d]` are linked the larger key
      below, and `x` is the smaller; once `A[d]` is free `x` takes it and
      the walk moves to `x->right`, stopping when that is `minNode`. */
  ghost function WalkAsWritten(ns: Arena, minNode: NodeRef?, x: NodeRef, d: int, A: map<int, NodeRef>, fuel: nat): (w: Walk)
    ensures w.SelfLink? ==> w.node in ns
    decreases fuel
  {
    if fuel == 0 || x !in ns then Stuck
    else if d in A then
      if A[d] == x then SelfLink(x)
      else if A[d] !in ns then Stuck
      else
        var (high, low) := if ns[x].key.distance > ns[A[d]].key.distance then (x, A[d]) else (A[d], x);
        if !LinkFits(ns, high, low) then Stuck
        else
          var ns' := LinkedUnder(Unlinked(ns, high), high, low);
          assert ns'.Keys == ns.Keys;
          WalkAsWritten(ns', MinAfterRemove(ns, minNode, high), low, d + 1, A - {d}, fuel - 1)
    else
      var next := ns[x].right;
      if next == minNode then Finished
      else if next !in ns then Stuck
      else
        WalkAsWritten(ns, minNode, next, ns[next].degree, A[d := x], fuel - 1)
  }

  function Info(distance: int): VertexInfo
  {
    VertexInfo(0, distance, -1, false)
  }

  /** A root ring `a, b, c` read from `a`, with keys 1, 5 and 3, where `b`
      has the two children `e` and `f`. */
  function Sample(a: NodeRef, b: NodeRef, c: NodeRef, e: NodeRef, f: NodeRef): Arena
  {
    map[a := Node(Info(1), 0, false, null, c, b, null),
        b := Node(Info(5), 2, false, e, a, c, null),
        c := Node(Info(3), 0, false, null, b, a, null),
        e := Node(Info(6), 0, false, null, f, f, b),
        f := Node(Info(7), 0, false, null, e, e, b)]
  }

  /** The sample is a well-formed heap-ordered forest with `minNode` `a`
      at the least key: exactly what `consolidate` is handed by
      `extractMin`. */
  lemma SampleIsHeap(a: NodeRef, b: NodeRef, c: NodeRef, e: NodeRef, f: NodeRef)
    requires a != b && a != c && a != e && a != f && b != c && b != e && b != f && c != e && c != f && e != f
    ensures Trees(Sample(a, b, c, e, f), [a, b, c], map[a := [], b := [e, f], c := [], e := [], f := []],
                  map[a := 1, b := 1, c := 1, e := 0, f := 0], 2)
    ensures Heap(Sample(a, b, c, e, f), [a, b, c], map[a := [], b := [e, f], c := [], e := [], f := []],
                 map[a := 1, b := 1, c := 1, e := 0, f := 0], 2, a)
  {
    SampleForest(a, b, c, e, f);
    SampleOrder(a, b, c, e, f);
    var ns := Sample(a, b, c, e, f);
    assert Step(ns, [a, b, c], 0) && Step(ns, [a, b, c], 1) && Step(ns, [a, b, c], 2);
  }

  /** The parent, child and sibling pointers of the sample agree. */
  lemma SampleForest(a: NodeRef, b: NodeRef, c: NodeRef, e: NodeRef, f: NodeRef)
    requires a != b && a != c && a != e && a != f && b != c && b != e && b != f && c != e && c != f && e != f
    ensures Forest(Sample(a, b, c, e, f), [a, b, c], map[a := [], b := [e, f], c := [], e := [], f := []], {})
  {
    var ns := Sample(a, b, c, e, f);
    var kids := map[a := [], b := [e, f], c := [], e := [], f := []];
    assert Step(ns, [e, f], 0) && Step(ns, [e, f], 1);
    RingEmpty(ns);
    forall n | n in ns && Live(ns, n) ensures Adopted(ns, kids, n) && ChildRing(ns, kids, n) {
    }
  }

  /** The sample's roots are `a`, `b` and `c`, its ranks grow towards the
      roots, and every child's key is above its parent's. */
  lemma SampleOrder(a: NodeRef, b: NodeRef, c: NodeRef, e: NodeRef, f: NodeRef)
    requires a != b && a != c && a != e && a != f && b != c && b != e && b != f && c != e && c != f && e != f
    ensures Covered(Sample(a, b, c, e, f), [a, b, c]) && Ordered(Sample(a, b, c, e, f), null)
    ensures Ranked(Sample(a, b, c, e, f), map[a := 1, b := 1, c := 1, e := 0, f := 0], 2)
  {
  }

  /** On the sample the walk as written visits `a`, then `b`; `c` is linked
      below `a`, which settles at degree 1, and the walk goes on at
      `a->right`, now `b`, still waiting at degree 2: `link(b, b)`. */
  lemma WalkSelfLinks(a: NodeRef, b: NodeRef, c: NodeRef, e: NodeRef, f: NodeRef)
    requires a != b && a != c && a != e && a != f && b != c && b != e && b != f && c != e && c != f && e != f
    ensures WalkAsWritten(Sample(a, b, c, e, f), a, a, 0, map[], 5) == SelfLink(b)
  {
    var ns := Sample(a, b, c, e, f);
    var A1 := map[0 := a];
    var A2 := map[0 := a, 2 := b];
    assert WalkAsWritten(ns, a, a, 0, map[], 5) == WalkAsWritten(ns, a, b, 2, A1, 4);
    assert WalkAsWritten(ns, a, b, 2, A1, 4) == WalkAsWritten(ns, a, c, 0, A2, 3) by {
      assert A1[2 := b] == A2;
    }
    assert LinkFits(ns, c, a);
    var ns1 := LinkedUnder(Unlinked(ns, c), c, a);
    assert ns1[a].right == b && ns1[a].degree == 1 && b in ns1;
    assert WalkAsWritten(ns, a, c, 0, A2, 3) == WalkAsWritten(ns1, a, a, 1, A2 - {0}, 2);
    assert A2 - {0} == map[2 := b];
    assert WalkAsWritten(ns1, a, a, 1, map[2 := b], 2) == WalkAsWritten(ns1, a, b, 2, map[2 := b, 1 := a], 1);
  }
}
