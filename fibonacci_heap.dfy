/** The Fibonacci heap of FibonacciHeap.h: a min-priority queue over
    `VertexInfo` records ordered by `distance`, kept as a forest of
    heap-ordered trees whose sibling sets are circular rings.

    The heap object is a value: each operation takes the heap and returns
    the heap it leaves behind. Its arena maps every node handle the heap
    owns to that node's fields. */
module FibonacciHeaps {
  import opened Vertex
  import opened FibRings
  import opened FibForest
  import opened FibSteps
  import opened FibCuts
  import opened FibExtract
  import opened FibConsolidate

  /** The fields of `FibonacciHeap`, with the nodes its pointers reach. */
  datatype FibHeap = FibHeap(nodes: Arena, minNode: NodeRef?, numNodes: int)

  /** The heap's pointers describe a heap-ordered forest: `roots` is the
      root ring read from `minNode`, `kids[n]` the child ring read from
      `n.child`, and `rank` places parents above children below `bound`,
      which shows the forest has no cycle. `numNodes` counts the nodes. */
  ghost predicate Valid(h: FibHeap, roots: seq<NodeRef>, kids: map<NodeRef, seq<NodeRef>>, rank: map<NodeRef, nat>, bound: nat)
  {
    Heap(h.nodes, roots, kids, rank, bound, h.minNode) && h.numNodes == |h.nodes|
  }

  /** The key stored at each node the heap holds. */
  ghost function Contents(h: FibHeap): map<NodeRef, VertexInfo>
  {
    Keys(h.nodes)
  }

  /** `FibonacciHeap()`: no nodes. */
  function EmptyHeap(): (h: FibHeap)
    ensures Valid(h, [], map[], map[], 0) && Contents(h) == map[]
    ensures h.minNode == null && h.numNodes == 0
  {
    RingEmpty(map[]);
    FibHeap(map[], null, 0)
  }

  /** `attachToRootList(x)`: `x` is linked in just left of `minNode`. */
  method AttachToRootList(ns: Arena, minNode: NodeRef, x: NodeRef) returns (ns': Arena)
    requires minNode in ns && x in ns && ns[minNode].left in ns
    ensures ns' == Attached(ns, minNode, x)
  {
    var last := ns[minNode].left;
    ns' := ns[last := ns[last].(right := x)];
    ns' := ns'[x := ns'[x].(right := minNode)];
    ns' := ns'[x := ns'[x].(left := ns'[minNode].left)];
    ns' := ns'[minNode := ns'[minNode].(left := x)];
  }

  /** `removeFromRootList(node)`: `node`'s neighbours are linked to each
      other, and `minNode` moves right off `node`, or to null when `node`
      was alone. */
  method RemoveFromRootList(ns: Arena, minNode: NodeRef?, node: NodeRef) returns (ns': Arena, minNode': NodeRef?)
    requires node in ns && ns[node].left in ns && ns[node].right in ns
    ensures ns' == Unlinked(ns, node)
    ensures minNode' == if minNode != node then minNode else if ns[node].right == node then null else ns[node].right
  {
    minNode' := minNode;
    if node == minNode' {
      minNode' := ns[node].right;
      if node == minNode' {
        minNode' := null;
      }
    }
    ns' := ns[ns[node].left := ns[ns[node].left].(right := ns[node].right)];
    ns' := ns'[ns'[node].right := ns'[ns'[node].right].(left := ns'[node].left)];
  }

  /** `insert(key)` allocating the node `x`: a singleton root holding `key`,
      which becomes `minNode` iff the heap was empty or `key` is below the
      minimum. */
  method Insert(h: FibHeap, ghost roots: seq<NodeRef>, ghost kids: map<NodeRef, seq<NodeRef>>, ghost rank: map<NodeRef, nat>, ghost bound: nat,
                key: VertexInfo, x: NodeRef)
      returns (h': FibHeap, ghost roots': seq<NodeRef>, ghost kids': map<NodeRef, seq<NodeRef>>, ghost rank': map<NodeRef, nat>, ghost bound': nat)
    requires Valid(h, roots, kids, rank, bound) && x !in h.nodes
    ensures Valid(h', roots', kids', rank', bound')
    ensures Contents(h') == Contents(h)[x := key] && h'.numNodes == h.numNodes + 1
    ensures h'.nodes[x].degree == 0 && !h'.nodes[x].isMarked && h'.nodes[x].child == null && h'.nodes[x].parent == null
    ensures h.minNode == null ==> h'.nodes[x].left == x && h'.nodes[x].right == x
    ensures h'.minNode == if h.minNode == null || key.distance < h.nodes[h.minNode].key.distance then x else h.minNode
  {
    InsertStep(h.nodes, roots, kids, rank, bound, h.minNode, x, key);
    roots', kids', rank', bound' := InsertedRoots(h.nodes, roots, h.minNode, x, key), kids[x := []], rank[x := 0], bound + 1;
    var ns, m := h.nodes[x := Singleton(key, x)], h.minNode;
    if m == null {
      m := x;
    } else {
      ns := AttachToRootList(ns, m, x);
      if key.distance < ns[m].key.distance {
        m := x;
      }
    }
    h' := FibHeap(ns, m, h.numNodes + 1);
  }

  /** Lines 93-97 of `union_`: the ring read from `b` is spliced in just
      left of `a`. */
  method SpliceRings(ns: Arena, a: NodeRef, b: NodeRef) returns (ns': Arena)
    requires a in ns && b in ns && ns[a].left in ns && ns[b].left in ns
    ensures ns' == Spliced(ns, a, b)
  {
    var lastNode := ns[a].left;
    ns' := ns[a := ns[a].(left := ns[b].left)];
    ns' := ns'[ns'[b].left := ns'[ns'[b].left].(right := a)];
    ns' := ns'[b := ns'[b].(left := lastNode)];
    ns' := ns'[lastNode := ns'[lastNode].(right := b)];
  }

  /** `union_(other)` on two heaps with no node in common: this heap takes
      over `other`'s nodes, its root ring spliced in just left of `minNode`,
      and `other` is left empty. An empty `other` changes nothing. */
  method Union(h: FibHeap, ghost roots: seq<NodeRef>, ghost kids: map<NodeRef, seq<NodeRef>>, ghost rank: map<NodeRef, nat>, ghost bound: nat,
               other: FibHeap, ghost roots2: seq<NodeRef>, ghost kids2: map<NodeRef, seq<NodeRef>>, ghost rank2: map<NodeRef, nat>, ghost bound2: nat)
      returns (h': FibHeap, ghost roots': seq<NodeRef>, ghost kids': map<NodeRef, seq<NodeRef>>, ghost rank': map<NodeRef, nat>, ghost bound': nat, other': FibHeap)
    requires Valid(h, roots, kids, rank, bound) && Valid(other, roots2, kids2, rank2, bound2) && h.nodes.Keys !! other.nodes.Keys
    ensures Valid(h', roots', kids', rank', bound') && Valid(other', [], map[], map[], 0)
    ensures other.minNode == null ==> h' == h
    ensures Contents(h') == Contents(h) + Contents(other) && h'.numNodes == h.numNodes + other.numNodes
    ensures h'.minNode == if other.minNode == null then h.minNode
                          else if h.minNode == null || other.nodes[other.minNode].key.distance < h.nodes[h.minNode].key.distance then other.minNode
                          else h.minNode
    ensures other'.minNode == null && other'.numNodes == 0 && Contents(other') == map[]
  {
    other' := EmptyHeap();
    if other.minNode == null {
      EmptyForest(other.nodes, roots2, rank2, bound2);
      assert Contents(h) + map[] == Contents(h);
      return h, roots, kids, rank, bound, other';
    }
    if h.minNode == null {
      IntoEmpty(h, roots, kids, rank, bound, other, roots2, kids2, rank2, bound2);
      h' := FibHeap(h.nodes + other.nodes, other.minNode, h.numNodes + other.numNodes);
      roots', kids', rank', bound' := roots2, kids2, rank2, bound2;
    } else {
      h', roots', kids', rank', bound' := SpliceHeaps(h, roots, kids, rank, bound, other, roots2, kids2, rank2, bound2);
    }
  }

  /** Lines 89-90 of `union_`: an empty heap takes over `other` as it is. */
  lemma IntoEmpty(h: FibHeap, roots: seq<NodeRef>, kids: map<NodeRef, seq<NodeRef>>, rank: map<NodeRef, nat>, bound: nat,
                  other: FibHeap, roots2: seq<NodeRef>, kids2: map<NodeRef, seq<NodeRef>>, rank2: map<NodeRef, nat>, bound2: nat)
    requires Valid(h, roots, kids, rank, bound) && Valid(other, roots2, kids2, rank2, bound2) && h.minNode == null
    ensures var h' := FibHeap(h.nodes + other.nodes, other.minNode, h.numNodes + other.numNodes);
            Valid(h', roots2, kids2, rank2, bound2) && Contents(h') == Contents(h) + Contents(other)
  {
    EmptyForest(h.nodes, roots, rank, bound);
    assert map[] + Contents(other) == Contents(other);
    assert map[] + other.nodes == other.nodes;
  }

  /** Lines 92-99 of `union_`, when both heaps hold nodes: the two root
      rings become one, and `minNode` moves to `other`'s minimum when that
      is smaller. */
  method SpliceHeaps(h: FibHeap, ghost roots: seq<NodeRef>, ghost kids: map<NodeRef, seq<NodeRef>>, ghost rank: map<NodeRef, nat>, ghost bound: nat,
                     other: FibHeap, ghost roots2: seq<NodeRef>, ghost kids2: map<NodeRef, seq<NodeRef>>, ghost rank2: map<NodeRef, nat>, ghost bound2: nat)
      returns (h': FibHeap, ghost roots': seq<NodeRef>, ghost kids': map<NodeRef, seq<NodeRef>>, ghost rank': map<NodeRef, nat>, ghost bound': nat)
    requires Valid(h, roots, kids, rank, bound) && Valid(other, roots2, kids2, rank2, bound2) && h.nodes.Keys !! other.nodes.Keys
    requires h.minNode != null && other.minNode != null
    ensures Valid(h', roots', kids', rank', bound')
    ensures Contents(h') == Contents(h) + Contents(other) && h'.numNodes == h.numNodes + other.numNodes
    ensures h'.minNode == if other.nodes[other.minNode].key.distance < h.nodes[h.minNode].key.distance then other.minNode else h.minNode
  {
    var m: NodeRef := h.minNode;
    UnionStep(h.nodes, roots, kids, rank, bound, m, other.nodes, roots2, kids2, rank2, bound2, other.minNode);
    var ns := SpliceRings(h.nodes + other.nodes, m, other.minNode);
    roots', kids', rank', bound' := UnionRoots(h.nodes, roots, other.nodes, roots2, m, other.minNode), kids + kids2, rank + rank2, bound + bound2;
    if other.nodes[other.minNode].key.distance < h.nodes[m].key.distance {
      m := other.minNode;
    }
    h' := FibHeap(ns, m, h.numNodes + other.numNodes);
  }

  /** `minimum()`: a node with the least key, or null on an empty heap. */
  function Minimum(h: FibHeap, ghost roots: seq<NodeRef>, ghost kids: map<NodeRef, seq<NodeRef>>, ghost rank: map<NodeRef, nat>, ghost bound: nat): (m: NodeRef?)
    requires Valid(h, roots, kids, rank, bound)
    ensures m == null <==> Contents(h) == map[]
    ensures m != null ==> m in h.nodes && forall n :: n in h.nodes ==> h.nodes[m].key.distance <= h.nodes[n].key.distance
  {
    if h.minNode == null then
      EmptyForest(h.nodes, roots, rank, bound);
      null
    else
      MinBelowAll(h.nodes, roots, rank, bound, h.minNode);
      h.minNode
  }

  /** `isEmpty()`: `numNodes == 0`, which holds iff the heap holds nothing. */
  function IsEmpty(h: FibHeap, ghost roots: seq<NodeRef>, ghost kids: map<NodeRef, seq<NodeRef>>, ghost rank: map<NodeRef, nat>, ghost bound: nat): (b: bool)
    requires Valid(h, roots, kids, rank, bound)
    ensures b <==> Contents(h) == map[]
  {
    assert Contents(h).Keys == h.nodes.Keys;
    h.numNodes == 0
  }

  /** `decreaseKey(node, key)`: `invalid_argument`, with nothing changed,
      when `key` is above the node's key. Otherwise the node holds `key`,
      is cut loose to the root ring when `key` is below its parent's, and
      becomes `minNode` when `key` is below the minimum. */
  method DecreaseKey(h: FibHeap, ghost roots: seq<NodeRef>, ghost kids: map<NodeRef, seq<NodeRef>>, ghost rank: map<NodeRef, nat>, ghost bound: nat,
                     node: NodeRef, key: VertexInfo)
      returns (r: Outcome, h': FibHeap, ghost roots': seq<NodeRef>, ghost kids': map<NodeRef, seq<NodeRef>>, ghost rank': map<NodeRef, nat>, ghost bound': nat)
    requires Valid(h, roots, kids, rank, bound) && node in h.nodes
    ensures Valid(h', roots', kids', rank', bound')
    ensures r.Fail? <==> h.nodes[node].key.distance < key.distance
    ensures r.Fail? ==> r.error == InvalidArgument && h' == h
    ensures r.Pass? ==> Contents(h') == Contents(h)[node := key] && h'.numNodes == h.numNodes
    ensures r.Pass? ==> var p := h.nodes[node].parent;
                        h'.nodes[node].parent == if p != null && p in h.nodes && key.distance < h.nodes[p].key.distance then null else p
    ensures r.Pass? ==> h.minNode != null && h.minNode in h.nodes &&
                        h'.minNode == if key.distance < h.nodes[h.minNode].key.distance then node else h.minNode
  {
    if h.nodes[node].key.distance < key.distance {
      return Fail(InvalidArgument), h, roots, kids, rank, bound;
    }
    if roots == [] {
      EmptyForest(h.nodes, roots, rank, bound);
      assert false;
    }
    var m: NodeRef := h.minNode;
    Rekeyed(h.nodes, roots, kids, rank, bound, node, key);
    var ns := h.nodes[node := h.nodes[node].(key := key)];
    ghost var rts, kds;
    ghost var path;
    ns, rts, kds, path := CutIfBelowParent(ns, roots, kids, rank, bound, m, node);
    roots' := Reminimized(h.nodes, roots, kids, rank, bound, ns, rts, kds, m, node, key);
    if ns[node].key.distance < ns[m].key.distance {
      m := node;
    }
    return Pass, FibHeap(ns, m, h.numNodes), roots', kds, rank, bound;
  }

  /** `cut(node, parent)`, with `minNode` the heap's: `node` leaves its
      parent's child ring and joins the root ring, unmarked. */
  method Cut(ns: Arena, minNode: NodeRef, node: NodeRef, parent: NodeRef) returns (ns': Arena)
    requires node in ns && parent in ns && minNode in ns && ns[node].left in ns && ns[node].right in ns
    requires Detached(ns, node, parent)[minNode].left in ns
    ensures ns' == CutOut(ns, node, parent, minNode)
  {
    ns' := ns;
    if node == ns'[node].right {
      ns' := ns'[parent := ns'[parent].(child := null)];
    } else {
      ns' := ns'[ns'[node].left := ns'[ns'[node].left].(right := ns'[node].right)];
      ns' := ns'[ns'[node].right := ns'[ns'[node].right].(left := ns'[node].left)];
      if ns'[parent].child == node {
        ns' := ns'[parent := ns'[parent].(child := ns'[node].right)];
      }
    }
    ns' := ns'[parent := ns'[parent].(degree := ns'[parent].degree - 1)];
    ns' := AttachToRootList(ns', minNode, node);
    ns' := ns'[node := ns'[node].(parent := null)];
    ns' := ns'[node := ns'[node].(isMarked := false)];
  }

  /** `cascadingCut(node)`, with `minNode` the heap's: a root is left alone,
      an unmarked child is marked, and a marked child is cut and the walk
      goes on at its parent. The ghost `path` is that walk: `Cascade` says
      what happens to each node on it, and every other node keeps its
      parent and mark. The forest stays heap-ordered, no key changes, and
      only nodes with a parent get marked. */
  method CascadingCut(ns: Arena, ghost roots: seq<NodeRef>, ghost kids: map<NodeRef, seq<NodeRef>>, ghost rank: map<NodeRef, nat>, ghost bound: nat,
                      minNode: NodeRef, node: NodeRef)
      returns (ns': Arena, ghost roots': seq<NodeRef>, ghost kids': map<NodeRef, seq<NodeRef>>, ghost path: seq<NodeRef>)
    requires Trees(ns, roots, kids, rank, bound) && roots[0] == minNode && node in ns
    ensures Trees(ns', roots', kids', rank, bound) && roots'[0] == minNode && Keys(ns') == Keys(ns)
    ensures ns[node].parent == null ==> ns' == ns
    ensures ns[node].parent != null && !ns[node].isMarked ==> ns' == ns[node := ns[node].(isMarked := true)]
    ensures ns[node].parent != null && ns[node].isMarked ==> ns'[node].parent == null && !ns'[node].isMarked
    ensures Cascade(ns, ns', path) && path[0] == node
    ensures forall n :: n in ns && n !in path ==> ns'[n].parent == ns[n].parent && ns'[n].isMarked == ns[n].isMarked
    ensures forall i :: 0 <= i < |path| ==> path[i] in rank && rank[node] <= rank[path[i]]
    ensures forall n :: n in ns && ns[n].parent == null ==> ns'[n].parent == null && ns'[n].isMarked == ns[n].isMarked
    ensures forall n :: n in ns && ns'[n].isMarked && !ns[n].isMarked ==> ns'[n].parent != null
    decreases bound - rank[node], 1
  {
    var z := ns[node].parent;
    if z == null {
      return ns, roots, kids, [node];
    }
    if !ns[node].isMarked {
      Marked(ns, roots, kids, rank, bound, node);
      return ns[node := ns[node].(isMarked := true)], roots, kids, [node];
    }
    ns', roots', kids', path := CutAndCascade(ns, roots, kids, rank, bound, minNode, node);
  }

  /** The `else` branch of `cascadingCut`: the marked child `node` is cut
      from its parent and the walk goes on at that parent, so `path` is
      `node` followed by the parent's walk. */
  method CutAndCascade(ns: Arena, ghost roots: seq<NodeRef>, ghost kids: map<NodeRef, seq<NodeRef>>, ghost rank: map<NodeRef, nat>, ghost bound: nat,
                       minNode: NodeRef, node: NodeRef)
      returns (ns': Arena, ghost roots': seq<NodeRef>, ghost kids': map<NodeRef, seq<NodeRef>>, ghost path: seq<NodeRef>)
    requires Trees(ns, roots, kids, rank, bound) && roots[0] == minNode && node in ns
    requires ns[node].parent != null && ns[node].isMarked
    ensures Trees(ns', roots', kids', rank, bound) && roots'[0] == minNode && Keys(ns') == Keys(ns)
    ensures ns'[node].parent == null && !ns'[node].isMarked
    ensures Cascade(ns, ns', path) && path[0] == node && |path| > 1 && path[1] == ns[node].parent
    ensures forall n :: n in ns && n !in path ==> ns'[n].parent == ns[n].parent && ns'[n].isMarked == ns[n].isMarked
    ensures forall i :: 0 <= i < |path| ==> path[i] in rank && rank[node] <= rank[path[i]]
    ensures forall n :: n in ns && ns[n].parent == null ==> ns'[n].parent == null && ns'[n].isMarked == ns[n].isMarked
    ensures forall n :: n in ns && ns'[n].isMarked && !ns[n].isMarked ==> ns'[n].parent != null
    decreases bound - rank[node], 0
  {
    var z := ns[node].parent;
    assert Live(ns, node);
    RankBelow(ns, rank, bound, node);
    CutStep(ns, roots, kids, rank, bound, node, z);
    var ns1 := Cut(ns, minNode, node, z);
    ghost var up;
    ns', roots', kids', up := CascadingCut(ns1, roots + [node], kids[z := Remove(kids[z], node)], rank, bound, minNode, z);
    Climbing(rank, node, up);
    CascadeExtended(ns, ns1, ns', node, up);
    path := [node] + up;
    CascadeMarks(ns, ns', path);
  }

  /** Lines 145-150 of `decreaseKey`, once `node` holds its new key: when
      that key is below its parent's, `node` is cut loose and the parent
      goes through `cascadingCut` along the ghost walk `path`; otherwise
      nothing changes. The forest is heap-ordered afterwards. */
  method CutIfBelowParent(ns: Arena, ghost roots: seq<NodeRef>, ghost kids: map<NodeRef, seq<NodeRef>>, ghost rank: map<NodeRef, nat>, ghost bound: nat,
                          minNode: NodeRef, node: NodeRef)
      returns (ns': Arena, ghost roots': seq<NodeRef>, ghost kids': map<NodeRef, seq<NodeRef>>, ghost path: seq<NodeRef>)
    requires Forest(ns, roots, kids, {}) && Covered(ns, roots) && Ranked(ns, rank, bound) && Ordered(ns, node) && Ring(ns, roots)
    requires |roots| > 0 && roots[0] == minNode && node in ns
    requires ns[node].parent != null ==> ns[node].parent in ns
    ensures Trees(ns', roots', kids', rank, bound) && roots'[0] == minNode && Keys(ns') == Keys(ns)
    ensures var p := ns[node].parent;
            ns'[node].parent == if p != null && ns[node].key.distance < ns[p].key.distance then null else p
    ensures BelowParent(ns, node) ==> !ns'[node].isMarked && Cascade(ns, ns', path) && path[0] == ns[node].parent
    ensures BelowParent(ns, node) ==>
              forall n :: n in ns && n != node && n !in path ==> ns'[n].parent == ns[n].parent && ns'[n].isMarked == ns[n].isMarked
    ensures !BelowParent(ns, node) ==> ns' == ns
  {
    var parent := ns[node].parent;
    if parent != null && ns[node].key.distance < ns[parent].key.distance {
      CutStep(ns, roots, kids, rank, bound, node, parent);
      assert Live(ns, node);
      ns' := Cut(ns, minNode, node, parent);
      ghost var ns1 := ns';
      roots', kids' := roots + [node], kids[parent := Remove(kids[parent], node)];
      ns', roots', kids', path := CascadingCut(ns', roots', kids', rank, bound, minNode, parent);
      RankBelow(ns, rank, bound, node);
      Climbing(rank, node, path);
      CascadeCut(ns, ns1, ns', node, path);
    } else {
      OrderedAt(ns, node);
      ns', roots', kids', path := ns, roots, kids, [];
    }
  }

  /** Lines 113-126 of `extractMin`: every child of the minimum `z` loses
      its parent and is attached to the root ring, and `z.child` is
      cleared. No mark changes, so a marked child becomes a marked root. */
  method PromoteChildren(ns: Arena, ghost roots: seq<NodeRef>, ghost kids: map<NodeRef, seq<NodeRef>>, ghost rank: map<NodeRef, nat>, ghost bound: nat,
                         z: NodeRef)
      returns (ns': Arena)
    requires Heap(ns, roots, kids, rank, bound, z)
    ensures z in kids && Promoted(ns', roots + kids[z], kids[z := []], rank, bound, z) && Keys(ns') == Keys(ns)
    ensures Marks(ns') == Marks(ns)
  {
    PromoteStart(ns, roots, kids, rank, bound, z);
    ns' := ns;
    var child := ns[z].child;
    if child != null {
      var x := child;
      ghost var i := 0;
      while true
        invariant Promoting(ns, ns', roots, kids, rank, bound, z, i) && i < |kids[z]| && x == kids[z][i]
        invariant Marks(ns') == Marks(ns)
        decreases |kids[z]| - i
      {
        PromoteTurn(ns, ns', roots, kids, rank, bound, z, i);
        PromotedMarks(ns', z, x);
        var next := ns'[x].right;
        ns' := ns'[x := ns'[x].(parent := null)];
        ns' := AttachToRootList(ns', z, x);
        x := next;
        i := i + 1;
        if x == child {
          break;
        }
      }
      PromoteEnd(ns, ns', roots, kids, rank, bound, z);
      PromotedMarks(ns', z, z);
      ns' := ns'[z := ns'[z].(child := null)];
    } else {
      PromoteEnd(ns, ns', roots, kids, rank, bound, z);
      assert ns'[z := ns'[z].(child := null)] == ns';
    }
  }

  /** The roots of the ring read from `minNode` in `right` order: the walk
      `consolidate` means to make, taken before any link rewires it. */
  method RootList(ns: Arena, ghost roots: seq<NodeRef>, minNode: NodeRef) returns (W: seq<NodeRef>)
    requires Ring(ns, roots) && |roots| > 0 && roots[0] == minNode
    ensures W == roots
  {
    W := [minNode];
    RightOf(ns, roots, 0);
    var x := ns[minNode].right;
    while x != minNode
      invariant 1 <= |W| <= |roots| && W == roots[..|W|] && x == roots[Next(|W| - 1, |roots|)]
      decreases |roots| - |W|
    {
      W := W + [x];
      RightOf(ns, roots, |W| - 1);
      x := ns[x].right;
    }
  }

  /** `link(high, low)`: `high` leaves the root ring, with `minNode` moved
      off it by `removeFromRootList`, and becomes `low`'s first child;
      `low`'s degree grows by one and `high` is unmarked. */
  method Link(ns: Arena, minNode: NodeRef?, high: NodeRef, low: NodeRef) returns (ns': Arena, minNode': NodeRef?)
    requires high in ns && low in ns && high != low && ns[high].left in ns && ns[high].right in ns
    requires var ns1 := Unlinked(ns, high); ns1[low].child != null ==> ns1[low].child in ns1 && ns1[ns1[low].child].left in ns1
    ensures ns' == LinkedUnder(Unlinked(ns, high), high, low)
    ensures minNode' == if minNode != high then minNode else if ns[high].right == high then null else ns[high].right
  {
    ns', minNode' := RemoveFromRootList(ns, minNode, high);
    ns' := ns'[high := ns'[high].(parent := low)];
    if ns'[low].child == null {
      ns' := ns'[low := ns'[low].(child := high)];
      ns' := ns'[high := ns'[high].(left := high)];
      ns' := ns'[high := ns'[high].(right := high)];
    } else {
      var c := ns'[low].child;
      ns' := ns'[high := ns'[high].(left := ns'[c].left)];
      ns' := ns'[high := ns'[high].(right := c)];
      ns' := ns'[c := ns'[c].(left := high)];
      ns' := ns'[ns'[high].left := ns'[ns'[high].left].(right := high)];
      ns' := ns'[low := ns'[low].(child := high)];
    }
    ns' := ns'[low := ns'[low].(degree := ns'[low].degree + 1)];
    ns' := ns'[high := ns'[high].(isMarked := false)];
  }

  /** `extractMin()`: `out_of_range`, with nothing changed, on an empty
      heap. Otherwise the key of `minNode`, a least key of the heap, is
      returned; that node is gone, the others keep their keys, the
      children of the old minimum have joined the roots and, when any root
      is left, `consolidate` has rebuilt the root ring. */
  method ExtractMin(h: FibHeap, ghost roots: seq<NodeRef>, ghost kids: map<NodeRef, seq<NodeRef>>, ghost rank: map<NodeRef, nat>, ghost bound: nat)
      returns (r: Result<VertexInfo>, h': FibHeap, ghost roots': seq<NodeRef>, ghost kids': map<NodeRef, seq<NodeRef>>, ghost rank': map<NodeRef, nat>, ghost bound': nat)
    requires Valid(h, roots, kids, rank, bound)
    ensures Valid(h', roots', kids', rank', bound')
    ensures r.Failure? <==> Contents(h) == map[]
    ensures r.Failure? ==> r.error == OutOfRange && h' == h
    ensures r.Success? ==> h.minNode != null && h.minNode in h.nodes && r.value == h.nodes[h.minNode].key
    ensures r.Success? ==> forall n :: n in h.nodes ==> r.value.distance <= h.nodes[n].key.distance
    ensures r.Success? ==> Contents(h') == Contents(h) - {h.minNode} && h'.numNodes == h.numNodes - 1
  {
    if h.minNode == null {
      EmptyForest(h.nodes, roots, rank, bound);
      return Failure(OutOfRange), h, roots, kids, rank, bound;
    }
    var z: NodeRef := h.minNode;
    assert Contents(h)[z] == h.nodes[z].key;
    MinBelowAll(h.nodes, roots, rank, bound, z);
    var ns: Arena := PromoteChildren(h.nodes, roots, kids, rank, bound, z);
    ghost var rs, kds := roots + kids[z], kids[z := []];
    ExtractStep(ns, rs, kds, rank, bound, z);
    assert Keys(ns)[z] == Keys(h.nodes)[z];
    var key := ns[z].key;
    var m: NodeRef?;
    ns, m := RemoveFromRootList(ns, z, z);
    ns := ns - {z};
    roots', kids', rank', bound' := rs[1..], kds - {z}, rank - {z}, bound;
    if m != null {
      ns, m, roots', kids', rank', bound' := Consolidate(ns, roots', kids', rank', bound', m);
    }
    return Success(key), FibHeap(ns, m, h.numNodes - 1), roots', kids', rank', bound';
  }

  /** `consolidate()` on the root ring read from `minNode`: equal-degree
      roots are linked, the smaller key on top, until no two roots share a
      degree, and the ring is rebuilt from the degree table with `minNode`
      at a least key. No key changes. The roots visited are those of the
      ring as it was on entry. */
  method Consolidate(ns: Arena, ghost roots: seq<NodeRef>, ghost kids: map<NodeRef, seq<NodeRef>>, ghost rank: map<NodeRef, nat>, ghost bound: nat,
                     minNode: NodeRef)
      returns (ns': Arena, minNode': NodeRef?, ghost roots': seq<NodeRef>, ghost kids': map<NodeRef, seq<NodeRef>>, ghost rank': map<NodeRef, nat>, ghost bound': nat)
    requires Trees(ns, roots, kids, rank, bound) && roots[0] == minNode
    ensures minNode' != null && Heap(ns', roots', kids', rank', bound', minNode') && Keys(ns') == Keys(ns)
    ensures forall a, b :: 0 <= a < b < |roots'| ==> ns'[roots'[a]].degree != ns'[roots'[b]].degree
  {
    var W := RootList(ns, roots, minNode);
    var ns1, A, top;
    ghost var rs;
    ns1, A, top, rs, kids', rank', bound' := MergeRoots(ns, roots, kids, rank, bound, minNode, W);
    RebuildStart(ns, ns1, rs, kids', rank', bound', W, A, top);
    ns', minNode', roots' := RebuildRing(ns, ns1, rs, kids', rank', bound', A, top);
    RebuildEnd(ns, ns', rs, kids', rank', bound', A, top, roots', minNode');
  }

  /** Lines 178-192 of `consolidate`, visiting the roots `W` of the ring
      as it was on entry: each root, linked with every table root of its
      degree, takes the first free slot of the degree table `A`. */
  method MergeRoots(ns: Arena, ghost roots: seq<NodeRef>, ghost kids: map<NodeRef, seq<NodeRef>>, ghost rank: map<NodeRef, nat>, ghost bound: nat,
                    minNode: NodeRef, W: seq<NodeRef>)
      returns (ns': Arena, A: map<int, NodeRef>, top: int, ghost rs: seq<NodeRef>, ghost kids': map<NodeRef, seq<NodeRef>>, ghost rank': map<NodeRef, nat>, ghost bound': nat)
    requires Trees(ns, roots, kids, rank, bound) && W == roots
    ensures Merging(ns, ns', rs, kids', rank', bound', W, |W|, A, top)
  {
    ns' := ns;
    var cur: NodeRef? := minNode;
    rs, kids', rank', bound' := roots, kids, rank, bound;
    A, top := map[], 0;
    MergeStart(ns, roots, kids, rank, bound);
    var k := 0;
    while k < |W|
      invariant Merging(ns, ns', rs, kids', rank', bound', W, k, A, top)
      decreases |W| - k
    {
      SettleStart(ns, ns', rs, kids', rank', bound', W, k, A, top);
      var x, d;
      ns', cur, A, x, d, rs, kids', rank', bound' := SettleRoot(ns, ns', cur, rs, kids', rank', bound', W, k, A, top, W[k]);
      SettleEnd(ns, ns', rs, kids', rank', bound', W, k, A, top, x, d);
      A := A[d := x];
      if top <= d {
        top := d + 1;
      }
      k := k + 1;
    }
  }

  /** Lines 180-189 of `consolidate`: while the table holds a root of
      `x`'s degree, the two are linked with the larger key below, the slot
      is emptied and the winner goes on one degree higher. */
  method SettleRoot(ghost ns0: Arena, ns: Arena, minNode: NodeRef?, ghost rs: seq<NodeRef>, ghost kids: map<NodeRef, seq<NodeRef>>, ghost rank: map<NodeRef, nat>, ghost bound: nat,
                    ghost W: seq<NodeRef>, ghost k: int, A: map<int, NodeRef>, ghost top: int, x: NodeRef)
      returns (ns': Arena, minNode': NodeRef?, A': map<int, NodeRef>, x': NodeRef, d': int,
               ghost rs': seq<NodeRef>, ghost kids': map<NodeRef, seq<NodeRef>>, ghost rank': map<NodeRef, nat>, ghost bound': nat)
    requires x in ns && Settling(ns0, ns, rs, kids, rank, bound, W, k, A, top, x, ns[x].degree)
    ensures Settling(ns0, ns', rs', kids', rank', bound', W, k, A', top, x', d') && d' !in A'
  {
    ns', minNode', A', x' := ns, minNode, A, x;
    rs', kids', rank', bound' := rs, kids, rank, bound;
    d' := ns[x].degree;
    while d' in A'
      invariant Settling(ns0, ns', rs', kids', rank', bound', W, k, A', top, x', d')
      decreases |rs'|
    {
      var high, low := A'[d'], x';
      if ns'[x'].key.distance > ns'[A'[d']].key.distance {
        high, low := x', A'[d'];
      }
      rs', kids', rank', bound' := SettleTurn(ns0, ns', rs', kids', rank', bound', W, k, A', top, x', d', high, low);
      ns', minNode' := Link(ns', minNode', high, low);
      A' := A' - {d'};
      x' := low;
      d' := d' + 1;
    }
  }

  /** Lines 192-211 of `consolidate`: `minNode` is reset and the table's
      roots, by increasing degree, are strung into a new root ring, the
      first alone and each later one just left of `minNode`, which moves to
      any root with a smaller key. */
  method RebuildRing(ghost ns0: Arena, ns: Arena, ghost rs: seq<NodeRef>, ghost kids: map<NodeRef, seq<NodeRef>>, ghost rank: map<NodeRef, nat>, ghost bound: nat,
                     A: map<int, NodeRef>, top: int)
      returns (ns': Arena, minNode': NodeRef?, ghost rs2: seq<NodeRef>)
    requires 0 <= top && Rebuilding(ns0, ns, rs, kids, rank, bound, A, top, 0, [], null)
    ensures Rebuilding(ns0, ns', rs, kids, rank, bound, A, top, top, rs2, minNode')
  {
    ns', minNode', rs2 := ns, null, [];
    var i := 0;
    while i < top
      invariant Rebuilding(ns0, ns', rs, kids, rank, bound, A, top, i, rs2, minNode')
      decreases top - i
    {
      if i in A {
        var x := A[i];
        if minNode' == null {
          RebuildFirst(ns0, ns', rs, kids, rank, bound, A, top, i);
          ns' := ns'[x := ns'[x].(left := x, right := x)];
          minNode', rs2 := x, [x];
        } else {
          rs2 := RebuildAttach(ns0, ns', rs, kids, rank, bound, A, top, i, rs2, minNode');
          ns' := AttachToRootList(ns', minNode', x);
          if ns'[x].key.distance < ns'[minNode'].key.distance {
            minNode' := x;
          }
        }
      } else {
        RebuildSkip(ns0, ns', rs, kids, rank, bound, A, top, i, rs2, minNode');
      }
      i := i + 1;
    }
  }
}
