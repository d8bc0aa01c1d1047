/** The shortest-path drivers of Graph.cpp, `dijkstraMinHeap` and
    `dijkstraFibHeap`, and the path reconstruction of
    `printDijkstraResults`.

    Both drivers return the labels `verticesData`; each is proved to
    return `Final` labels, which `ShortestPaths` shows to be shortest
    distances with a tree of shortest paths along the parents. */
module Dijkstra {
  import opened Vertex
  import opened Graphs
  import opened ShortestPaths
  import MinHeaps
  import opened FibRings
  import FH = FibonacciHeaps

  /** Lines 101-105 (and 140-144): every vertex labelled `Unreached` with no
      parent, then `source` set to 0 through `at`, which throws
      `out_of_range` when `source` is not a vertex. */
  method InitLabels(V: nat, source: int) returns (r: Result<Labels>)
    ensures r.Failure? <==> !(0 <= source < V)
    ensures r.Failure? ==> r.error == OutOfRange
    ensures r.Success? ==> r.value == Initial(V, source)
  {
    var data: Labels := map[];
    var i := 0;
    while i < V
      invariant 0 <= i <= V
      invariant forall v :: v in data <==> 0 <= v < i
      invariant forall v :: v in data ==> data[v] == VertexInfo(v, Unreached, -1, false)
    {
      data := data[i := VertexInfo(i, Unreached, -1, false)];
      i := i + 1;
    }
    if source !in data {
      return Failure(OutOfRange);
    }
    data := data[source := data[source].(distance := 0)];
    assert forall v :: v in data <==> v in Initial(V, source);
    return Success(data);
  }

  /** Some element of `s`: the drivers visit the vertices of an
      `unordered_map` and the edges of an `unordered_set` in an order the
      source leaves unspecified. */
  method Pick(s: set<int>) returns (x: int)
    requires s != {}
    ensures x in s
  {
    assert exists y :: y in s by {
      if forall y :: y !in s {
        assert false;
      }
    }
    x :| x in s;
  }

  /** The labels of `data` whose vertex is not in `todo`: what an insertion
      loop has put into its heap so far. */
  ghost function Without(data: Labels, todo: set<int>): Labels
  {
    map v | v in data && v !in todo :: data[v]
  }

  lemma WithoutAll(data: Labels)
    ensures Without(data, data.Keys) == map[]
  {
  }

  lemma WithoutNone(data: Labels)
    ensures Without(data, {}) == data
  {
  }

  lemma WithoutLess(data: Labels, todo: set<int>, v: int)
    requires v in todo && v in data
    ensures Without(data, todo - {v}) == Without(data, todo)[v := data[v]]
  {
  }

  /** A key at or below every unsettled label is at or below every
      unsettled distance. */
  lemma LeastUnsettled(data: Labels, key: VertexInfo)
    requires forall id :: id in Unsettled(data) ==> key.distance <= Unsettled(data)[id].distance
    ensures forall y :: y in data && !data[y].isRemoved ==> key.distance <= data[y].distance
  {
    forall y | y in data && !data[y].isRemoved ensures key.distance <= data[y].distance {
      assert y in Unsettled(data);
    }
  }

  /** `dijkstraMinHeap(source)`: the labels of every vertex, computed with
      the binary heap, or `out_of_range` when `source` is not a vertex. */
  method DijkstraMinHeap(g: Graph, source: int) returns (r: Result<Labels>, ghost order: map<int, nat>)
    requires g.Valid() && Light(g.Adjacency())
    ensures r.Failure? <==> !(0 <= source < g.V)
    ensures r.Failure? ==> r.error == OutOfRange
    ensures r.Success? ==> Final(g.Adjacency(), source, r.value, order)
  {
    ghost var adj := g.Adjacency();
    order := map[];
    var init := InitLabels(g.V, source);
    if init.Failure? {
      return Failure(OutOfRange), order;
    }
    var data := init.value;
    Start(adj, source);
    var minHeap := new MinHeaps.MinHeap([]);
    InsertAll(minHeap, data);
    ghost var t: nat := 0;
    while !minHeap.IsEmpty()
      invariant minHeap.Valid() && fresh(minHeap)
      invariant Progress(adj, source, data, order, t) && minHeap.contents == Unsettled(data)
      decreases minHeap.size
    {
      var u;
      u, data := SettleMin(adj, source, minHeap, data, order, t);
      order, t := order[u := t], t + 1;
      data := Relax(g, source, u, minHeap, data, order, t);
    }
    Finish(adj, source, data, order, t);
    return Success(data), order;
  }

  /** Lines 107-109: every label inserted, in the unspecified order of
      `verticesData`. */
  method InsertAll(minHeap: MinHeaps.MinHeap, data: Labels)
    requires minHeap.Valid() && minHeap.contents == map[]
    requires forall v :: v in data ==> data[v].vertex == v
    modifies minHeap
    ensures minHeap.Valid() && minHeap.contents == data
  {
    var todo := data.Keys;
    WithoutAll(data);
    while todo != {}
      invariant todo <= data.Keys && minHeap.Valid() && minHeap.contents == Without(data, todo)
      decreases todo
    {
      var v := Pick(todo);
      minHeap.Insert(data[v]);
      WithoutLess(data, todo, v);
      todo := todo - {v};
    }
    WithoutNone(data);
  }

  /** Lines 113-114: the least label leaves the heap and its vertex is
      marked settled. */
  method SettleMin(ghost adj: Adj, source: int, minHeap: MinHeaps.MinHeap, data: Labels, ghost order: map<int, nat>, ghost t: nat)
      returns (u: int, data': Labels)
    requires minHeap.Valid() && !minHeap.IsEmpty()
    requires Progress(adj, source, data, order, t) && minHeap.contents == Unsettled(data)
    modifies minHeap
    ensures minHeap.Valid() && minHeap.size == old(minHeap.size) - 1
    ensures 0 <= u < |adj| && data' == data[u := data[u].(isRemoved := true)]
    ensures Relaxing(adj, source, data', order[u := t], t + 1, u, {}) && minHeap.contents == Unsettled(data')
  {
    var extracted := minHeap.ExtractMin();
    u := extracted.value.vertex;
    LeastUnsettled(data, extracted.value);
    Settle(adj, source, data, order, t, u);
    data' := data[u := data[u].(isRemoved := true)];
  }

  /** Lines 115-127: the edge loop of the vertex `u` just settled, in the
      order of its adjacency set, which the source leaves unspecified. */
  method Relax(g: Graph, source: int, u: int, minHeap: MinHeaps.MinHeap, data: Labels, ghost order: map<int, nat>, ghost t: nat)
      returns (data': Labels)
    requires g.Valid() && 0 <= u < g.V && minHeap.Valid()
    requires Relaxing(g.Adjacency(), source, data, order, t, u, {}) && minHeap.contents == Unsettled(data)
    modifies minHeap
    ensures minHeap.Valid() && minHeap.size == old(minHeap.size)
    ensures Progress(g.Adjacency(), source, data', order, t) && minHeap.contents == Unsettled(data')
  {
    ghost var adj := g.Adjacency();
    var edges := g.adj[u];
    var todo := edges.Keys;
    data' := data;
    while todo != {}
      invariant todo <= edges.Keys && minHeap.Valid() && minHeap.size == old(minHeap.size)
      invariant Relaxing(adj, source, data', order, t, u, edges.Keys - todo) && minHeap.contents == Unsettled(data')
      decreases todo
    {
      var dst := Pick(todo);
      data' := RelaxEdge(adj, source, u, edges[dst], dst, minHeap, data', order, t, edges.Keys - todo);
      todo := todo - {dst};
      assert edges.Keys - todo == (edges.Keys - (todo + {dst})) + {dst};
    }
    Settled(adj, source, data', order, t, u);
  }

  /** Lines 117-126 for the edge from `u` to `dst` of weight `w`: skipped
      when `dst` is settled; otherwise, when the distance over `u` is below
      `dst`'s, `dst` takes it with `u` as parent and the heap is told
      through `decreaseKey`. */
  method RelaxEdge(ghost adj: Adj, source: int, u: int, w: int, dst: int, minHeap: MinHeaps.MinHeap, data: Labels,
                   ghost order: map<int, nat>, ghost t: nat, ghost done: set<int>)
      returns (data': Labels)
    requires 0 <= u < |adj| && dst in adj[u] && w == adj[u][dst] && minHeap.Valid()
    requires Relaxing(adj, source, data, order, t, u, done) && minHeap.contents == Unsettled(data)
    modifies minHeap
    ensures minHeap.Valid() && minHeap.size == old(minHeap.size)
    ensures Relaxing(adj, source, data', order, t, u, done + {dst}) && minHeap.contents == Unsettled(data')
    ensures data' == if !data[dst].isRemoved && data[u].distance + w < data[dst].distance
                     then data[dst := data[dst].(distance := data[u].distance + w, parent := u)] else data
  {
    if data[dst].isRemoved {
      Skip(adj, source, data, order, t, u, done, dst);
      return data;
    }
    var newDist := data[u].distance + w;
    if newDist < data[dst].distance {
      Improve(adj, source, data, order, t, u, done, dst);
      data' := data[dst := data[dst].(distance := newDist, parent := u)];
      var outcome := minHeap.DecreaseKey(data'[dst], data'[dst]);
    } else {
      Skip(adj, source, data, order, t, u, done, dst);
      data' := data;
    }
  }

  /** The Fibonacci heap's keys mirror the unsettled labels `view`:
      `refs` (`nodeReferences`) takes each to the node holding its label,
      and every node holds the label of the vertex it is referenced by. */
  ghost predicate Tracked(c: map<NodeRef, VertexInfo>, refs: map<int, NodeRef>, view: Labels)
  {
    && (forall v :: v in view ==> view[v].vertex == v && v in refs && refs[v] in c && c[refs[v]] == view[v])
    && (forall n :: n in c ==> c[n].vertex in view && refs[c[n].vertex] == n)
  }

  /** `nodeReferences.emplace(v, fibHeap.insert(info))` with a new node. */
  lemma TrackedInsert(c: map<NodeRef, VertexInfo>, refs: map<int, NodeRef>, view: Labels, x: NodeRef, info: VertexInfo)
    requires Tracked(c, refs, view) && x !in c && info.vertex !in view
    ensures Tracked(c[x := info], refs[info.vertex := x], view[info.vertex := info])
  {
  }

  /** The node `extractMin` takes is the one of the vertex it holds, and
      the rest stay mirrored. */
  lemma TrackedExtract(c: map<NodeRef, VertexInfo>, refs: map<int, NodeRef>, view: Labels, m: NodeRef)
    requires Tracked(c, refs, view) && m in c
    ensures c[m].vertex in view && view[c[m].vertex] == c[m] && refs[c[m].vertex] == m
    ensures Tracked(c - {m}, refs, view - {c[m].vertex})
  {
  }

  /** `decreaseKey(nodeReferences.at(v), info)` relabels `v` in the view. */
  lemma TrackedRekey(c: map<NodeRef, VertexInfo>, refs: map<int, NodeRef>, view: Labels, v: int, info: VertexInfo)
    requires Tracked(c, refs, view) && v in view && info.vertex == v
    ensures v in refs && refs[v] in c && c[refs[v]] == view[v]
    ensures Tracked(c[refs[v] := info], refs, view[v := info])
  {
  }

  /** The heap holds a node iff some vertex is unsettled. */
  lemma TrackedEmpty(c: map<NodeRef, VertexInfo>, refs: map<int, NodeRef>, view: Labels)
    requires Tracked(c, refs, view)
    ensures c == map[] <==> view == map[]
  {
    if c != map[] {
      var n :| n in c;
      assert c[n].vertex in view;
    }
    if view != map[] {
      assert exists y :: y in view by {
        if forall y :: y !in view {
          assert false;
        }
      }
      var v :| v in view;
      assert refs[v] in c;
    }
  }

  /** Always true. It serves only as the trigger of the quantifier in
      `Mirrors`: the solver instantiates that quantifier, and so learns
      its body, only where a proof mentions `Unsealed`, which `Unseal`
      does. Everywhere else `Mirrors` stays one opaque fact, and the
      driver's proof obligations are not split over the many clauses of
      the heap's validity. */
  ghost predicate Unsealed(k: nat)
  {
    true
  }

  /** The Fibonacci heap is valid for its ghost shape and mirrors `view`
      through `refs`. The body is guarded by `Unsealed`, so only proofs
      that call `Unseal` see inside it: the relaxation loops pass the heap
      along without reasoning about its forest. */
  ghost predicate Mirrors(h: FH.FibHeap, roots: seq<NodeRef>, kids: map<NodeRef, seq<NodeRef>>, rank: map<NodeRef, nat>, bound: nat,
                          refs: map<int, NodeRef>, view: Labels)
  {
    && 0 <= h.numNodes
    && forall k: nat {:trigger Unsealed(k)} :: FH.Valid(h, roots, kids, rank, bound) && Tracked(FH.Contents(h), refs, view)
  }

  lemma Unseal(h: FH.FibHeap, roots: seq<NodeRef>, kids: map<NodeRef, seq<NodeRef>>, rank: map<NodeRef, nat>, bound: nat,
               refs: map<int, NodeRef>, view: Labels)
    requires Mirrors(h, roots, kids, rank, bound, refs, view)
    ensures FH.Valid(h, roots, kids, rank, bound) && Tracked(FH.Contents(h), refs, view)
  {
    assert Unsealed(0);
  }

  lemma Seal(h: FH.FibHeap, roots: seq<NodeRef>, kids: map<NodeRef, seq<NodeRef>>, rank: map<NodeRef, nat>, bound: nat,
             refs: map<int, NodeRef>, view: Labels)
    requires FH.Valid(h, roots, kids, rank, bound) && Tracked(FH.Contents(h), refs, view)
    ensures Mirrors(h, roots, kids, rank, bound, refs, view)
  {
  }

  /** `fibHeap.isEmpty()` on a mirroring heap: empty iff every vertex is
      settled. */
  function IsEmptyFib(h: FH.FibHeap, ghost roots: seq<NodeRef>, ghost kids: map<NodeRef, seq<NodeRef>>, ghost rank: map<NodeRef, nat>, ghost bound: nat,
                      ghost refs: map<int, NodeRef>, ghost view: Labels): (b: bool)
    requires Mirrors(h, roots, kids, rank, bound, refs, view)
    ensures b <==> view == map[]
  {
    Unseal(h, roots, kids, rank, bound, refs, view);
    TrackedEmpty(FH.Contents(h), refs, view);
    FH.IsEmpty(h, roots, kids, rank, bound)
  }

  /** `dijkstraFibHeap(source)`: the same labels computed with the Fibonacci
      heap, each vertex's node remembered in `nodeReferences`. */
  method DijkstraFibHeap(g: Graph, source: int) returns (r: Result<Labels>, ghost order: map<int, nat>)
    requires g.Valid() && Light(g.Adjacency())
    ensures r.Failure? <==> !(0 <= source < g.V)
    ensures r.Failure? ==> r.error == OutOfRange
    ensures r.Success? ==> Final(g.Adjacency(), source, r.value, order)
  {
    ghost var adj := g.Adjacency();
    order := map[];
    var init := InitLabels(g.V, source);
    if init.Failure? {
      return Failure(OutOfRange), order;
    }
    var data := init.value;
    Start(adj, source);
    var fibHeap, nodeReferences;
    ghost var roots, kids, rank, bound;
    fibHeap, nodeReferences, roots, kids, rank, bound := InsertAllFib(data);
    ghost var t: nat := 0;
    while !IsEmptyFib(fibHeap, roots, kids, rank, bound, nodeReferences, Unsettled(data))
      invariant Mirrors(fibHeap, roots, kids, rank, bound, nodeReferences, Unsettled(data))
      invariant Progress(adj, source, data, order, t)
      decreases fibHeap.numNodes
    {
      var u;
      u, data, fibHeap, roots, kids, rank, bound := SettleMinFib(adj, source, fibHeap, roots, kids, rank, bound, nodeReferences, data, order, t);
      order, t := order[u := t], t + 1;
      data, fibHeap, roots, kids, rank, bound := RelaxFib(g, source, u, fibHeap, roots, kids, rank, bound, nodeReferences, data, order, t);
    }
    Finish(adj, source, data, order, t);
    return Success(data), order;
  }

  /** Lines 144-147: every label inserted into a new heap, in the
      unspecified order of `verticesData`, each at a newly allocated node
      that `nodeReferences` remembers. */
  method InsertAllFib(data: Labels)
      returns (h: FH.FibHeap, nodeReferences: map<int, NodeRef>,
               ghost roots: seq<NodeRef>, ghost kids: map<NodeRef, seq<NodeRef>>, ghost rank: map<NodeRef, nat>, ghost bound: nat)
    requires forall v :: v in data ==> data[v].vertex == v
    ensures Mirrors(h, roots, kids, rank, bound, nodeReferences, data)
  {
    h := FH.EmptyHeap();
    roots, kids, rank, bound := [], map[], map[], 0;
    nodeReferences := map[];
    ghost var view: Labels := map[];
    var todo := data.Keys;
    WithoutAll(data);
    while todo != {}
      invariant todo <= data.Keys && FH.Valid(h, roots, kids, rank, bound)
      invariant Tracked(FH.Contents(h), nodeReferences, view) && view == Without(data, todo)
      decreases todo
    {
      var v := Pick(todo);
      var x := new NodeRef();
      TrackedInsert(FH.Contents(h), nodeReferences, view, x, data[v]);
      h, roots, kids, rank, bound := FH.Insert(h, roots, kids, rank, bound, data[v], x);
      nodeReferences := nodeReferences[v := x];
      view := view[v := data[v]];
      WithoutLess(data, todo, v);
      todo := todo - {v};
    }
    WithoutNone(data);
    Seal(h, roots, kids, rank, bound, nodeReferences, data);
  }

  /** Lines 151-152: the least label leaves the Fibonacci heap and its
      vertex is marked settled. */
  method SettleMinFib(ghost adj: Adj, source: int, h: FH.FibHeap,
                      ghost roots: seq<NodeRef>, ghost kids: map<NodeRef, seq<NodeRef>>, ghost rank: map<NodeRef, nat>, ghost bound: nat,
                      nodeReferences: map<int, NodeRef>, data: Labels, ghost order: map<int, nat>, ghost t: nat)
      returns (u: int, data': Labels, h': FH.FibHeap,
               ghost roots': seq<NodeRef>, ghost kids': map<NodeRef, seq<NodeRef>>, ghost rank': map<NodeRef, nat>, ghost bound': nat)
    requires Mirrors(h, roots, kids, rank, bound, nodeReferences, Unsettled(data)) && Unsettled(data) != map[]
    requires Progress(adj, source, data, order, t)
    ensures Mirrors(h', roots', kids', rank', bound', nodeReferences, Unsettled(data')) && h'.numNodes == h.numNodes - 1
    ensures 0 <= u < |adj| && data' == data[u := data[u].(isRemoved := true)]
    ensures Relaxing(adj, source, data', order[u := t], t + 1, u, {})
  {
    Unseal(h, roots, kids, rank, bound, nodeReferences, Unsettled(data));
    TrackedEmpty(FH.Contents(h), nodeReferences, Unsettled(data));
    var extracted;
    extracted, h', roots', kids', rank', bound' := FH.ExtractMin(h, roots, kids, rank, bound);
    u := extracted.value.vertex;
    ghost var m: NodeRef := h.minNode;
    TrackedExtract(FH.Contents(h), nodeReferences, Unsettled(data), m);
    LeastTracked(h, nodeReferences, data, extracted.value);
    Settle(adj, source, data, order, t, u);
    data' := data[u := data[u].(isRemoved := true)];
    Seal(h', roots', kids', rank', bound', nodeReferences, Unsettled(data'));
  }

  /** A key at or below every key of the heap is at or below every
      unsettled distance. */
  lemma LeastTracked(h: FH.FibHeap, refs: map<int, NodeRef>, data: Labels, key: VertexInfo)
    requires Tracked(FH.Contents(h), refs, Unsettled(data))
    requires forall n :: n in h.nodes ==> key.distance <= h.nodes[n].key.distance
    ensures forall y :: y in data && !data[y].isRemoved ==> key.distance <= data[y].distance
  {
    forall y | y in data && !data[y].isRemoved ensures key.distance <= data[y].distance {
      assert y in Unsettled(data);
      assert h.nodes[refs[y]].key == data[y];
    }
  }

  /** Lines 153-165: the edge loop of `Relax`, for the Fibonacci heap. */
  method RelaxFib(g: Graph, source: int, u: int, h: FH.FibHeap,
                  ghost roots: seq<NodeRef>, ghost kids: map<NodeRef, seq<NodeRef>>, ghost rank: map<NodeRef, nat>, ghost bound: nat,
                  nodeReferences: map<int, NodeRef>, data: Labels, ghost order: map<int, nat>, ghost t: nat)
      returns (data': Labels, h': FH.FibHeap,
               ghost roots': seq<NodeRef>, ghost kids': map<NodeRef, seq<NodeRef>>, ghost rank': map<NodeRef, nat>, ghost bound': nat)
    requires g.Valid() && 0 <= u < g.V && Mirrors(h, roots, kids, rank, bound, nodeReferences, Unsettled(data))
    requires Relaxing(g.Adjacency(), source, data, order, t, u, {})
    ensures Mirrors(h', roots', kids', rank', bound', nodeReferences, Unsettled(data')) && h'.numNodes == h.numNodes
    ensures Progress(g.Adjacency(), source, data', order, t)
  {
    ghost var adj := g.Adjacency();
    var edges := g.adj[u];
    var todo := edges.Keys;
    ghost var done: set<int> := {};
    data', h', roots', kids', rank', bound' := data, h, roots, kids, rank, bound;
    while todo != {}
      invariant todo <= edges.Keys && done == edges.Keys - todo
      invariant Mirrors(h', roots', kids', rank', bound', nodeReferences, Unsettled(data')) && h'.numNodes == h.numNodes
      invariant Relaxing(adj, source, data', order, t, u, done)
      decreases todo
    {
      var dst := Pick(todo);
      data', h', roots', kids', rank', bound' := RelaxEdgeFib(adj, source, u, edges[dst], dst, h', roots', kids', rank', bound', nodeReferences, data', order, t, done);
      todo, done := todo - {dst}, done + {dst};
    }
    Settled(adj, source, data', order, t, u);
  }

  /** Lines 155-164 for the edge from `u` to `dst` of weight `w`, as in
      `RelaxEdge`, with `decreaseKey` on `dst`'s node. */
  method RelaxEdgeFib(ghost adj: Adj, source: int, u: int, w: int, dst: int, h: FH.FibHeap,
                      ghost roots: seq<NodeRef>, ghost kids: map<NodeRef, seq<NodeRef>>, ghost rank: map<NodeRef, nat>, ghost bound: nat,
                      nodeReferences: map<int, NodeRef>, data: Labels, ghost order: map<int, nat>, ghost t: nat, ghost done: set<int>)
      returns (data': Labels, h': FH.FibHeap,
               ghost roots': seq<NodeRef>, ghost kids': map<NodeRef, seq<NodeRef>>, ghost rank': map<NodeRef, nat>, ghost bound': nat)
    requires 0 <= u < |adj| && dst in adj[u] && w == adj[u][dst] && Mirrors(h, roots, kids, rank, bound, nodeReferences, Unsettled(data))
    requires Relaxing(adj, source, data, order, t, u, done)
    ensures Mirrors(h', roots', kids', rank', bound', nodeReferences, Unsettled(data')) && h'.numNodes == h.numNodes
    ensures Relaxing(adj, source, data', order, t, u, done + {dst})
    ensures data' == if !data[dst].isRemoved && data[u].distance + w < data[dst].distance
                     then data[dst := data[dst].(distance := data[u].distance + w, parent := u)] else data
  {
    if data[dst].isRemoved {
      Skip(adj, source, data, order, t, u, done, dst);
      return data, h, roots, kids, rank, bound;
    }
    var newDist := data[u].distance + w;
    if newDist < data[dst].distance {
      Improve(adj, source, data, order, t, u, done, dst);
      data' := data[dst := data[dst].(distance := newDist, parent := u)];
      assert dst in Unsettled(data) && Unsettled(data)[dst] == data[dst];
      h', roots', kids', rank', bound' := RekeyFib(h, roots, kids, rank, bound, nodeReferences, Unsettled(data), dst, data'[dst]);
    } else {
      Skip(adj, source, data, order, t, u, done, dst);
      data', h', roots', kids', rank', bound' := data, h, roots, kids, rank, bound;
    }
  }

  /** `fibHeap.decreaseKey(nodeReferences.at(v), info)` for a vertex `v`
      still in the heap, whose label `info` does not raise. */
  method RekeyFib(h: FH.FibHeap, ghost roots: seq<NodeRef>, ghost kids: map<NodeRef, seq<NodeRef>>, ghost rank: map<NodeRef, nat>, ghost bound: nat,
                  nodeReferences: map<int, NodeRef>, ghost view: Labels, v: int, info: VertexInfo)
      returns (h': FH.FibHeap, ghost roots': seq<NodeRef>, ghost kids': map<NodeRef, seq<NodeRef>>, ghost rank': map<NodeRef, nat>, ghost bound': nat)
    requires Mirrors(h, roots, kids, rank, bound, nodeReferences, view)
    requires v in view && info.vertex == v && info.distance <= view[v].distance
    ensures Mirrors(h', roots', kids', rank', bound', nodeReferences, view[v := info]) && h'.numNodes == h.numNodes
  {
    Unseal(h, roots, kids, rank, bound, nodeReferences, view);
    TrackedRekey(FH.Contents(h), nodeReferences, view, v, info);
    var outcome;
    outcome, h', roots', kids', rank', bound' := FH.DecreaseKey(h, roots, kids, rank, bound, nodeReferences[v], info);
    Seal(h', roots', kids', rank', bound', nodeReferences, view[v := info]);
  }

  /** The path report of `printDijkstraResults` for one vertex: the parent
      chain is followed from `vertex` until a parent of -1, collecting the
      vertices child first (`vertex` itself is never -1, or the collection
      would be empty and `back()` undefined); when the last one collected is not `source`
      there is no path, otherwise the collection is emitted back to front.
      The result is the chain `Ancestry` describes, which `TreePath` shows
      to start at `source` exactly for reached vertices and to be a
      shortest path to them. */
  method ReportPath(data: Labels, ghost order: map<int, nat>, source: int, vertex: int) returns (found: bool, route: seq<int>)
    requires Chased(data, order) && vertex in data && vertex != -1
    ensures found <==> Ancestry(data, order, vertex)[0] == source
    ensures found ==> route == Ancestry(data, order, vertex)
    ensures !found ==> route == []
  {
    ghost var chain := Ancestry(data, order, vertex);
    var path: seq<int> := [];
    var current := vertex;
    while current != -1
      invariant |path| <= |chain|
      invariant forall i :: 0 <= i < |path| ==> path[i] == chain[|chain| - 1 - i]
      invariant current == -1 <==> |path| == |chain|
      invariant current != -1 ==> current in data && Ancestry(data, order, current) == chain[..|chain| - |path|]
      decreases |chain| - |path|
    {
      ghost var up := Ancestry(data, order, current);
      assert up[|up| - 1] == current;
      path := path + [current];
      if data[current].parent != -1 {
        assert up == Ancestry(data, order, data[current].parent) + [current];
        assert Ancestry(data, order, data[current].parent) == chain[..|chain| - |path|];
      }
      current := data[current].parent;
    }
    if path[|path| - 1] != source {
      return false, [];
    }
    route := [];
    var i := |path| - 1;
    while i >= 0
      invariant -1 <= i < |path|
      invariant route == chain[..|path| - 1 - i]
    {
      assert chain[..|path| - i] == chain[..|path| - 1 - i] + [path[i]];
      route := route + [path[i]];
      i := i - 1;
    }
    assert route == chain;
    found := true;
  }
}
